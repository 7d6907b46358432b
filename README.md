# Latency benchmark for a TCP echo server, modelled in Dafny

`bench.c` runs `BENCH_COUNT` (50) rounds. Each round has `MAX_THREAD` (1000) worker
threads. Each worker:

- gets a random lower-case message of 16 to 31 bytes;
- meets the other workers at a counting barrier (`ready`);
- connects to the echo server and sends the message;
- reads the echo back chunk by chunk and checks it with `strncmp`;
- adds its round-trip time to the next free slot of `time_res`, claimed through `idx`.

At the end every slot is divided by `BENCH_COUNT` and written out in index order.
Any failure (socket, connect, barrier wait, echo mismatch) ends the whole run.

The model is a sequential abstraction of that logic. It has one module per part of the program:

- `Config` (config.dfy): the constants of `bench.c`, a byte type, the modelled
  conditions that call `exit(-1)` and a `Result` type for them.
- `Bits` (bits.dfy): `&` on non-negative integers, for the power-of-two branch of
  the `MASK` macro.
- `Message` (message.dfy): all three preprocessor branches of `MASK`, `strlen`,
  `rand_string` as a method that fills a zero-filled array in a loop, and the
  message part of `create_worker`. `rand()` is a function `nat -> nat`: the value
  of call number k.
- `Timing` (timing.dfy): `time_diff_us` on `(sec, usec)` pairs.
- `Receive` (receive.dfy): the receive loop. `recv` is a sequence of byte chunks;
  once they are used up, `recv` returns 0. A pure function `Drain` defines where the
  loop stops. `ReceiveLoop` writes each chunk into an array at offset `recvlen`.
- `Worker` (worker.dfy): `strncmp`, the echo validation, one worker's outcome
  (`Cycle`, with the imperative `WorkerBody` proved equal to it) and the `ready`
  counter as a class.
- `Controller` (controller.dfy): `time_res`/`idx` as a class over an array, one round,
  and `bench` with its in-place averaging. A round takes one outcome per worker, in a
  given arbitrary order. For a successful worker its position is the order in which
  it takes `res_lock`. A failing worker exits before it reaches `res_lock`, so its
  position is simply where it falls in the given order. Each outcome is what
  `Worker.Cycle` gives for that worker.

With equal bounds the macro gives `MAX_MSG_LEN - 1` (bench.c:23), not `MAX_MSG_LEN`;
`Message.Mask` states that.

The receive loop stops on a zero-length read even when fewer bytes than were sent
have arrived. The validation then compares the message with the bytes received so
far followed by whatever the stack buffer held before at the later positions
(`Worker.AfterRecv`). The model keeps this behaviour. `Worker.EarlyCloseComparesStale`
states its consequence in the extreme case: when the peer closes at once, nothing
was received, and the run goes on exactly when the old bytes equal the message.

## Model

| member | source | states |
|---|---|---|
| `Bits.BitAnd` | bench.c:26 | `num & mask` is at most each operand |
| `Bits.PowerOfTwoTest` | bench.c:25 | the test `(MAX & (MAX - 1)) == 0` holds exactly when `MAX` is a power of two, in both directions |
| `Bits.BitAndLowMask` | bench.c:26 | for a power of two `m`, `num & (m - 1) == num % m` |
| `Message.Mask` | bench.c:22-32 | the macro's result lies in `[0, MAX)`; in `[MIN, MAX)` when `MIN < MAX`; it is `MAX - 1` when the bounds are equal |
| `Message.MaskZeroMinIsMod` | bench.c:24-29 | with `MIN = 0`, the bit-mask branch and the remainder branch both give `num % MAX` |
| `Message.MaskCovers` | bench.c:30-31 | every length in `[MIN, MAX)` comes from some random value, so the range is covered exactly |
| `Message.MessageLength` | bench.c:20-21 | with the configured bounds 16 and 32, `MASK(num)` lies in `[16, 32)` for every `num >= 0` |
| `Message.Strlen` | bench.c:127 | `strlen` gives the index of the first NUL: that byte is 0 and no byte before it is |
| `Message.RandMessageShape` | bench.c:151-160 | `RandMessage`, the buffer `rand_string` returns, has `r + 1` bytes, `r = MASK(rand())`; bytes `0..r-1` are in 97..122, byte `r` is 0, so its `strlen` is `r` |
| `Message.RandString` | bench.c:151-160 | the method allocates a fresh buffer whose contents are the generated message, and consumes `r + 1` random values |
| `Message.CreateWorkers` | bench.c:162-172 | one well-formed message per worker, each from the random values after those of the previous worker |
| `Timing.TimeDiffUs` | bench.c:82-86 | the difference equals end minus start on one microsecond scale |
| `Timing.TimeDiffSign` | bench.c:82-86 | on normalized readings the difference is `>= 0` exactly when end is not earlier than start |
| `Timing.TimeDiffZero` | bench.c:82-86 | on normalized readings the difference is 0 exactly when the two readings coincide |
| `Receive.Drain` | bench.c:130-132 | the loop resumed at call `k` stops at some call between `k` and the end of the chunks; unless it stops on a read of 0, it adds at least one more result |
| `Receive.DrainFrom` | bench.c:130-132 | the exit condition from any reached call on (the induction step of `ReceiveExit`) |
| `Receive.ReceiveExit` | bench.c:127-132 | at exit, the results added are all non-empty and no earlier total reached the sent length; either the next read returned 0 and was not added, or the total reached the sent length |
| `Receive.RecvInto` | bench.c:130 | `recv` writes its bytes at offset `recvlen` and leaves the rest of the buffer unchanged |
| `Receive.ReceiveLoop` | bench.c:127-132 | the loop ends as `Drain` says; `recvlen` is the total length of the results added; the buffer holds those bytes followed by its old contents |
| `Worker.StrnEqualIsPrefixEquality` | bench.c:138 | `StrnEqual` is `strncmp(a, b, n) == 0`, stopping early at a NUL both share; when the first `n` sent bytes contain no NUL, it holds exactly when the first `n` bytes are equal |
| `Worker.Validate` | bench.c:138-141 | the check passes exactly when the first `strlen(reqstr)` received bytes equal the sent ones |
| `Worker.Cycle` | bench.c:95-141 | each set-up failure gives its own error; otherwise the worker succeeds exactly when validation passes; it then reports `end - start` in microseconds, and otherwise a validation failure |
| `Worker.FullReceive` | bench.c:130-132 | when the peer sends at least the sent length in non-empty pieces, the loop gathers at least that length, as a prefix of what was sent |
| `Worker.EchoPasses` | bench.c:127-141 | a server that echoes the message, in any split, passes validation and the worker reports the elapsed time |
| `Worker.CorruptEchoFails` | bench.c:138-141 | a server that echoes a wrong byte within the message length makes the run abort with a validation failure |
| `Worker.EarlyCloseComparesStale` | bench.c:130-141 | if the peer closes before sending anything, validation compares the message with the buffer's previous contents |
| `Worker.WorkerBody` | bench.c:95-141 | the imperative worker body gives the outcome `Cycle` defines and leaves the buffer as `AfterRecv` says |
| `Worker.Barrier.constructor` | bench.c:72 | the counter starts at 0 |
| `Worker.Barrier.Arrive` | bench.c:96-99 | an arrival adds 1 to `ready`; it broadcasts exactly when `ready` becomes `MAX_THREAD` |
| `Controller.ResultTable.constructor` | bench.c:78-79 | every slot and `idx` start at 0 |
| `Controller.ResultTable.Record` | bench.c:143-145 | `time_res[idx++] += latency` changes only slot `idx`, adding the latency to it, and advances `idx` by one |
| `Controller.RoundStatus` | bench.c:95-141 | a round completes exactly when every worker in it succeeds |
| `Controller.RoundStatusFirst` | bench.c:95-141 | a round aborts with the failure of its first failing worker |
| `Controller.RunRound` | bench.c:176-185 | `ready` is reset and reaches `MAX_THREAD`; only the last arrival broadcasts; `idx` takes the values `0..MAX_THREAD-1` once each; every slot receives exactly its one latency; `idx` is 0 again afterwards |
| `Controller.CDiv` | bench.c:188 | C's truncating division: the quotient times the divisor is within one divisor of the dividend, on the dividend's side of zero |
| `Controller.CDivExact` | bench.c:188 | dividing a multiple of `BENCH_COUNT` by it is exact |
| `Controller.ConstantLatencyTotal` | bench.c:144 | a slot receiving the same latency in every round totals round count times that latency |
| `Controller.ConstantLatencyAverage` | bench.c:187-188 | a slot with the same latency in every round reports exactly that latency |
| `Controller.Bench` | bench.c:174-189 | the run aborts exactly when some worker fails, with the failure of the first failing round; otherwise line `i` is `(i, (sum over rounds of slot i's latencies) / BENCH_COUNT)` for `i = 0..MAX_THREAD-1` in order, and `time_res[i]` holds that value |

## Left out

- Sockets (`socket`, `connect`, `send`, `shutdown`, `close`) are network I/O, and
  `recv` is the given chunk sequence. Failures of `socket` and `connect` are an input
  (`Worker.Setup`). The code ignores the results of `send`, `shutdown` and `close`,
  and so does the model. A failed `send` shows only in what the peer sends back,
  which is the given chunk sequence.
- `recv` returning -1: the code adds the -1 to `recvlen` and never checks for it.
  The model allows only non-negative read lengths.
- Threads and locking (`pthread_create`, `pthread_join`, the two mutexes, blocking in
  `pthread_cond_wait`, `pthread_exit`) are concurrency. The model keeps the `ready`
  counter and puts the claims on `time_res` in the order the lock serialises them.
  A failing `pthread_create` is not modelled.
- `gettimeofday`, `srand(time(NULL))` and `rand()` are foreign calls. Timestamps and
  the random stream are inputs. `rand()` values are any non-negative integers, not
  just values up to `RAND_MAX`.
- `fopen`, `fprintf`, `fclose` and `main` are file I/O. Their result is the sequence
  of `(slot, average)` lines.
- `exit(-1)` is an `Err` outcome, not process termination. In a failing round, the
  latencies other threads may already have added are not tracked, because the run
  writes no output after aborting.
- `free(reqstr)`: memory is not modelled.
- Integer widths: `time_diff_us` and the `time_res` sums are unbounded integers. The
  `long` arithmetic of the code does not overflow for realistic readings.
- Receive.ReceiveLoop: a stalled peer is not modelled. The real `recv` blocks for good
  when the peer neither sends nor closes, and the loop has no time-out, so that worker
  hangs and its whole round stalls. A finite chunk sequence whose end reads as 0
  cannot express this, so in the model the loop always terminates.
- Receive.ReceiveLoop: the bound that each `recv` writes within the `MAX_MSG_LEN`
  buffer (`FitsBuffer`) is a precondition, not a proved property. The code passes
  `MAX_MSG_LEN` as the capacity at offset `recvlen`, so a peer that sends more than
  the buffer holds would overflow it.
- Controller.Bench: takes each worker's outcome as an input and does not call
  `Worker.WorkerBody`. Which message, which `recv` results and which lock position a
  worker gets are decided by the scheduler and the network.
- The uninitialised stack buffer `recstr` is a parameter (`stale` / the array's
  previous contents) with arbitrary contents.
