/**
 * One worker of `bench_worker`, sequentially: the rendezvous counter, the
 * fallible socket set-up, the timed round trip, and the echo validation. The
 * slot claim under `res_lock` is in the Controller module.
 */
module Worker {
  import opened Config
  import opened Message
  import opened Timing
  import opened Receive

  /** `strncmp(a, b, n) == 0`: equal up to `n` bytes, stopping early at a NUL both share. */
  function StrnEqual(a: seq<Byte>, b: seq<Byte>, n: nat): bool
    requires n <= |a| && n <= |b|
  {
    n == 0 || (a[0] == b[0] && (a[0] == 0 || StrnEqual(a[1..], b[1..], n - 1)))
  }

  /** Where `a` has no NUL among its first `n` bytes, `strncmp` is plain prefix equality. */
  lemma {:induction false} StrnEqualIsPrefixEquality(a: seq<Byte>, b: seq<Byte>, n: nat)
    requires n <= |a| && n <= |b|
    requires forall i :: 0 <= i < n ==> a[i] != 0
    ensures StrnEqual(a, b, n) <==> a[..n] == b[..n]
  {
    if n > 0 {
      StrnEqualIsPrefixEquality(a[1..], b[1..], n - 1);
      assert a[..n] == [a[0]] + a[1..][..n - 1];
      assert b[..n] == [b[0]] + b[1..][..n - 1];
    }
  }

  /**
   * The check `strncmp(reqstr, recstr, strlen(reqstr))`: it passes exactly when
   * the first `strlen(reqstr)` received bytes are the sent ones.
   */
  function Validate(reqstr: seq<Byte>, recstr: seq<Byte>): (ok: bool)
    requires 0 in reqstr && Strlen(reqstr) <= |recstr|
    ensures ok <==> recstr[..Strlen(reqstr)] == reqstr[..Strlen(reqstr)]
  {
    StrnEqualIsPrefixEquality(reqstr, recstr, Strlen(reqstr));
    StrnEqual(reqstr, recstr, Strlen(reqstr))
  }

  /**
   * Which of the worker's steps before the round trip fails first, if any.
   * `WaitError` is allowed for every worker, although the arrival that makes
   * `ready` reach `MAX_THREAD` broadcasts and never waits; this only admits
   * more inputs than the code can produce.
   */
  datatype Setup = Connected | WaitError | SocketError | ConnectError

  /** The receive buffer after the loop: the received bytes over its previous contents. */
  function AfterRecv(stale: seq<Byte>, chunks: seq<seq<Byte>>, reqlen: int): seq<Byte>
    requires FitsBuffer(chunks, reqlen, |stale|)
  {
    Received(chunks, reqlen) + stale[|Received(chunks, reqlen)|..]
  }

  /**
   * The worker's outcome: the failure that ends the run, or the latency it adds
   * to its slot. `reqstr` is the message, `chunks` what the `recv` calls return,
   * `stale` the receive buffer's contents before the loop, and `start`/`end` the
   * readings of `gettimeofday` around the round trip.
   */
  function Cycle(reqstr: seq<Byte>, setup: Setup, chunks: seq<seq<Byte>>, stale: seq<Byte>,
                 start: Timeval, end: Timeval): (r: Result<int>)
    requires 0 in reqstr && |stale| == MaxMsgLen && Strlen(reqstr) <= MaxMsgLen
    requires setup == Connected ==> FitsBuffer(chunks, Strlen(reqstr), MaxMsgLen)
    ensures setup == WaitError ==> r == Err(CondWaitFailed)
    ensures setup == SocketError ==> r == Err(SocketFailed)
    ensures setup == ConnectError ==> r == Err(ConnectFailed)
    ensures setup == Connected ==>
      (r.Ok? <==> AfterRecv(stale, chunks, Strlen(reqstr))[..Strlen(reqstr)] == reqstr[..Strlen(reqstr)])
    ensures setup == Connected && r.Err? ==> r.error == ValidationFailed
    ensures r.Ok? ==> r.value == Micros(end) - Micros(start)
  {
    match setup
    case WaitError => Err(CondWaitFailed)
    case SocketError => Err(SocketFailed)
    case ConnectError => Err(ConnectFailed)
    case Connected =>
      if Validate(reqstr, AfterRecv(stale, chunks, Strlen(reqstr))) then Ok(TimeDiffUs(start, end))
      else Err(ValidationFailed)
  }

  /**
   * If the peer sends at least `reqlen` bytes in non-empty pieces, the loop
   * accumulates at least `reqlen` bytes, and those are a prefix of what was sent.
   */
  lemma FullReceive(chunks: seq<seq<Byte>>, reqlen: int)
    requires forall j :: 0 <= j < |chunks| ==> |chunks[j]| > 0
    requires |Flatten(chunks)| >= reqlen
    ensures |Received(chunks, reqlen)| >= reqlen
    ensures Received(chunks, reqlen) <= Flatten(chunks)
  {
    ReceiveExit(chunks, reqlen);
    var e := RecvOutcome(chunks, reqlen);
    FlattenPrefix(chunks, e.taken, |chunks|);
    assert chunks[..|chunks|] == chunks;
  }

  /** A server that echoes the message (possibly split, possibly with more after it) passes validation. */
  lemma EchoPasses(reqstr: seq<Byte>, chunks: seq<seq<Byte>>, stale: seq<Byte>, start: Timeval, end: Timeval)
    requires 0 in reqstr && |stale| == MaxMsgLen && Strlen(reqstr) <= MaxMsgLen
    requires FitsBuffer(chunks, Strlen(reqstr), MaxMsgLen)
    requires forall j :: 0 <= j < |chunks| ==> |chunks[j]| > 0
    requires reqstr[..Strlen(reqstr)] <= Flatten(chunks)
    ensures Cycle(reqstr, Connected, chunks, stale, start, end) == Ok(TimeDiffUs(start, end))
  {
    var q := Strlen(reqstr);
    FullReceive(chunks, q);
    var got := Received(chunks, q);
    assert AfterRecv(stale, chunks, q)[..q] == got[..q];
  }

  /** A server that echoes some byte of the message wrongly makes the run abort. */
  lemma CorruptEchoFails(reqstr: seq<Byte>, chunks: seq<seq<Byte>>, stale: seq<Byte>,
                         start: Timeval, end: Timeval, j: nat)
    requires 0 in reqstr && |stale| == MaxMsgLen && Strlen(reqstr) <= MaxMsgLen
    requires FitsBuffer(chunks, Strlen(reqstr), MaxMsgLen)
    requires forall k :: 0 <= k < |chunks| ==> |chunks[k]| > 0
    requires j < Strlen(reqstr) <= |Flatten(chunks)| && Flatten(chunks)[j] != reqstr[j]
    ensures Cycle(reqstr, Connected, chunks, stale, start, end) == Err(ValidationFailed)
  {
    var q := Strlen(reqstr);
    FullReceive(chunks, q);
    var got := Received(chunks, q);
    assert AfterRecv(stale, chunks, q)[j] == got[j] == Flatten(chunks)[j];
  }

  /**
   * When the peer closes before sending anything, the check compares the
   * message with what the receive buffer held before: the run goes on exactly
   * when those stale bytes happen to equal the message.
   */
  lemma EarlyCloseComparesStale(reqstr: seq<Byte>, stale: seq<Byte>, start: Timeval, end: Timeval)
    requires 0 in reqstr && |stale| == MaxMsgLen && Strlen(reqstr) <= MaxMsgLen
    ensures FitsBuffer([], Strlen(reqstr), MaxMsgLen)
    ensures Cycle(reqstr, Connected, [], stale, start, end).Ok?
        <==> stale[..Strlen(reqstr)] == reqstr[..Strlen(reqstr)]
  {
  }

  /**
   * The worker after the rendezvous: socket set-up, the round trip into the
   * stack buffer `recstr`, and the validation.
   */
  method WorkerBody(reqstr: seq<Byte>, setup: Setup, chunks: seq<seq<Byte>>, recstr: array<Byte>,
                    start: Timeval, end: Timeval) returns (r: Result<int>)
    requires 0 in reqstr && recstr.Length == MaxMsgLen && Strlen(reqstr) <= MaxMsgLen
    requires setup == Connected ==> FitsBuffer(chunks, Strlen(reqstr), MaxMsgLen)
    modifies recstr
    ensures r == Cycle(reqstr, setup, chunks, old(recstr[..]), start, end)
    ensures setup == Connected ==> recstr[..] == AfterRecv(old(recstr[..]), chunks, Strlen(reqstr))
    ensures setup != Connected ==> unchanged(recstr)
  {
    match setup {
      case WaitError => return Err(CondWaitFailed);
      case SocketError => return Err(SocketFailed);
      case ConnectError => return Err(ConnectFailed);
      case Connected =>
    }
    var reqlen := Strlen(reqstr);
    var recvlen, taken, closed := ReceiveLoop(recstr, chunks, reqlen);
    if !Validate(reqstr, recstr[..]) {
      return Err(ValidationFailed);
    }
    r := Ok(TimeDiffUs(start, end));
  }

  /** The rendezvous counter `ready`, guarded by `worker_lock`. */
  class Barrier {
    var ready: int

    constructor ()
      ensures ready == 0
    {
      ready := 0;
    }

    /** The waiting loop `while (ready < MAX_THREAD)` no longer blocks. */
    predicate Released()
      reads this
    {
      ready >= MaxThread
    }

    /** A worker arrives: `ready += 1`, and the arrival that makes `ready` reach `MAX_THREAD` broadcasts. */
    method Arrive() returns (broadcast: bool)
      modifies this
      ensures ready == old(ready) + 1
      ensures broadcast <==> ready == MaxThread
    {
      ready := ready + 1;
      broadcast := ready == MaxThread;
    }
  }
}
