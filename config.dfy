/** Compile-time parameters of the benchmark and the types shared by every module. */
module Config {

  /** Size of the receive buffer; generated messages are shorter than this (`MAX_MSG_LEN`). */
  const MaxMsgLen: nat := 32
  /** Lower bound of the generated message length (`MIN_MSG_LEN`). */
  const MinMsgLen: nat := 16
  /** Number of workers in every round, and of result slots (`MAX_THREAD`). */
  const MaxThread: nat := 1000
  /** Number of rounds, and the divisor of the final averaging (`BENCH_COUNT`). */
  const BenchCount: nat := 50

  /** One byte of a C `char` buffer. */
  type Byte = b: int | 0 <= b < 256

  /** The modelled conditions on which the benchmark calls `exit(-1)`. */
  datatype Failure =
    | CondWaitFailed    // `pthread_cond_wait` returned an error at the rendezvous
    | SocketFailed      // `socket` returned -1
    | ConnectFailed     // `connect` returned -1
    | ValidationFailed  // the echoed bytes differ from the sent ones

  /** A value, or the failure that aborts the whole run. */
  datatype Result<T> = Ok(value: T) | Err(error: Failure)
}
