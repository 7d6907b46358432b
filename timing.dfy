/** `time_diff_us`: the elapsed time between two `struct timeval` readings. */
module Timing {

  /** A `struct timeval`: whole seconds and microseconds. */
  datatype Timeval = Timeval(sec: int, usec: int)

  /** The form `gettimeofday` produces: microseconds in `[0, 10^6)`. */
  predicate Normalized(t: Timeval)
  {
    0 <= t.usec < 1000000
  }

  /** The instant `t` on a single microsecond scale. */
  function Micros(t: Timeval): int
  {
    t.sec * 1000000 + t.usec
  }

  /** `b` is not earlier than `a`, comparing seconds first. */
  predicate NotBefore(b: Timeval, a: Timeval)
  {
    a.sec < b.sec || (a.sec == b.sec && a.usec <= b.usec)
  }

  /** `time_diff_us(start, end)`: the microseconds from `start` to `end`. */
  function TimeDiffUs(start: Timeval, end: Timeval): (d: int)
    ensures d == Micros(end) - Micros(start)
  {
    (end.sec - start.sec) * 1000000 + (end.usec - start.usec)
  }

  /** On normalized readings the difference is non-negative exactly when `end` is not earlier. */
  lemma TimeDiffSign(start: Timeval, end: Timeval)
    requires Normalized(start) && Normalized(end)
    ensures TimeDiffUs(start, end) >= 0 <==> NotBefore(end, start)
  {
  }

  /** On normalized readings the difference is zero exactly when the readings coincide. */
  lemma TimeDiffZero(start: Timeval, end: Timeval)
    requires Normalized(start) && Normalized(end)
    ensures TimeDiffUs(start, end) == 0 <==> start == end
  {
  }
}
