/**
 The high-resolution clock values a timer works with.

 The runtime clock answers with a pair `[seconds, nanoseconds]`: called
 without an argument it gives a point-in-time sample, called with an earlier
 sample it gives the delta from that sample to now. Reading the clock is not
 modelled; its samples are passed in by the caller, and the delta is computed
 from two samples with the runtime's own borrow arithmetic.
 */
module Clock {

  const NANOS_PER_SECOND: int := 1_000_000_000

  /** The sub-second part of a pair is always a whole number of nanoseconds below one second. */
  type Nanos = n: int | 0 <= n < NANOS_PER_SECOND

  /** A `[seconds, nanoseconds]` pair, either a sample or a delta between two samples. */
  datatype HrTime = HrTime(secs: int, nanos: Nanos)

  /** The instant or span a pair denotes, in nanoseconds. */
  function ToNanos(h: HrTime): int {
    h.secs * NANOS_PER_SECOND + h.nanos
  }

  /** `now` is the same instant as `since` or a later one. */
  predicate NotBefore(now: HrTime, since: HrTime) {
    ToNanos(since) <= ToNanos(now)
  }

  /**
   The delta from `since` to `now`, as the runtime computes it: subtract
   component-wise and borrow one second when the nanoseconds go negative.
   The pair it gives denotes exactly the difference of the two instants, and
   a clock that never runs backward gives a non-negative delta.
   */
  function Elapsed(now: HrTime, since: HrTime): (d: HrTime)
    ensures ToNanos(d) == ToNanos(now) - ToNanos(since)
    ensures d.secs >= 0 <==> NotBefore(now, since)
  {
    var secs := now.secs - since.secs;
    var nanos := now.nanos - since.nanos;
    if nanos < 0 then HrTime(secs - 1, nanos + NANOS_PER_SECOND) else HrTime(secs, nanos)
  }

  /**
   The pair converted to milliseconds: seconds times a thousand plus the
   nanoseconds divided by a thousand twice. Done in `real`, the conversion is
   exact: the result is the span in nanoseconds divided by one million.
   */
  function Millis(h: HrTime): (ms: real)
    ensures ms == ToNanos(h) as real / 1_000_000.0
    ensures ms >= 0.0 <==> h.secs >= 0
    ensures ms == 0.0 <==> h == HrTime(0, 0)
  {
    h.secs as real * 1000.0 + h.nanos as real / 1000.0 / 1000.0
  }
}
