# Timer state machine

A model of the transaction timer of the New Relic Node.js agent
(`lib/timer.js`). The timer is a stopwatch with an explicit ordinal state:
PENDING (1), RUNNING (2), STOPPED (3) and DEAD (4). `begin` starts it, `end`
stops it and records the high-resolution `[seconds, nanoseconds]` delta
since the start, `setDurationInMillis` stops it with a duration given by hand,
`isActive` says whether it is still pending or running, and
`getDurationInMillis` converts the recorded delta to milliseconds the first
time the cached duration is zero and keeps the result.

The project has three modules:

- `Clock` (`clock.dfy`): the `[seconds, nanoseconds]` pairs. `Elapsed` is the
  delta the runtime clock reports for an earlier sample, with its borrow
  arithmetic. `Millis` is the conversion to milliseconds, done in `real`.
- `TimerSpec` (`timer_spec.dfy`): the timer's fields as a value (`Snapshot`)
  and one function per operation. `Step` applies one call and `Run` a
  sequence of calls. Lemmas cover single calls, whole lifetimes and the usage
  scenarios.
- `Timers` (`timer.dfy`): the class `Timer`. Its four fields are updated in
  place under the same guards as the source. Each method's contract ties the
  new fields to the matching `TimerSpec` function of the old fields. Two
  client methods show what a caller can prove from those contracts alone.

The clock is never read. The caller passes a clock sample to `begin` and to
`end`. `end` computes the delta from the recorded start the way the runtime
does.

Where the source would crash by reading a field that was never set, the model
returns an explicit error and changes nothing, just as a thrown exception
would leave the object. There are two such paths:

- `end` on a timer that was never begun has no start sample (`StartUnset`).
- `getDurationInMillis` with a zero duration and no recorded delta (`DurationUnset`).

The source treats a duration of zero as "not computed yet", and the model
keeps that quirk. A measured duration of exactly zero is recomputed on every
read. An override of zero on a timer that was never ended cannot be read
back.

The header comment of the source (lib/timer.js:9-10) says that a STOPPED
timer has its start time and its stop time set. The code does not guarantee
this, and the model follows the code:

- `setDurationInMillis` stops a pending timer directly, so it has no start
  sample.
- An override from PENDING or RUNNING never records the measured delta
  (`hrDuration`, the stop time), so that field stays unset.

The invariant `TimerSpec.Consistent` therefore says only that a pending timer
has no start and a running one has one. It also says that a measured delta
implies a recorded start, and that the duration is then either not computed
yet or computed from that delta.

## Model

| member | source | states |
|---|---|---|
| Clock.Elapsed | lib/timer.js:41 | The `[seconds, nanoseconds]` delta from the start sample to the end sample denotes exactly the difference of the two instants. Its seconds are non-negative exactly when the end sample is not earlier than the start. |
| Clock.Millis | lib/timer.js:61-63 | Seconds times 1000 plus nanoseconds divided by 1000 twice equals the span in nanoseconds divided by one million. It is non-negative exactly for a non-negative delta, and zero only for `[0, 0]`. |
| TimerSpec.Fresh | lib/timer.js:25-29 | A new timer is PENDING, has duration 0, has no start and no measured delta, and is active. |
| TimerSpec.Begin | lib/timer.js:31-36 | Above PENDING, begin is a no-op. From PENDING it records the sample as the start and moves to RUNNING, changing nothing else. The state never decreases. |
| TimerSpec.End | lib/timer.js:38-43 | Above RUNNING, end is a no-op. From PENDING or RUNNING with a start, it records the delta from the start and moves to STOPPED. It fails exactly when the guard passes but no start was recorded. |
| TimerSpec.IsActive | lib/timer.js:45-50 | The timer is active exactly when it is PENDING or RUNNING. |
| TimerSpec.SetDurationInMillis | lib/timer.js:52-57 | Above RUNNING, setDurationInMillis is a no-op. Otherwise the duration becomes the argument and the state becomes STOPPED. The start and the measured delta are never touched. |
| TimerSpec.GetDurationInMillis | lib/timer.js:59-67 | A non-zero duration is returned unchanged and nothing changes. A zero duration becomes the measured delta in milliseconds, and only that field changes. The read fails exactly when the duration is zero and no delta was measured. |
| TimerSpec.StepPreserves | lib/timer.js:15-57 | No call moves the state backward, and every call keeps the reachable-state invariant. |
| TimerSpec.StepKeepsStopped | lib/timer.js:38-66 | On a stopped timer, no call changes the state, the start or the measured delta, nor the value a read returns. |
| TimerSpec.ReadTwiceAgrees | lib/timer.js:59-67 | For every snapshot, a read after a read returns what the first returned, a failing read included, since a failing read changes nothing. After a successful read, the next read changes nothing, even when the result is zero and is recomputed from the same delta. |
| TimerSpec.RunPreserves | lib/timer.js:15-67 | Over any sequence of calls the state never decreases and the invariant holds. |
| TimerSpec.NeverDead | lib/timer.js:15-18 | No sequence of calls on a new timer reaches DEAD. Only PENDING, RUNNING and STOPPED are reachable. |
| TimerSpec.StoppedIsFinal | lib/timer.js:38-66 | Once stopped, no later calls change the state, the start or the measured delta, nor the value a read returns. A second end measures nothing, and a late override is ignored. |
| TimerSpec.MeasuredReadsDelta | lib/timer.js:38-66 | After any sequence of calls on a new timer, if a delta was measured, the duration reads as that delta in milliseconds, whatever else was called. |
| TimerSpec.DurationComputedOnce | lib/timer.js:59-66 | Once the duration is non-zero, no later calls change it. |
| TimerSpec.MeasuredLifecycle | lib/timer.js:31-66 | After begin then end on a new timer, it is active after begin and inactive after end. The duration reads as the time between the two samples, and it is non-negative for a clock that does not run backward. |
| TimerSpec.ManualOverride | lib/timer.js:52-66 | A non-zero override on a new timer stops it, and the same value reads back. |
| TimerSpec.OverrideAfterEndIgnored | lib/timer.js:38-57 | An override after end is a no-op, so the measured value is what reads back. |
| TimerSpec.ZeroOverrideCannotBeRead | lib/timer.js:52-63 | Overriding with zero a timer that was never ended, whether pending or running, leaves nothing to compute from, so the next read fails. |
| TimerSpec.EndBeforeBeginFails | lib/timer.js:38-43 | end on a new timer passes the guard but has no start to measure from, so it fails. |
| Timers.Timer.constructor | lib/timer.js:25-29 | The new object's fields are the fresh snapshot, and the invariant holds. |
| Timers.Timer.Begin | lib/timer.js:31-36 | The new fields are `TimerSpec.Begin` of the old ones. Above PENDING nothing changes. The invariant is kept. |
| Timers.Timer.End | lib/timer.js:38-43 | The new fields are `TimerSpec.End` of the old ones. On failure it reports `StartUnset` and nothing changes. The invariant is kept. |
| Timers.Timer.IsActive | lib/timer.js:48-50 | A function that only reads the object, so it changes no field. It agrees with `TimerSpec.IsActive`: true exactly while PENDING or RUNNING. |
| Timers.Timer.SetDurationInMillis | lib/timer.js:52-57 | The new fields are `TimerSpec.SetDurationInMillis` of the old ones. The start and the delta never change. The invariant is kept. |
| Timers.Timer.GetDurationInMillis | lib/timer.js:59-67 | It returns the value `TimerSpec.GetDurationInMillis` gives for the old fields, and the new fields are that function's result. When it fails or hits a non-zero cache, nothing changes. |
| Timers.MeasureBetween | lib/timer.js:31-67 | After begin and end on an object, two reads agree. Both give the time between the two samples, which is non-negative for a clock that does not run backward. |
| Timers.OverrideThenEnd | lib/timer.js:38-67 | After a non-zero override on a new object, a later end changes nothing, and the override reads back. |

## Left out

- The runtime clock `process.hrtime()` (lib/timer.js:34, 41) is not modelled. Its samples are parameters of `begin` and `end`. The delta arithmetic is modelled in `Clock.Elapsed`.
- `end` before `begin` passes `undefined` to the clock. Older runtimes throw a TypeError there, and newer ones return an absolute reading. The model takes the throwing behaviour: it returns `StartUnset` and changes nothing.
- The model does not reproduce JavaScript's TypeError objects. Reading a field that was never set becomes an explicit error result instead.
- IEEE double arithmetic in the millisecond conversion (lib/timer.js:62-63) is not modelled. The conversion is exact in `real`, so rounding of large or fine-grained durations is not captured.
- Falsy values other than zero are not modelled. Durations are `real`, so `NaN`, `undefined` and non-number arguments to `setDurationInMillis` cannot arise.
- The `finish` field (lib/timer.js:27) is not modelled. It is set once by the constructor and never read.
- The DEAD state is declared but, as in the source, no operation enters it. Any collaborator that might use it is not part of this model.
- Concurrency is not modelled. The timer is single-threaded, and each method runs to completion.
