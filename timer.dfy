/**
 The timer object: a stopwatch that tracks its own state and whose duration
 can also be set by hand. Its methods update its fields in place under the
 state guards; each is proved to do exactly what the matching function of
 module TimerSpec does to a snapshot of those fields, so every property
 proved there about lifetimes of calls holds of the object too.
 */
module Timers {
  import opened Clock
  import opened TimerSpec

  class Timer {
    var state: StateCode
    var start: Option<HrTime>
    var hrDuration: Option<HrTime>
    var durationInMillis: real

    /** The fields as a value. */
    function Snap(): Snapshot
      reads this
    {
      Snapshot(state, start, hrDuration, durationInMillis)
    }

    /** The object invariant: the fields form a snapshot some lifetime reaches. */
    ghost predicate Valid()
      reads this
    {
      Consistent(Snap())
    }

    /** A new timer is pending, has nothing recorded and a duration of zero. */
    constructor ()
      ensures Valid()
      ensures Snap() == Fresh()
    {
      state := PENDING;
      start := None;
      hrDuration := None;
      durationInMillis := 0.0;
    }

    /** Starts the timer at clock sample `now`, unless it was started or stopped before. */
    method Begin(now: HrTime)
      requires Valid()
      modifies this
      ensures Valid()
      ensures Snap() == TimerSpec.Begin(old(Snap()), now)
      ensures old(state) > PENDING ==> unchanged(this)
    {
      if state > PENDING {
        return;
      }
      start := Some(now);
      state := RUNNING;
    }

    /**
     Stops the timer at clock sample `now` and records the delta from its start,
     unless it was stopped before. Fails, changing nothing, when there is no
     start to measure from.
     */
    method End(now: HrTime) returns (r: Result<()>)
      requires Valid()
      modifies this
      ensures Valid()
      ensures r.Err? <==> TimerSpec.End(old(Snap()), now).Err?
      ensures r.Err? ==> r.error == StartUnset && unchanged(this)
      ensures r.Ok? ==> TimerSpec.End(old(Snap()), now) == Ok(Snap())
    {
      if state > RUNNING {
        return Ok(());
      }
      match start {
        case None =>
          return Err(StartUnset);
        case Some(s) =>
          hrDuration := Some(Elapsed(now, s));
          state := STOPPED;
          return Ok(());
      }
    }

    /** Whether the timer is still alive. */
    function IsActive(): (active: bool)
      reads this
      ensures active == TimerSpec.IsActive(Snap())
    {
      state < STOPPED
    }

    /** Stops the timer with duration `duration` instead of a measurement, unless it was stopped before. */
    method SetDurationInMillis(duration: real)
      requires Valid()
      modifies this
      ensures Valid()
      ensures Snap() == TimerSpec.SetDurationInMillis(old(Snap()), duration)
      ensures start == old(start) && hrDuration == old(hrDuration)
    {
      if state > RUNNING {
        return;
      }
      durationInMillis := duration;
      state := STOPPED;
    }

    /**
     The duration in milliseconds. A zero duration is taken as not computed
     yet and is computed from the measured delta and kept; with no delta to
     compute from, the read fails and changes nothing.
     */
    method GetDurationInMillis() returns (r: Result<real>)
      requires Valid()
      modifies this
      ensures Valid()
      ensures r == ReadDuration(old(Snap()))
      ensures r.Ok? ==> TimerSpec.GetDurationInMillis(old(Snap())) == Ok(Snap())
      ensures r.Err? ==> unchanged(this)
      ensures old(durationInMillis) != 0.0 ==> unchanged(this)
    {
      if durationInMillis == 0.0 {
        match hrDuration {
          case None =>
            return Err(DurationUnset);
          case Some(h) =>
            durationInMillis := Millis(h);
        }
      }
      return Ok(durationInMillis);
    }
  }

  /**
   A caller's view: begin, end, then two reads. The timer is active only
   between begin and end, both reads agree, and they give the time between
   the two clock samples.
   */
  method MeasureBetween(started: HrTime, stopped: HrTime) returns (first: Result<real>, second: Result<real>)
    ensures first == second
    ensures first == Ok(Millis(Elapsed(stopped, started)))
    ensures NotBefore(stopped, started) ==> first.value >= 0.0
  {
    var t := new Timer();
    assert t.IsActive();
    t.Begin(started);
    assert t.IsActive();
    var ended := t.End(stopped);
    assert ended.Ok? && !t.IsActive();
    first := t.GetDurationInMillis();
    second := t.GetDurationInMillis();
  }

  /**
   A caller's view of the override: set on a new timer, a non-zero duration
   stops it and reads back as set; a later end() changes nothing.
   */
  method OverrideThenEnd(duration: real, later: HrTime) returns (read: Result<real>)
    requires duration != 0.0
    ensures read == Ok(duration)
  {
    var t := new Timer();
    t.SetDurationInMillis(duration);
    assert !t.IsActive();
    var ended := t.End(later);
    read := t.GetDurationInMillis();
  }
}
