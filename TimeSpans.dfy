/** The part of `System.TimeSpan` that the time extensions rely on: a
    duration held as a signed 64-bit count of 100-nanosecond ticks, and the
    factory functions that build one from a whole, non-negative number of
    some larger unit. */
module TimeSpans {
  import opened Common

  const TicksPerMillisecond: int := 10_000
  const TicksPerSecond: int := 1000 * TicksPerMillisecond
  const TicksPerMinute: int := 60 * TicksPerSecond
  const TicksPerHour: int := 60 * TicksPerMinute
  const TicksPerDay: int := 24 * TicksPerHour

  datatype TimeSpan = TimeSpan(ticks: Int64)

  /** A span is exactly `value` of a unit when its ticks are `value` whole
      units: its `Total…` property for that unit is `value`. */
  predicate IsWhole(t: TimeSpan, unit: int, value: int)
    requires unit > 0
  {
    t.ticks / unit == value && t.ticks % unit == 0
  }

  /** `TimeSpan.FromTicks`: never fails. */
  function FromTicks(value: Int64): (r: TimeSpan)
    ensures IsWhole(r, 1, value)
  {
    TimeSpan(value)
  }

  /** `TimeSpan.FromMilliseconds`, `FromSeconds`, … on a whole, non-negative
      count: the span is `value` units long, and the runtime throws
      `OverflowException` exactly when that many ticks do not fit a long. */
  function FromUnits(value: nat, unit: int): (r: Result<TimeSpan>)
    requires unit > 0
    ensures r.Success? <==> value * unit <= MaxInt64
    ensures r.Failure? ==> r.error == Overflow
    ensures r.Success? ==> IsWhole(r.value, unit, value)
  {
    if value * unit <= MaxInt64 then
      assert (value * unit) / unit == value && (value * unit) % unit == 0 by {
        DivModUnique(value * unit, unit, value, 0);
      }
      Success(TimeSpan(value * unit))
    else
      Failure(Overflow)
  }

  function FromMilliseconds(value: nat): (r: Result<TimeSpan>)
    ensures r.Success? <==> value <= MaxInt64 / TicksPerMillisecond
    ensures r.Success? ==> IsWhole(r.value, TicksPerMillisecond, value)
    ensures r.Failure? ==> r.error == Overflow
  {
    FromUnits(value, TicksPerMillisecond)
  }

  function FromSeconds(value: nat): (r: Result<TimeSpan>)
    ensures r.Success? <==> value <= MaxInt64 / TicksPerSecond
    ensures r.Success? ==> IsWhole(r.value, TicksPerSecond, value)
    ensures r.Failure? ==> r.error == Overflow
  {
    FromUnits(value, TicksPerSecond)
  }

  function FromMinutes(value: nat): (r: Result<TimeSpan>)
    ensures r.Success? <==> value <= MaxInt64 / TicksPerMinute
    ensures r.Success? ==> IsWhole(r.value, TicksPerMinute, value)
    ensures r.Failure? ==> r.error == Overflow
  {
    FromUnits(value, TicksPerMinute)
  }

  function FromHours(value: nat): (r: Result<TimeSpan>)
    ensures r.Success? <==> value <= MaxInt64 / TicksPerHour
    ensures r.Success? ==> IsWhole(r.value, TicksPerHour, value)
    ensures r.Failure? ==> r.error == Overflow
  {
    FromUnits(value, TicksPerHour)
  }

  function FromDays(value: nat): (r: Result<TimeSpan>)
    ensures r.Success? <==> value <= MaxInt64 / TicksPerDay
    ensures r.Success? ==> IsWhole(r.value, TicksPerDay, value)
    ensures r.Failure? ==> r.error == Overflow
  {
    FromUnits(value, TicksPerDay)
  }
}
