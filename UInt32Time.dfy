/** Time extensions on `uint` (Time/UInt32Extensions.cs). */
module UInt32Time {
  import opened Common
  import opened TimeSpans
  import Calendar

  /** `uint.IsLeapYear`: year 0 is refused; otherwise the Gregorian rule. */
  function IsLeapYear(value: UInt32): (r: Result<bool>)
    ensures value == 0 <==> r.Failure?
    ensures r.Failure? ==> r.error == ArgumentOutOfRange
    ensures r.Success? ==> (r.value <==> value % 4 == 0 && (value % 100 != 0 || value % 400 == 0))
  {
    if value == 0 then Failure(ArgumentOutOfRange)
    else Success(value % 4 == 0 && (value % 100 != 0 || value % 400 == 0))
  }

  /** A year that `IsLeapYear` calls a leap year is exactly the one whose
      calendar year is 366 days long. */
  lemma LeapYearHas366Days(value: UInt32)
    requires value > 0
    ensures IsLeapYear(value).Success?
    ensures IsLeapYear(value).value <==>
      Calendar.DaysBeforeYear(value + 1) - Calendar.DaysBeforeYear(value) == 366
    ensures !IsLeapYear(value).value <==>
      Calendar.DaysBeforeYear(value + 1) - Calendar.DaysBeforeYear(value) == 365
  {
    Calendar.YearLength(value);
  }

  function Ticks(value: UInt32): (r: TimeSpan)
    ensures IsWhole(r, 1, value)
  {
    FromTicks(value)
  }

  /** A uint count of milliseconds, seconds or minutes always fits. */
  function Milliseconds(value: UInt32): (r: TimeSpan)
    ensures IsWhole(r, TicksPerMillisecond, value)
  {
    FromMilliseconds(value).value
  }

  function Seconds(value: UInt32): (r: TimeSpan)
    ensures IsWhole(r, TicksPerSecond, value)
  {
    FromSeconds(value).value
  }

  function Minutes(value: UInt32): (r: TimeSpan)
    ensures IsWhole(r, TicksPerMinute, value)
  {
    FromMinutes(value).value
  }

  /** Hours overflow a TimeSpan from 256204779 on. */
  function Hours(value: UInt32): (r: Result<TimeSpan>)
    ensures r.Success? <==> value <= 256_204_778
    ensures r.Success? ==> IsWhole(r.value, TicksPerHour, value)
    ensures r.Failure? ==> r.error == Overflow
  {
    FromHours(value)
  }

  /** Days overflow a TimeSpan from 10675200 on. */
  function Days(value: UInt32): (r: Result<TimeSpan>)
    ensures r.Success? <==> value <= 10_675_199
    ensures r.Success? ==> IsWhole(r.value, TicksPerDay, value)
    ensures r.Failure? ==> r.error == Overflow
  {
    FromDays(value)
  }

  /** `uint.Weeks` as written: `value * 7` is computed in unchecked uint
      arithmetic before it reaches `FromDays`, so it wraps modulo 2^32. */
  function Weeks(value: UInt32): (r: Result<TimeSpan>)
    ensures value * 7 < TwoTo32 ==> (r.Success? <==> value <= 1_525_028)
    ensures r.Success? ==> IsWhole(r.value, TicksPerDay, WrapUInt32(value * 7))
    ensures r.Success? && value * 7 >= TwoTo32 ==> !IsWhole(r.value, TicksPerDay, value * 7)
  {
    FromDays(WrapUInt32(value * 7))
  }

  /** `uint.Weeks` with the product taken in long arithmetic: the span is
      always `7 × value` days, and it overflows exactly when that does not fit. */
  function WeeksCorrected(value: UInt32): (r: Result<TimeSpan>)
    ensures r.Success? <==> value <= 1_525_028
    ensures r.Success? ==> IsWhole(r.value, TicksPerDay, value * 7)
    ensures r.Failure? ==> r.error == Overflow
  {
    FromDays(value * 7)
  }

  /** `Weeks` is `Days` of the product wrapped to 32 bits. */
  lemma WeeksAreWrappedDays(value: UInt32)
    ensures Weeks(value) == Days(WrapUInt32(value * 7))
  {
  }

  /** The two agree on every value whose product does not wrap, and
      `Weeks` is `Days` of seven times the value. */
  lemma WeeksAgreeWithoutWrap(value: UInt32)
    requires value * 7 < TwoTo32
    ensures Weeks(value) == WeeksCorrected(value) == Days(value * 7)
  {
  }

  /** 613566757 weeks: the product 4294967299 wraps to 3, so `Weeks`
      returns three days where the intended result is an overflow. */
  lemma WeeksWrapExample()
    ensures Weeks(613_566_757) == Success(TimeSpan(3 * TicksPerDay))
    ensures WeeksCorrected(613_566_757) == Failure(Overflow)
  {
    assert WrapUInt32(613_566_757 * 7) == 3;
  }

  /** Each unit is the next smaller one scaled by its factor. */
  lemma UnitsNest(value: UInt32)
    ensures Milliseconds(value).ticks == TicksPerMillisecond * Ticks(value).ticks
    ensures Seconds(value).ticks == 1000 * Milliseconds(value).ticks
    ensures Minutes(value).ticks == 60 * Seconds(value).ticks
    ensures Hours(value).Success? ==> Hours(value).value.ticks == 60 * Minutes(value).ticks
    ensures Days(value).Success? ==> Hours(value).Success? && Days(value).value.ticks == 24 * Hours(value).value.ticks
  {
  }
}
