/** Date arithmetic on `DateTime` (DateTimeExtensions.cs). A `DateTime` is a
    proleptic-Gregorian calendar date, a time of day in ticks and a kind.
    `AddDays` moves the date one calendar day at a time and fails outside
    the years 1 to 9999, as `DateTime.AddDays` throws there. */
module Calendar {
  import opened Common

  const TicksPerHour: nat := 36_000_000_000
  const TicksPerDay: nat := 24 * TicksPerHour

  /** `DayOfWeek` values: Sunday is 0, Saturday is 6. A C# enum variable can
      hold any `int`, so days of the week are `int`s here. */
  const Sunday: int := 0
  const Monday: int := 1
  const Saturday: int := 6

  /** `DateTimeKind`. */
  datatype Kind = Unspecified | Utc | Local

  datatype Date = Date(year: int, month: int, day: int)

  /** A `DateTime`: its date, the ticks since midnight, and its kind. */
  datatype DateTime = DateTime(date: Date, timeOfDay: nat, kind: Kind)

  /** The Gregorian leap-year rule. */
  predicate IsLeapYear(year: int)
  {
    year % 4 == 0 && (year % 100 != 0 || year % 400 == 0)
  }

  /** `DateTime.DaysInMonth`. */
  function DaysInMonth(year: int, month: int): (n: int)
    requires 1 <= month <= 12
    ensures 28 <= n <= 31
  {
    if month == 2 then (if IsLeapYear(year) then 29 else 28)
    else if month == 4 || month == 6 || month == 9 || month == 11 then 30
    else 31
  }

  /** A well-formed date of any year. */
  predicate Proper(d: Date)
  {
    1 <= d.month <= 12 && 1 <= d.day <= DaysInMonth(d.year, d.month)
  }

  /** A date `DateTime` can represent. */
  predicate ValidDate(d: Date)
  {
    Proper(d) && 1 <= d.year <= 9999
  }

  predicate Valid(dt: DateTime)
  {
    ValidDate(dt.date) && dt.timeOfDay < TicksPerDay
  }

  /** Days from 0001-01-01 to January 1 of `year`. */
  function DaysBeforeYear(year: int): int
  {
    var y := year - 1;
    365 * y + y / 4 - y / 100 + y / 400
  }

  /** Days from January 1 to the first of `month`. */
  function DaysBeforeMonth(year: int, month: int): int
    requires 1 <= month <= 12
  {
    var common :=
      if month == 1 then 0 else if month == 2 then 31 else if month == 3 then 59
      else if month == 4 then 90 else if month == 5 then 120 else if month == 6 then 151
      else if month == 7 then 181 else if month == 8 then 212 else if month == 9 then 243
      else if month == 10 then 273 else if month == 11 then 304 else 334;
    common + (if month > 2 && IsLeapYear(year) then 1 else 0)
  }

  /** Days since 0001-01-01, which is day 0. */
  function DayNumber(d: Date): int
    requires Proper(d)
  {
    DaysBeforeYear(d.year) + DaysBeforeMonth(d.year, d.month) + d.day - 1
  }

  /** `DateTime.DayOfWeek`: 0001-01-01 was a Monday. */
  function DayOfWeek(d: Date): (w: int)
    requires Proper(d)
    ensures 0 <= w < 7
  {
    (DayNumber(d) + 1) % 7
  }

  /** The day number of 9999-12-31, the last day `DateTime` can hold. */
  const MaxDayNumber: int := 3652058

  lemma DivStep(y: int, k: int)
    requires k > 0
    ensures y / k - (y - 1) / k == if y % k == 0 then 1 else 0
  {
    var q, r := (y - 1) / k, (y - 1) % k;
    if r == k - 1 {
      DivModUnique(y, k, q + 1, 0);
    } else {
      DivModUnique(y, k, q, r + 1);
    }
  }

  lemma DivisibleChain(y: int)
    ensures y % 400 == 0 ==> y % 100 == 0
    ensures y % 100 == 0 ==> y % 4 == 0
  {
    if y % 400 == 0 {
      DivModUnique(y, 100, 4 * (y / 400), 0);
    }
    if y % 100 == 0 {
      DivModUnique(y, 4, 25 * (y / 100), 0);
    }
  }

  /** A year has 366 days exactly when it is a leap year. */
  lemma YearLength(year: int)
    ensures DaysBeforeYear(year + 1) - DaysBeforeYear(year) == if IsLeapYear(year) then 366 else 365
  {
    DivStep(year, 4);
    DivStep(year, 100);
    DivStep(year, 400);
    DivisibleChain(year);
  }

  /** The first of the next month follows the last day of a month. */
  lemma MonthStep(year: int, month: int)
    requires 1 <= month < 12
    ensures DaysBeforeMonth(year, month + 1) == DaysBeforeMonth(year, month) + DaysInMonth(year, month)
  {
  }

  /** December 31 is the last day of the year. */
  lemma DecemberEnds(year: int)
    ensures DaysBeforeYear(year) + DaysBeforeMonth(year, 12) + 31 == DaysBeforeYear(year + 1)
  {
    YearLength(year);
  }

  /** The day after `d`. */
  function NextDay(d: Date): (n: Date)
    requires Proper(d)
    ensures Proper(n) && DayNumber(n) == DayNumber(d) + 1
  {
    if d.day < DaysInMonth(d.year, d.month) then d.(day := d.day + 1)
    else if d.month < 12 then
      MonthStep(d.year, d.month);
      Date(d.year, d.month + 1, 1)
    else
      DecemberEnds(d.year);
      Date(d.year + 1, 1, 1)
  }

  /** The day before `d`. */
  function PrevDay(d: Date): (p: Date)
    requires Proper(d)
    ensures Proper(p) && DayNumber(p) == DayNumber(d) - 1
  {
    if d.day > 1 then d.(day := d.day - 1)
    else if d.month > 1 then
      MonthStep(d.year, d.month - 1);
      Date(d.year, d.month - 1, DaysInMonth(d.year, d.month - 1))
    else
      DecemberEnds(d.year - 1);
      Date(d.year - 1, 12, 31)
  }

  /** `d` moved by `n` days, one day at a time: every day number, in any
      year, belongs to some well-formed date. */
  function Shift(d: Date, n: int): (s: Date)
    requires Proper(d)
    ensures Proper(s) && DayNumber(s) == DayNumber(d) + n
    decreases if n < 0 then -n else n
  {
    if n == 0 then d
    else if n > 0 then Shift(NextDay(d), n - 1)
    else Shift(PrevDay(d), n + 1)
  }

  /** The day number tells the year: a well-formed date with a day number
      from 0 to `MaxDayNumber` lies in the years 1 to 9999, and back. */
  lemma DayNumberRange(d: Date)
    requires Proper(d)
    ensures ValidDate(d) <==> 0 <= DayNumber(d) <= MaxDayNumber
  {
    WithinYear(d);
  }

  /** A date's day number lies within its year. */
  lemma WithinYear(d: Date)
    requires Proper(d)
    ensures DaysBeforeYear(d.year) <= DayNumber(d) < DaysBeforeYear(d.year + 1)
  {
    YearLength(d.year);
    if d.month < 12 {
      DaysBeforeMonthStrict(d.year, d.month, 12);
    }
  }

  /** Distinct well-formed dates have distinct day numbers. */
  lemma DayNumberInjective(a: Date, b: Date)
    requires Proper(a) && Proper(b) && DayNumber(a) == DayNumber(b)
    ensures a == b
  {
    if a.year != b.year {
      YearsApart(a, b);
      YearsApart(b, a);
    } else if a.month < b.month {
      DaysBeforeMonthStrict(a.year, a.month, b.month);
    } else if b.month < a.month {
      DaysBeforeMonthStrict(a.year, b.month, a.month);
    }
  }

  /** `DayNumberInjective` for all pairs of dates at once. */
  lemma DayNumbersIdentify()
    ensures forall a: Date, b: Date :: Proper(a) && Proper(b) && DayNumber(a) == DayNumber(b) ==> a == b
  {
    forall a: Date, b: Date | Proper(a) && Proper(b) && DayNumber(a) == DayNumber(b)
      ensures a == b
    {
      DayNumberInjective(a, b);
    }
  }

  /** A date of an earlier year has a smaller day number. */
  lemma YearsApart(a: Date, b: Date)
    requires Proper(a) && Proper(b)
    ensures a.year < b.year ==> DayNumber(a) < DayNumber(b)
  {
    if a.year < b.year {
      WithinYear(a);
      WithinYear(b);
      DaysBeforeYearMonotone(a.year + 1, b.year);
    }
  }

  lemma DaysBeforeYearMonotone(y1: int, y2: int)
    requires y1 <= y2
    ensures DaysBeforeYear(y1) <= DaysBeforeYear(y2)
  {
  }

  /** Days before a later month cover the whole earlier month. */
  lemma DaysBeforeMonthStrict(year: int, m1: int, m2: int)
    requires 1 <= m1 < m2 <= 12
    ensures DaysBeforeMonth(year, m1) + DaysInMonth(year, m1) <= DaysBeforeMonth(year, m2)
  {
  }

  /** `DateTime.AddDays` with a whole number of days: the new date is the
      one whose day number is `days` more (`Shift` finds it, and it is the
      only one); the time of day and the kind stay; a result outside the
      representable range throws. */
  function AddDays(dt: DateTime, days: int): (r: Result<DateTime>)
    requires Valid(dt)
    ensures r.Failure? <==> !(0 <= DayNumber(dt.date) + days <= MaxDayNumber)
    ensures r.Failure? ==> r.error == ArgumentOutOfRange
    ensures r.Success? ==> Valid(r.value) && DayNumber(r.value.date) == DayNumber(dt.date) + days
    ensures r.Success? ==> r.value.timeOfDay == dt.timeOfDay && r.value.kind == dt.kind
  {
    if !(0 <= DayNumber(dt.date) + days <= MaxDayNumber) then Failure(ArgumentOutOfRange)
    else
      var stepped := Shift(dt.date, days);
      DayNumberRange(stepped);
      DayNumbersIdentify();
      var date :| Proper(date) && DayNumber(date) == DayNumber(dt.date) + days;
      DayNumberRange(date);
      Success(dt.(date := date))
  }

  /** Counting `n` days on from a day number moves its weekday by `n`
      modulo 7. */
  lemma WeekdayAfter(d: Date, n: int)
    requires Proper(d)
    ensures (DayNumber(d) + n + 1) % 7 == WeekdayPlus(DayOfWeek(d), n)
  {
    ModAddMultiple(DayOfWeek(d) + n, (DayNumber(d) + 1) / 7, 7);
  }

  /** Within one month, day numbers advance with the day of the month. */
  lemma SameMonthDayNumber(year: int, month: int, k: int)
    requires Proper(Date(year, month, k))
    ensures DayNumber(Date(year, month, k)) == DayNumber(Date(year, month, 1)) + k - 1
  {
  }

  /** The date whose day number is that of day 1 of the month plus `k - 1`
      is day `k` of that month, as long as `k` is within the month. */
  lemma LandsInMonth(result: Date, year: int, month: int, k: int)
    requires Proper(result) && 1 <= month <= 12 && 1 <= k <= DaysInMonth(year, month)
    requires DayNumber(result) == DayNumber(Date(year, month, 1)) + k - 1
    ensures result == Date(year, month, k)
  {
    DayNumberInjective(result, Date(year, month, k));
  }

  /** Moving by `days` reaches the well-formed date of years 1 to 9999 with
      the matching day number, keeping time of day and kind. */
  lemma AddDaysLands(dt: DateTime, days: int, target: Date)
    requires Valid(dt) && ValidDate(target)
    requires DayNumber(target) == DayNumber(dt.date) + days
    ensures AddDays(dt, days) == Success(dt.(date := target))
  {
    DayNumberRange(target);
    var r := AddDays(dt, days);
    DayNumberInjective(r.value.date, target);
  }

  /** The first day of the month of `current`, at the same time of day. */
  function FirstDayOfMonth(current: DateTime): (r: Result<DateTime>)
    requires Valid(current)
    ensures r.Success?
    ensures r.value.date == Date(current.date.year, current.date.month, 1)
    ensures r.value.timeOfDay == current.timeOfDay && r.value.kind == current.kind
  {
    var d := current.date;
    DayNumberRange(Date(d.year, d.month, 1));
    var r := AddDays(current, 1 - d.day);
    LandsInMonth(r.value.date, d.year, d.month, 1);
    r
  }

  /** The last day of the month of `current`, at the same time of day:
      day 28 or 29 of February, day 30 of April, June, September and
      November, day 31 otherwise. */
  function LastDayOfMonth(current: DateTime): (r: Result<DateTime>)
    requires Valid(current)
    ensures r.Success?
    ensures r.value.date == Date(current.date.year, current.date.month,
                                 DaysInMonth(current.date.year, current.date.month))
    ensures r.value.timeOfDay == current.timeOfDay && r.value.kind == current.kind
  {
    var d := current.date;
    var daysInMonth := DaysInMonth(d.year, d.month);
    DayNumberRange(Date(d.year, d.month, daysInMonth));
    var first := FirstDayOfMonth(current).value;
    var r := AddDays(first, daysInMonth - 1);
    LandsInMonth(r.value.date, d.year, d.month, daysInMonth);
    r
  }

  /** The weekday `n` days after weekday `w`. */
  function WeekdayPlus(w: int, n: int): (r: int)
    ensures 0 <= r < 7
  {
    (w + n) % 7
  }

  /** The number of days from weekday `from` forward to the next `to`:
      the least positive count that reaches it. */
  function NextGap(from: int, to: int): (n: int)
    requires 0 <= from < 7 && 0 <= to < 7
    ensures 1 <= n <= 7 && WeekdayPlus(from, n) == to
    ensures forall k :: 0 < k < n ==> WeekdayPlus(from, k) != to
    ensures from == to ==> n == 7
  {
    if to - from <= 0 then to - from + 7 else to - from
  }

  /** `Next`'s offset: the wrapped difference of the two weekdays, plus a
      week when it is not positive. */
  function NextOffset(from: int, dayOfWeek: Int32): (n: int)
    requires 0 <= from < 7
    ensures 0 <= dayOfWeek < 7 ==> n == NextGap(from, dayOfWeek)
  {
    var offsetDays := WrapInt32(dayOfWeek - from);
    if offsetDays <= 0 then offsetDays + 7 else offsetDays
  }

  /** The first date after `current` that falls on `dayOfWeek`: between
      one and seven days later, seven when `current` is already on that
      day. The difference of two `DayOfWeek` values is an `int` and wraps. */
  function Next(current: DateTime, dayOfWeek: Int32): (r: Result<DateTime>)
    requires Valid(current)
    ensures r.Failure? ==> r.error == ArgumentOutOfRange
    ensures r.Success? ==> Valid(r.value) && r.value.timeOfDay == current.timeOfDay
                           && r.value.kind == current.kind
    ensures 0 <= dayOfWeek < 7 ==>
      (r.Success? <==> DayNumber(current.date) + NextGap(DayOfWeek(current.date), dayOfWeek) <= MaxDayNumber)
    ensures 0 <= dayOfWeek < 7 && r.Success? ==>
      && DayNumber(r.value.date) == DayNumber(current.date) + NextGap(DayOfWeek(current.date), dayOfWeek)
      && DayOfWeek(r.value.date) == dayOfWeek
    ensures DayOfWeek(current.date) == dayOfWeek && r.Success? ==>
      DayNumber(r.value.date) == DayNumber(current.date) + 7
  {
    var offsetDays := NextOffset(DayOfWeek(current.date), dayOfWeek);
    if 0 <= dayOfWeek < 7 then
      NextLands(current, dayOfWeek);
      AddDays(current, offsetDays)
    else AddDays(current, offsetDays)
  }

  /** Moving on by `NextGap` days reaches `dayOfWeek`. */
  lemma NextLands(current: DateTime, dayOfWeek: int)
    requires Valid(current) && 0 <= dayOfWeek < 7
    ensures var r := AddDays(current, NextGap(DayOfWeek(current.date), dayOfWeek));
      r.Success? ==> DayOfWeek(r.value.date) == dayOfWeek
  {
    var gap := NextGap(DayOfWeek(current.date), dayOfWeek);
    var r := AddDays(current, gap);
    if r.Success? {
      WeekdayMoves(current.date, r.value.date, gap);
    }
  }

  /** Dates `n` days apart are `n` weekdays apart. */
  lemma WeekdayMoves(d: Date, e: Date, n: int)
    requires Proper(d) && Proper(e) && DayNumber(e) == DayNumber(d) + n
    ensures DayOfWeek(e) == WeekdayPlus(DayOfWeek(d), n)
  {
    WeekdayAfter(d, n);
  }

  /** Day `day` is the first day of its month falling on `dayOfWeek`: it
      is among days 1 to 7, and no earlier day of the month falls on it. */
  predicate FirstOn(year: int, month: int, day: int, dayOfWeek: int)
    requires 1 <= month <= 12
  {
    && 1 <= day <= 7
    && DayOfWeek(Date(year, month, day)) == dayOfWeek
    && forall k {:trigger DayOfWeek(Date(year, month, k))} :: 1 <= k < day ==> DayOfWeek(Date(year, month, k)) != dayOfWeek
  }

  /** Day `day` is the last day of its month falling on `dayOfWeek`: it is
      among the last seven days, and no later day of the month falls on it. */
  predicate LastOn(year: int, month: int, day: int, dayOfWeek: int)
    requires 1 <= month <= 12
  {
    && DaysInMonth(year, month) - 6 <= day <= DaysInMonth(year, month)
    && DayOfWeek(Date(year, month, day)) == dayOfWeek
    && forall k {:trigger DayOfWeek(Date(year, month, k))} :: day < k <= DaysInMonth(year, month) ==> DayOfWeek(Date(year, month, k)) != dayOfWeek
  }

  /** `moved` is `current` moved to another day of the same month. */
  predicate SameMonth(current: DateTime, moved: DateTime)
  {
    moved == current.(date := Date(current.date.year, current.date.month, moved.date.day))
  }

  /** The first date in the month of `current` falling on `dayOfWeek`. */
  function First(current: DateTime, dayOfWeek: Int32): (r: Result<DateTime>)
    requires Valid(current)
    ensures 0 <= dayOfWeek < 7 ==>
      && r.Success? && SameMonth(current, r.value)
      && FirstOn(current.date.year, current.date.month, r.value.date.day, dayOfWeek)
  {
    var first := FirstDayOfMonth(current).value;
    if DayOfWeek(first.date) != dayOfWeek then
      if 0 <= dayOfWeek < 7 then
        var y, m := current.date.year, current.date.month;
        FirstLands(y, m, dayOfWeek);
        StepForward(first, NextGap(DayOfWeek(first.date), dayOfWeek));
        Next(first, dayOfWeek)
      else Next(first, dayOfWeek)
    else Success(first)
  }

  /** Stepping forward `a` days (at most 6) from the first day of a month
      lands on day `1 + a` of the same month. */
  lemma StepForward(first: DateTime, a: int)
    requires Valid(first) && first.date.day == 1 && 0 <= a <= 6
    ensures AddDays(first, a) == Success(first.(date := Date(first.date.year, first.date.month, 1 + a)))
  {
    var y, m := first.date.year, first.date.month;
    var target := Date(y, m, 1 + a);
    assert DayNumber(target) == DayNumber(first.date) + a by {
      SameMonthDayNumber(y, m, 1 + a);
    }
    AddDaysLands(first, a, target);
  }

  /** The weekday of each day of a month, counted from the first day's. */
  lemma WeekdayFromFirst(year: int, month: int, k: int)
    requires Proper(Date(year, month, k))
    ensures DayOfWeek(Date(year, month, k)) == WeekdayPlus(DayOfWeek(Date(year, month, 1)), k - 1)
  {
    SameMonthDayNumber(year, month, k);
    WeekdayAfter(Date(year, month, 1), k - 1);
  }

  /** When day 1 is not on `dayOfWeek`, `Next` from it reaches the first day
      of the month on `dayOfWeek`, at most six days in. */
  lemma FirstLands(year: int, month: int, dayOfWeek: int)
    requires 1 <= month <= 12 && 0 <= dayOfWeek < 7
    requires DayOfWeek(Date(year, month, 1)) != dayOfWeek
    ensures var gap := NextGap(DayOfWeek(Date(year, month, 1)), dayOfWeek);
      gap <= 6 && FirstOn(year, month, 1 + gap, dayOfWeek)
  {
    var gap := NextGap(DayOfWeek(Date(year, month, 1)), dayOfWeek);
    WeekdayFromFirst(year, month, 1 + gap);
    forall k | 1 <= k < 1 + gap
      ensures DayOfWeek(Date(year, month, k)) != dayOfWeek
    {
      WeekdayFromFirst(year, month, k);
    }
  }

  /** The weekday of the last day of the month of `current`. */
  function LastWeekday(current: DateTime): (w: int)
    requires Valid(current)
    ensures 0 <= w < 7
  {
    var d := current.date;
    DayOfWeek(Date(d.year, d.month, DaysInMonth(d.year, d.month)))
  }

  /** `Last` as written: step back from the last day of the month by the
      absolute difference of `dayOfWeek` and the last day's weekday. The
      difference of two `DayOfWeek` values is an `int` and wraps, and
      `Math.Abs` throws on `int.MinValue`. Where it lands for a weekday in
      0..6 is `LastResult`. */
  function Last(current: DateTime, dayOfWeek: Int32): (r: Result<DateTime>)
    requires Valid(current)
    ensures r.Failure? ==> r.error == Overflow || r.error == ArgumentOutOfRange
    ensures r.Success? ==> r.value.timeOfDay == current.timeOfDay && r.value.kind == current.kind
  {
    var last := LastDayOfMonth(current).value;
    var lastDayOfWeek := DayOfWeek(last.date);
    var diff := WrapInt32(dayOfWeek - lastDayOfWeek);
    if diff == MinInt32 then Failure(Overflow)
    else AddDays(last, -Abs(diff))
  }

  /** What `Last` is meant to give is the last date of the month falling on
      `dayOfWeek`. For a weekday in 0..6 it stays within the last seven days
      of the month, and it is right only when `dayOfWeek` is not after the
      last day's weekday (Sunday is 0). Otherwise it lands on weekday
      `2 * LastWeekday(current) - dayOfWeek` (mod 7), which is never
      `dayOfWeek`. */
  lemma LastResult(current: DateTime, dayOfWeek: Int32)
    requires Valid(current) && 0 <= dayOfWeek < 7
    ensures var r := Last(current, dayOfWeek);
      && r.Success? && SameMonth(current, r.value)
      && DaysInMonth(current.date.year, current.date.month) - 6 <= r.value.date.day
      && r.value.date.day <= DaysInMonth(current.date.year, current.date.month)
      && (dayOfWeek <= LastWeekday(current) ==>
            LastOn(current.date.year, current.date.month, r.value.date.day, dayOfWeek))
      && (dayOfWeek > LastWeekday(current) ==>
            && Proper(r.value.date)
            && DayOfWeek(r.value.date) == WeekdayPlus(2 * LastWeekday(current), -dayOfWeek)
            && DayOfWeek(r.value.date) != dayOfWeek)
  {
    var a := Abs(dayOfWeek - LastWeekday(current));
    LastStepsBack(current, dayOfWeek);
    LastLandsAt(current, Last(current, dayOfWeek).value, dayOfWeek, a);
  }

  /** For a weekday in 0..6, `Last` steps back from the last day of the
      month by the absolute difference of the two weekdays. */
  lemma LastStepsBack(current: DateTime, dayOfWeek: Int32)
    requires Valid(current) && 0 <= dayOfWeek < 7
    ensures Last(current, dayOfWeek)
            == Success(current.(date := Date(current.date.year, current.date.month,
                                             DaysInMonth(current.date.year, current.date.month)
                                             - Abs(dayOfWeek - LastWeekday(current)))))
  {
    var last := LastDayOfMonth(current).value;
    var diff := WrapInt32(dayOfWeek - DayOfWeek(last.date));
    assert DayOfWeek(last.date) == LastWeekday(current);
    assert diff == dayOfWeek - LastWeekday(current);
    LastUnfolds(current, dayOfWeek);
    BackInMonth(current, last, Abs(diff));
  }

  /** `Last` when the difference of the weekdays does not wrap to
      `int.MinValue`. */
  lemma LastUnfolds(current: DateTime, dayOfWeek: Int32)
    requires Valid(current)
    requires WrapInt32(dayOfWeek - DayOfWeek(LastDayOfMonth(current).value.date)) != MinInt32
    ensures var last := LastDayOfMonth(current).value;
      Last(current, dayOfWeek) == AddDays(last, -Abs(WrapInt32(dayOfWeek - DayOfWeek(last.date))))
  {
  }

  /** `LastLands` restated for the date `moved` of the month of `current`
      that lies `a` days before its last day. */
  lemma LastLandsAt(current: DateTime, moved: DateTime, dayOfWeek: int, a: int)
    requires Valid(current) && 0 <= dayOfWeek < 7
    requires a == Abs(dayOfWeek - LastWeekday(current))
    requires moved == current.(date := Date(current.date.year, current.date.month,
                                            DaysInMonth(current.date.year, current.date.month) - a))
    ensures && SameMonth(current, moved)
      && DaysInMonth(current.date.year, current.date.month) - 6 <= moved.date.day
      && moved.date.day <= DaysInMonth(current.date.year, current.date.month)
      && (dayOfWeek <= LastWeekday(current) ==>
            LastOn(current.date.year, current.date.month, moved.date.day, dayOfWeek))
      && (dayOfWeek > LastWeekday(current) ==>
            && Proper(moved.date)
            && DayOfWeek(moved.date) == WeekdayPlus(2 * LastWeekday(current), -dayOfWeek)
            && DayOfWeek(moved.date) != dayOfWeek)
  {
    LastLands(current.date.year, current.date.month, dayOfWeek, a);
  }

  /** Stepping back `a` days (at most 6) from the last day of a month
      lands on day `DaysInMonth - a` of the same month. */
  lemma StepBack(last: DateTime, a: int)
    requires Valid(last) && last.date.day == DaysInMonth(last.date.year, last.date.month) && 0 <= a <= 6
    ensures AddDays(last, -a)
            == Success(last.(date := Date(last.date.year, last.date.month, last.date.day - a)))
  {
    var y, m, dim := last.date.year, last.date.month, last.date.day;
    var target := Date(y, m, dim - a);
    assert DayNumber(target) == DayNumber(last.date) - a by {
      SameMonthDayNumber(y, m, dim);
      SameMonthDayNumber(y, m, dim - a);
    }
    AddDaysLands(last, -a, target);
  }

  /** The weekday of each day of a month, counted from the last day's. */
  lemma WeekdayInMonth(year: int, month: int, k: int)
    requires Proper(Date(year, month, k))
    ensures DayOfWeek(Date(year, month, k))
            == WeekdayPlus(DayOfWeek(Date(year, month, DaysInMonth(year, month))), k - DaysInMonth(year, month))
  {
    var last := Date(year, month, DaysInMonth(year, month));
    SameMonthDayNumber(year, month, k);
    SameMonthDayNumber(year, month, DaysInMonth(year, month));
    WeekdayAfter(last, k - DaysInMonth(year, month));
  }

  /** Where `Last` lands for a weekday `dayOfWeek` in 0..6: `a` days before
      the last day of the month, `a` being the absolute difference of
      `dayOfWeek` and the last day's weekday `w`. */
  lemma LastLands(year: int, month: int, dayOfWeek: int, a: int)
    requires 1 <= month <= 12 && 0 <= dayOfWeek < 7
    requires a == Abs(dayOfWeek - DayOfWeek(Date(year, month, DaysInMonth(year, month))))
    ensures 0 <= a <= 6
    ensures var w := DayOfWeek(Date(year, month, DaysInMonth(year, month)));
      var day := DaysInMonth(year, month) - a;
      && (dayOfWeek <= w ==> LastOn(year, month, day, dayOfWeek))
      && (dayOfWeek > w ==>
            && DayOfWeek(Date(year, month, day)) == WeekdayPlus(2 * w, -dayOfWeek)
            && DayOfWeek(Date(year, month, day)) != dayOfWeek)
  {
    var dim := DaysInMonth(year, month);
    var w := DayOfWeek(Date(year, month, dim));
    LastGap(w, dayOfWeek, a);
    WeekdayInMonth(year, month, dim - a);
    if dayOfWeek <= w {
      forall k | dim - a < k <= dim
        ensures DayOfWeek(Date(year, month, k)) != dayOfWeek
      {
        WeekdayInMonth(year, month, k);
      }
    }
  }

  /** The weekday arithmetic behind `LastLands`: stepping back `a` days
      from weekday `w`, `a` being the absolute difference of `dayOfWeek`
      and `w`. */
  lemma LastGap(w: int, dayOfWeek: int, a: int)
    requires 0 <= w < 7 && 0 <= dayOfWeek < 7 && a == Abs(dayOfWeek - w)
    ensures 0 <= a <= 6
    ensures dayOfWeek <= w ==>
      && WeekdayPlus(w, -a) == dayOfWeek
      && forall j :: -a < j <= 0 ==> WeekdayPlus(w, j) != dayOfWeek
    ensures dayOfWeek > w ==>
      && WeekdayPlus(w, -a) == WeekdayPlus(2 * w, -dayOfWeek)
      && WeekdayPlus(w, -a) != dayOfWeek
  {
    if dayOfWeek > w {
      assert WeekdayPlus(w, -a) == 2 * w - dayOfWeek + (if 2 * w < dayOfWeek then 7 else 0);
    }
  }

  /** `Last` as intended: step back from the last day of the month by the
      number of days from `dayOfWeek` forward to the last day's weekday, so
      the result is the last date of the month falling on `dayOfWeek`. */
  function LastCorrected(current: DateTime, dayOfWeek: Int32): (r: Result<DateTime>)
    requires Valid(current)
    ensures r.Success? && SameMonth(current, r.value)
    ensures LastOn(current.date.year, current.date.month, r.value.date.day, dayOfWeek % 7)
  {
    var last := LastDayOfMonth(current).value;
    LastCorrectedResult(current, last, dayOfWeek);
    AddDays(last, -WeekdayPlus(DayOfWeek(last.date), -(dayOfWeek as int)))
  }

  /** Where `LastCorrected` lands from the last day of the month. */
  lemma LastCorrectedResult(current: DateTime, last: DateTime, dayOfWeek: int)
    requires Valid(current)
    requires last == current.(date := Date(current.date.year, current.date.month,
                                           DaysInMonth(current.date.year, current.date.month)))
    ensures var r := AddDays(last, -WeekdayPlus(DayOfWeek(last.date), -dayOfWeek));
      && r.Success? && SameMonth(current, r.value)
      && LastOn(current.date.year, current.date.month, r.value.date.day, dayOfWeek % 7)
  {
    var y, m, dim := last.date.year, last.date.month, last.date.day;
    var back := WeekdayPlus(DayOfWeek(last.date), -dayOfWeek);
    BackInMonth(current, last, back);
    var r := AddDays(last, -back);
    assert r.value.date.day == dim - back;
    assert LastOn(y, m, dim - back, dayOfWeek % 7) by {
      LastCorrectedLands(y, m, dayOfWeek, back);
    }
  }

  /** `StepBack` from the last day of the month of `current`. */
  lemma BackInMonth(current: DateTime, last: DateTime, back: int)
    requires Valid(current) && 0 <= back <= 6
    requires last == current.(date := Date(current.date.year, current.date.month,
                                           DaysInMonth(current.date.year, current.date.month)))
    ensures AddDays(last, -back) == Success(current.(date := Date(current.date.year, current.date.month,
                                           DaysInMonth(current.date.year, current.date.month) - back)))
  {
    StepBack(last, back);
  }

  /** Stepping back from the last day of the month by the days from
      `dayOfWeek` forward to the last day's weekday lands on `dayOfWeek`,
      and no later day of the month falls on it. */
  lemma LastCorrectedLands(year: int, month: int, dayOfWeek: int, back: int)
    requires 1 <= month <= 12
    requires back == WeekdayPlus(DayOfWeek(Date(year, month, DaysInMonth(year, month))), -dayOfWeek)
    ensures LastOn(year, month, DaysInMonth(year, month) - back, dayOfWeek % 7)
  {
    var dim := DaysInMonth(year, month);
    var w := DayOfWeek(Date(year, month, dim));
    WeekdayInMonth(year, month, dim - back);
    BackToWeekday(w, dayOfWeek, -back);
    forall k | dim - back < k <= dim
      ensures DayOfWeek(Date(year, month, k)) != dayOfWeek % 7
    {
      WeekdayInMonth(year, month, k);
      BackToWeekday(w, dayOfWeek, k - dim);
    }
  }

  /** Counting back from weekday `w`, the first day on weekday `d` (mod 7)
      is `(w - d) % 7` days back. */
  lemma BackToWeekday(w: int, d: int, j: int)
    requires -WeekdayPlus(w, -d) <= j <= 0
    ensures WeekdayPlus(w, j) == d % 7 <==> j == -WeekdayPlus(w, -d)
  {
    var q, p := (w - d) / 7, d / 7;
    var t := (w - d) % 7 + j;
    assert w + j == d % 7 + t + 7 * (p + q);
    ModAddMultiple(d % 7 + t, p + q, 7);
  }

  /** April 2023 ends on Sunday the 30th. Asked for the last Monday, `Last`
      gives Saturday the 29th, from any date of that month. */
  lemma LastMondayOfApril2023(current: DateTime)
    requires Valid(current) && current.date.year == 2023 && current.date.month == 4
    ensures LastWeekday(current) == Sunday
    ensures Last(current, Monday) == Success(current.(date := Date(2023, 4, 29)))
    ensures DayOfWeek(Date(2023, 4, 29)) == Saturday
  {
    var last := LastDayOfMonth(current).value;
    assert last.date == Date(2023, 4, 30);
    April2023Weekdays();
    assert Last(current, Monday) == AddDays(last, -1) by {
      assert DayOfWeek(last.date) == Sunday;
      assert WrapInt32(Monday - Sunday) == 1;
    }
    BackInMonth(current, last, 1);
  }

  /** The last Monday of April 2023 is the 24th, and `LastCorrected` finds
      it, from any date of that month. */
  lemma LastMondayOfApril2023Corrected(current: DateTime)
    requires Valid(current) && current.date.year == 2023 && current.date.month == 4
    ensures LastCorrected(current, Monday) == Success(current.(date := Date(2023, 4, 24)))
    ensures DayOfWeek(Date(2023, 4, 24)) == Monday
  {
    var last := LastDayOfMonth(current).value;
    assert last.date == Date(2023, 4, 30);
    April2023Weekdays();
    assert WeekdayPlus(DayOfWeek(last.date), -Monday) == 6;
    BackInMonth(current, last, 6);
    WeekdayFromFirst(2023, 4, 24);
    WeekdayFromFirst(2023, 4, 30);
  }

  lemma April2023Weekdays()
    ensures DayOfWeek(Date(2023, 4, 30)) == Sunday
    ensures DayOfWeek(Date(2023, 4, 29)) == Saturday
  {
    assert DaysBeforeYear(2023) == 738520;
    assert DayNumber(Date(2023, 4, 29)) == 738638;
  }

  /** January 2000 ends on Monday the 31st. From any date of that month,
      `Last` gives, for Sunday to Saturday, the 30th, 31st, 30th, 29th,
      28th, 27th and 26th: the last Sunday and Monday are right, while the
      last Tuesday to Saturday are the 25th to the 29th. */
  lemma LastOfJanuary2000(current: DateTime, dayOfWeek: Int32)
    requires Valid(current) && current.date.year == 2000 && current.date.month == 1
    requires 0 <= dayOfWeek < 7
    ensures LastWeekday(current) == Monday
    ensures Last(current, dayOfWeek)
            == Success(current.(date := Date(2000, 1, [30, 31, 30, 29, 28, 27, 26][dayOfWeek])))
  {
    January2000Weekdays();
    LastStepsBack(current, dayOfWeek);
  }

  /** `LastCorrected` gives the last Sunday to Saturday of January 2000:
      the 30th, 31st, 25th, 26th, 27th, 28th and 29th. */
  lemma LastOfJanuary2000Corrected(current: DateTime, dayOfWeek: Int32)
    requires Valid(current) && current.date.year == 2000 && current.date.month == 1
    requires 0 <= dayOfWeek < 7
    ensures LastCorrected(current, dayOfWeek)
            == Success(current.(date := Date(2000, 1, [30, 31, 25, 26, 27, 28, 29][dayOfWeek])))
  {
    var last := LastDayOfMonth(current).value;
    assert last.date == Date(2000, 1, 31);
    January2000Weekdays();
    BackInMonth(current, last, WeekdayPlus(Monday, -(dayOfWeek as int)));
  }

  lemma January2000Weekdays()
    ensures DayOfWeek(Date(2000, 1, 31)) == Monday
  {
    assert DaysBeforeYear(2000) == 730119;
    assert DayNumber(Date(2000, 1, 31)) == 730149;
  }

  /** The same date at 00:00:00; the kind becomes `Unspecified`, as a
      newly constructed `DateTime` has. */
  function Midnight(current: DateTime): (r: DateTime)
    requires Valid(current)
    ensures Valid(r) && r.date == current.date
    ensures r.timeOfDay == 0 && r.kind == Unspecified
  {
    DateTime(current.date, 0, Unspecified)
  }

  /** The same date at 12:00:00, of kind `Unspecified`. */
  function Noon(current: DateTime): (r: DateTime)
    requires Valid(current)
    ensures Valid(r) && r.date == current.date
    ensures r.timeOfDay == 12 * TicksPerHour && r.kind == Unspecified
  {
    DateTime(current.date, 12 * TicksPerHour, Unspecified)
  }
}
