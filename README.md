# X10D extension methods, modelled in Dafny

X10D is a C# library of extension methods on framework types. This project
models the self-contained core of that library and proves what each method
promises. The core covers:

- `MinMax`, `MinMaxBy` and `Except` over sequences, with both the span scan
  and the enumerator scan;
- the integer helpers on `int` and `byte`: `Mod`, `DigitalRoot`,
  `Factorial`, parity and `Sign`;
- unpacking a `long` into 64 booleans, and writing a `short` as two bytes;
- clearing and filling arrays in place;
- the `Polyhedron` vertex container;
- calendar arithmetic on `DateTime`;
- the leap-year rule and `TimeSpan` unit conversions on `uint` and `byte`;
- `char.Repeat`, `bool.ToInt32`, and component replacement on `Vector4`.

The model keeps the source's own form:

- Classes and in-place array operations are methods with `modifies`
  clauses, proved against specification functions.
- Loops are `while`/`for` loops with invariants.
- Pure expressions are functions with lemmas.

Errors and missing values are modelled as follows:

- Each exception the source throws becomes a `Failure(error)` of a `Result`,
  or a `Fail(error)` of an `Outcome` (`Common.dfy`).
- A `null` reference is `null` for arrays and objects, or `None` for
  sequences, delegates and comparers.

Integers have the source's widths:

- `Int32`, `Int64` and the other widths are subset types.
- Unchecked wrap-around is written out explicitly (`WrapInt32`,
  `WrapInt64`, `WrapUInt32`).
- C#'s truncating `%` is `Rem`.

Framework code appears as follows:

- Framework code the source calls but that is not part of this model is
  either a parameter or modelled by its documented behaviour:
  - the default comparer and `default(T)` are parameters;
  - `DateTime.AddDays`, `TimeSpan.From…` and the `Index`/`Range` offsets are
    modelled by their documented behaviour.
- A `DateTime` is a proleptic-Gregorian date, a time of day in ticks and a
  kind. Day 0 is 0001-01-01, a Monday.
- A `TimeSpan` is a signed 64-bit tick count.
- Floats (`Vector3`, `Vector4` and `PointF` components) are kept as opaque
  32-bit patterns. No float arithmetic is modelled.

`TimeSpan.FromHours` and `TimeSpan.FromDays` throw `OverflowException` when
the span does not fit. The model keeps this as a `Failure(Overflow)`: for a
`uint` argument it happens from 256204779 hours and from 10675200 days on.
Both rounding conventions of the .NET runtimes give the same thresholds for
whole numbers.

## Model

| member | source | states |
|---|---|---|
| Linq.TryGetSpan | X10D/src/Linq/EnumerableExtensions.cs:380-401 | arrays and lists, and only they, expose their elements as a span, and the span holds exactly those elements |
| Linq.MinMaxSpan | X10D/src/Linq/EnumerableExtensions.cs:291-317 | an empty span throws InvalidOperation; otherwise the loop's result is the first-occurrence minimum and maximum of the span (`Extremes`) under the comparer, with no null test |
| Linq.MinMaxSpanCorrected | X10D/src/Linq/EnumerableExtensions.cs:291-317 | the span scan with the enumerator path's null test: its result is `Extremes` with that null test |
| Linq.MinMaxSelectedSpan | X10D/src/Linq/EnumerableExtensions.cs:319-348 | the key scan returns the elements that are extremal by key, under the null test on elements, or InvalidOperation when empty |
| Linq.MinMaxSelectorSpan | X10D/src/Linq/EnumerableExtensions.cs:350-378 | the selector scan returns the extremes of the mapped sequence, or InvalidOperation when empty |
| Linq.MinMaxUsing | X10D/src/Linq/EnumerableExtensions.cs:58-104 | a null source throws ArgumentNull; a null comparer means the default one; an empty source throws InvalidOperation on both paths; arrays and lists give the span scan's extremes, other sequences the enumerator loop's extremes with the null test |
| Linq.MinMax | X10D/src/Linq/EnumerableExtensions.cs:39-47 | the same with the default comparer |
| Linq.MinMaxOfUsing | X10D/src/Linq/EnumerableExtensions.cs:144-197 | a null source or selector throws ArgumentNull; otherwise the extremes of the selected values (span or enumerator path), or InvalidOperation when empty |
| Linq.MinMaxOf | X10D/src/Linq/EnumerableExtensions.cs:116-130 | the same with the default comparer |
| Linq.MinMaxByUsing | X10D/src/Linq/EnumerableExtensions.cs:236-289 | a null source or key selector throws ArgumentNull; otherwise the source elements that are extremal by key, or InvalidOperation when empty |
| Linq.MinMaxBy | X10D/src/Linq/EnumerableExtensions.cs:209-223 | the same with the default comparer |
| Linq.MinIndexIsLeast | X10D/src/Linq/EnumerableExtensions.cs:84-100 | under a total preorder on a null-free sequence, the minimum compares at most equal to every element and strictly below every earlier one, so ties resolve to the earliest occurrence |
| Linq.MaxIndexIsGreatest | X10D/src/Linq/EnumerableExtensions.cs:84-100 | the maximum compares at least equal to every element and strictly above every earlier one |
| Linq.ReverseSwaps | X10D.Tests/src/Linq/EnumerableTests.cs:69-92 | an inverted comparer swaps the reported minimum and maximum |
| Linq.NullTestIdle | X10D/src/Linq/EnumerableExtensions.cs:68-71 | on a null-free sequence the scan with the null test and the scan without it choose the same indices, so the span path and the enumerator path agree |
| Linq.ByKeyMatchesKeys | X10D/src/Linq/EnumerableExtensions.cs:236-289 | scanning elements by key chooses the same positions as scanning the keys, so `MinMaxBy` returns elements whose keys are the extremes |
| Linq.SpanPathDisagreesOnNull | X10D/src/Linq/EnumerableExtensions.cs:305-313 | for `[null, 1]` the span path reports `null` as the minimum where the enumerator path reports 1 |
| Linq.Except | X10D/src/Linq/EnumerableExtensions.cs:21-29 | a null source throws ArgumentNull; otherwise the result omits `item`, contains only source elements, and keeps every other element with its multiplicity |
| Linq.Without | X10D/src/Linq/EnumerableExtensions.cs:28 | the filter drops `item` and keeps every other element with its multiplicity |
| Linq.WithoutAppend | X10D/src/Linq/EnumerableExtensions.cs:28 | filtering distributes over concatenation, so the original order is kept |
| Linq.WithoutAbsent | X10D/src/Linq/EnumerableExtensions.cs:28 | a sequence without `item` is returned unchanged |
| Linq.WithoutIdempotent | X10D/src/Linq/EnumerableExtensions.cs:28 | filtering twice is filtering once |
| Linq.WithoutLength | X10D/src/Linq/EnumerableExtensions.cs:28 | exactly the occurrences of `item` are removed |
| Int32Math.CountDigits | X10D/src/Math/Int32Extensions.cs:17-25 | zero has one digit; any other value is answered by the `long` overload |
| Int32Math.Mod | X10D/src/Math/Int32Extensions.cs:159-163 | a zero divisor throws DivideByZero, and `int.MinValue % -1` throws Overflow; for a positive divisor the result is the Euclidean remainder; for a non-negative dividend it is C#'s `%` |
| Int32Math.ModOfNegative | X10D/src/Math/Int32Extensions.cs:161-162 | for a positive divisor, a negative truncated remainder plus the divisor is the Euclidean remainder |
| Int32Math.DigitalRoot | X10D/src/Math/Int32Extensions.cs:38-42 | `int.MinValue` throws Overflow; otherwise the result lies in 1..9 and is congruent to the absolute value mod 9; for non-zero input it equals the repeated digit sum; 0 maps to 9 |
| Int32Math.DigitalRootCorrected | X10D/src/Math/Int32Extensions.cs:38-42 | the repeated digit sum of the absolute value, 0 included |
| Int32Math.DigitalRootOfZero | X10D/src/Math/Int32Extensions.cs:38-42 | the digital root of 0 is 9 as written, where the repeated digit sum of 0 is 0 |
| Int32Math.Factorial | X10D/src/Math/Int32Extensions.cs:52-71 | a negative input throws Arithmetic; otherwise the product 1 * ... * value in unchecked 64-bit arithmetic (`WrappedFact`), so 0 to 20 give n! exactly |
| Int32Math.FactorialLoop | X10D/src/Math/Int32Extensions.cs:59-70 | the loop as written, with a wrapping `int` counter, exits for every value below `int.MaxValue` |
| Int32Math.FactorialLoopOfMaxNeverExits | X10D/src/Math/Int32Extensions.cs:65 | for `int.MaxValue` the loop never exits |
| Int32Math.FactorialLoopComputes | X10D/src/Math/Int32Extensions.cs:64-68 | below `int.MaxValue`, the loop run from counter `i` with the product of 1 to `i - 1` ends with the wrapped product 1 * ... * value |
| Int32Math.FactorialLoopIsFactorial | X10D/src/Math/Int32Extensions.cs:52-71 | the loop as written returns the same value as `Factorial` for 0 to `int.MaxValue - 1`, and n! for 0 to 20 |
| Int32Math.IsEven | X10D/src/Math/Int32Extensions.cs:96-99 | bit 0 of the two's-complement pattern is clear exactly when the value is divisible by 2, negatives included |
| Int32Math.IsOdd | X10D/src/Math/Int32Extensions.cs:111-114 | odd exactly when the remainder by 2 is 1 |
| Int32Math.Sign | X10D/src/Math/Int32Extensions.cs:209-212 | the result is -1, 0 or 1; it is 0 only for 0; sign times absolute value gives the value back |
| ByteMath.DigitalRoot | X10D/src/Math/ByteExtensions.cs:23-27 | the result lies in 1..9 and is congruent to the value mod 9; it is 9 exactly for multiples of 9 (0 included) and the repeated digit sum for non-zero values |
| ByteMath.Factorial | X10D/src/Math/ByteExtensions.cs:34-48 | the product 1 * ... * value in unchecked 64-bit arithmetic (`WrappedFact`), so 0 to 20 give n! exactly, 0! = 1 |
| ByteMath.FactorialLoop | X10D/src/Math/ByteExtensions.cs:41-47 | the loop as written, with a wrapping `byte` counter, exits for every value below 255 |
| ByteMath.FactorialLoopOf255NeverExits | X10D/src/Math/ByteExtensions.cs:42 | for 255 the loop never exits |
| ByteMath.FactorialLoopComputes | X10D/src/Math/ByteExtensions.cs:41-45 | below 255, the loop run from counter `i` with the product of 1 to `i - 1` ends with the wrapped product 1 * ... * value |
| ByteMath.FactorialLoopIsFactorial | X10D/src/Math/ByteExtensions.cs:34-48 | the loop as written returns the same value as `Factorial` for 0 to 254, and n! for 0 to 20 |
| ByteMath.IsEven | X10D/src/Math/ByteExtensions.cs:58-61 | even exactly when the value is twice some k |
| ByteMath.IsOdd | X10D/src/Math/ByteExtensions.cs:71-74 | odd exactly when the value is twice some k plus one |
| MathReference.DigitSumMod9 | X10D/src/Math/Int32Extensions.cs:38-42 | the digit sum is congruent to the number mod 9 |
| MathReference.RepeatedDigitSumFormula | X10D/src/Math/Int32Extensions.cs:38-42 | the repeated digit sum is 0 for 0, 9 for other multiples of 9, and the remainder by 9 otherwise |
| MathReference.FactFitsInt64 | X10D/src/Math/Int32Extensions.cs:59-70 | 20! is the largest factorial that fits a `long` |
| MathReference.WrappedFact | X10D/src/Math/Int32Extensions.cs:64-68 | the `long` accumulator's product 1 * ... * n equals n! for n up to 20 |
| Int64Bits.Pow2Of64 | X10D/src/Collections/Int64Extensions.cs:10 | a `long` has 64 bits: 2^64 and 2^63 are the modulus and the sign boundary |
| Int64Bits.UnpackedAt | X10D/src/Collections/Int64Extensions.cs:38-41 | element i of the unpacked value is bit i of the two's-complement pattern |
| Int64Bits.UnpackRoundTrip | X10D/src/Collections/Int64Extensions.cs:38-41 | the sum of bit i times 2^i, read as a signed 64-bit value, gives the input back |
| Int64Bits.UnpackedSign | X10D/src/Collections/Int64Extensions.cs:40 | element 63 is set exactly when the value is negative |
| Int64Bits.UnpackInjective | X10D/src/Collections/Int64Extensions.cs:38-41 | different values unpack to different booleans |
| Int64Bits.UnpackInto | X10D/src/Collections/Int64Extensions.cs:31-42 | a destination shorter than 64 throws Argument and is left unchanged; otherwise elements 0..63 get the bits and the rest are unchanged |
| Int64Bits.Unpack | X10D/src/Collections/Int64Extensions.cs:18-23 | a fresh array of exactly 64 elements holding the bits |
| Int16IO.Encode | X10D/src/IO/Int16Extensions.cs:53-58 | two bytes: high then low for BigEndian, low then high for every other enum value, unnamed ones included |
| Int16IO.RoundTrip | X10D/src/IO/Int16Extensions.cs:53-58 | decoding with the same byte order gives the value back |
| Int16IO.OrdersAreReversed | X10D/src/IO/Int16Extensions.cs:55-57 | the big-endian bytes are the reverse of those of any other order |
| Int16IO.Example420 | X10D.Tests/src/IO/StreamTests.ReadInt16.cs:39-66 | 420 encodes as 01 A4 big-endian and A4 01 little-endian, and decodes back |
| Int16IO.TryWriteBytes | X10D/src/IO/Int16Extensions.cs:53-58 | returns false and writes nothing when fewer than two bytes fit; otherwise writes the encoding to elements 0 and 1 and leaves the rest unchanged |
| Int16IO.GetBytes | X10D/src/IO/Int16Extensions.cs:28-33 | a fresh two-byte array equal to what `TryWriteBytes` writes |
| ArrayOps.ClearWindow | X10D/src/ArrayExtensions/ArrayExtensions.cs:75-88 | a null array throws ArgumentNull; a zero length or an empty array returns without checking the index; an out-of-range window reaches `Array.Clear`, which throws IndexOutOfRange and changes nothing; otherwise exactly the window is reset to the default |
| ArrayOps.ClearWindowChecked | X10D/src/ArrayExtensions/ArrayExtensions.cs:68-74 | as `ClearWindow`, but an out-of-range window throws the documented ArgumentOutOfRange, still changing nothing |
| ArrayOps.ClearPastEndExample | X10D/src/ArrayExtensions/ArrayExtensions.cs:68-87 | `new int[3].Clear(2, 5)` throws IndexOutOfRange as written and ArgumentOutOfRange as documented |
| ArrayOps.Window | X10D/src/ArrayExtensions/ArrayExtensions.cs:50-57 | the start is the raw start value, even when it counts from the end; the end is resolved against the length |
| ArrayOps.ClearRange | X10D/src/ArrayExtensions/ArrayExtensions.cs:43-58 | a null array throws ArgumentNull; otherwise it behaves as `Clear(index, length)` on the window `Window` gives: IndexOutOfRange and no change when that window leaves the array, otherwise exactly the window reset |
| ArrayOps.WindowCorrected | X10D/src/ArrayExtensions/ArrayExtensions.cs:50-57 | both ends resolved with `Index.GetOffset` |
| ArrayOps.WindowsAgree | X10D/src/ArrayExtensions/ArrayExtensions.cs:50 | the two resolutions agree when the start counts from the beginning |
| ArrayOps.ClearFromEndStartExample | X10D/src/ArrayExtensions/ArrayExtensions.cs:50 | `Clear(^2..)` on five elements clears elements 2 to 4 instead of 3 and 4 |
| ArrayOps.ClearRangeCorrected | X10D/src/ArrayExtensions/ArrayExtensions.cs:43-58 | succeeds exactly when the range is empty, the array is empty or the range lies inside the array, and then resets exactly the elements the range denotes; otherwise throws ArgumentOutOfRange and changes nothing |
| ArrayOps.ClearAll | X10D/src/ArrayExtensions/ArrayExtensions.cs:31-34 | a null array throws ArgumentNull; otherwise every element is reset to the default |
| ArrayOps.FillAll | X10D/src/ArrayExtensions/ArrayExtensions.cs:97-110 | a null array throws ArgumentNull; otherwise every element equals the value and the length is unchanged |
| ArrayOps.FillWindow | X10D/src/ArrayExtensions/ArrayExtensions.cs:122-135 | a null array throws ArgumentNull; a zero count or an empty array changes nothing; an out-of-range window throws and changes nothing; otherwise exactly the window is set |
| Drawing.Polyhedron.constructor | X10D/src/Drawing/Polyhedron.cs:17-19 | a new polyhedron has no vertices |
| Drawing.Polyhedron.OfVertices | X10D/src/Drawing/Polyhedron.cs:35-43 | a new polyhedron holds exactly the given vertices |
| Drawing.Polyhedron.Create | X10D/src/Drawing/Polyhedron.cs:35-43 | a null enumerable throws ArgumentNull; otherwise a fresh polyhedron with the given vertices |
| Drawing.Polyhedron.Copy | X10D/src/Drawing/Polyhedron.cs:25-28 | a null polyhedron throws ArgumentNull; otherwise a fresh polyhedron with the same vertices |
| Drawing.Polyhedron.Empty | X10D/src/Drawing/Polyhedron.cs:49-52 | a fresh polyhedron with no vertices on every read |
| Drawing.Polyhedron.VertexCount | X10D/src/Drawing/Polyhedron.cs:58-61 | the count is the length of `Vertices` |
| Drawing.Polyhedron.AddVertex | X10D/src/Drawing/Polyhedron.cs:178-181 | the vertex is appended at the end; earlier vertices are unchanged |
| Drawing.Polyhedron.AddVertices | X10D/src/Drawing/Polyhedron.cs:188-199 | null throws ArgumentNull and changes nothing; otherwise the vertices are appended in order |
| Drawing.Polyhedron.ClearVertices | X10D/src/Drawing/Polyhedron.cs:204-207 | no vertices are left |
| Drawing.Polyhedron.Equals | X10D/src/Drawing/Polyhedron.cs:223-226 | false for null; otherwise true exactly when the vertex sequences are equal element by element |
| Drawing.Polyhedron.Eq | X10D/src/Drawing/Polyhedron.cs:83-86 | true for two nulls, false when exactly one side is null, otherwise `Equals` |
| Drawing.Polyhedron.Neq | X10D/src/Drawing/Polyhedron.cs:97-100 | the negation of `==` |
| Drawing.EqIsEquivalence | X10D/src/Drawing/Polyhedron.cs:83-86 | `==` is reflexive, symmetric and transitive, null included |
| Drawing.CopyIsIndependent | X10D/src/Drawing/Polyhedron.cs:25-28 | a copy is a separate object: appending to it leaves the original unchanged |
| Drawing.FromPolygon | X10D/src/Drawing/Polyhedron.cs:134-149 | null throws ArgumentNull; otherwise a fresh polyhedron whose vertex i is (x, y, 0) of point i, with count and order kept |
| Drawing.FromPolygonF | X10D/src/Drawing/Polyhedron.cs:157-172 | the same for float points |
| Drawing.ImplicitFromPolygon | X10D/src/Drawing/Polyhedron.cs:110-113 | null converts to null; otherwise a fresh polyhedron whose vertex i is (x, y, 0) of point i, as `FromPolygon` gives |
| Drawing.ImplicitFromPolygonF | X10D/src/Drawing/Polyhedron.cs:123-126 | null converts to null; otherwise a fresh polyhedron whose vertex i is (x, y, 0) of point i, as `FromPolygonF` gives |
| Calendar.AddDays | X10D/src/DateTimeExtensions.cs:43 | the date moves by exactly `days` day numbers; time of day and kind are kept; a result outside years 1 to 9999 throws ArgumentOutOfRange |
| Calendar.AddDaysLands | X10D/src/DateTimeExtensions.cs:43 | moving by `days` reaches exactly the representable date whose day number is `days` more |
| Calendar.DayNumberInjective | X10D/src/DateTimeExtensions.cs:43 | different dates have different day numbers |
| Calendar.YearLength | X10D/src/DateTimeExtensions.cs:52 | a year has 366 days exactly when it is a Gregorian leap year, 365 otherwise |
| Calendar.FirstDayOfMonth | X10D/src/DateTimeExtensions.cs:41-44 | day 1 of the same year and month, with time of day and kind kept |
| Calendar.LastDayOfMonth | X10D/src/DateTimeExtensions.cs:50-56 | day `DaysInMonth(year, month)` of the same month (28 or 29, 30 or 31), with time of day and kind kept |
| Calendar.NextGap | X10D/src/DateTimeExtensions.cs:93-98 | the least positive number of days from one weekday to another: 1 to 7, and 7 for the same weekday |
| Calendar.NextOffset | X10D/src/DateTimeExtensions.cs:93-98 | the source's wrapped difference plus a week equals `NextGap` for every named weekday |
| Calendar.Next | X10D/src/DateTimeExtensions.cs:91-102 | the first date strictly after `current` on the weekday, 1 to 7 days later and 7 when already on it; time of day and kind are kept; it fails only past 9999-12-31 |
| Calendar.First | X10D/src/DateTimeExtensions.cs:25-35 | the earliest date of the month on the weekday, within days 1 to 7, in the same month and at the same time of day |
| Calendar.FirstLands | X10D/src/DateTimeExtensions.cs:29-31 | from a first day not on the weekday, `Next` reaches the first day of the month on it, at most six days in |
| Calendar.Last | X10D/src/DateTimeExtensions.cs:63-70 | it fails only with OverflowException (a weekday difference of int.MinValue) or ArgumentOutOfRange; time of day and kind are kept |
| Calendar.LastResult | X10D/src/DateTimeExtensions.cs:63-70 | for a weekday 0 to 6: stays in the month, among its last seven days; lands on the weekday and is the last such day when the weekday is not after the last day's; otherwise it lands on weekday 2·last − d (mod 7), never the one asked for |
| Calendar.LastStepsBack | X10D/src/DateTimeExtensions.cs:65-69 | for a weekday 0 to 6 the difference does not wrap, and the result is the last day of the month moved back by the absolute difference, in the same month |
| Calendar.LastGap | X10D/src/DateTimeExtensions.cs:68 | stepping back by the absolute weekday difference reaches the weekday with none of the skipped weekdays equal to it when it is not after the last day's; otherwise it reaches 2·last − d (mod 7), which differs from d |
| Calendar.LastLands | X10D/src/DateTimeExtensions.cs:68-69 | where stepping back by the absolute weekday difference lands, in both cases |
| Calendar.LastCorrected | X10D/src/DateTimeExtensions.cs:63-70 | the last date of the month on the weekday, in the same month and at the same time of day |
| Calendar.LastCorrectedResult | X10D/src/DateTimeExtensions.cs:63-70 | stepping back from the last day of the month by the days from the weekday forward to the last day's weekday stays in the month and gives the last date on the weekday |
| Calendar.LastCorrectedLands | X10D/src/DateTimeExtensions.cs:68-69 | stepping back by the days from the weekday to the last day's lands on the weekday with none later in the month |
| Calendar.LastMondayOfApril2023 | X10D/src/DateTimeExtensions.cs:63-70 | from any date of April 2023 (which ends on a Sunday), `Last` asked for Monday gives Saturday the 29th |
| Calendar.LastMondayOfApril2023Corrected | X10D/src/DateTimeExtensions.cs:63-70 | from any date of April 2023, `LastCorrected` asked for Monday gives the 24th, which is a Monday |
| Calendar.LastOfJanuary2000 | X10D.Tests/src/Time/DateTimeTests.cs:120-132 | January 2000 ends on a Monday; `Last` as written gives the 30th, 31st, 30th, 29th, 28th, 27th and 26th for Sunday to Saturday, where the test expects 30, 31, 25, 26, 27, 28 and 29 |
| Calendar.LastOfJanuary2000Corrected | X10D.Tests/src/Time/DateTimeTests.cs:120-132 | `LastCorrected` gives exactly the dates the test expects: 30, 31, 25, 26, 27, 28 and 29 for Sunday to Saturday |
| Calendar.Midnight | X10D/src/DateTimeExtensions.cs:80-83 | the same date at 00:00:00, kind Unspecified |
| Calendar.Noon | X10D/src/DateTimeExtensions.cs:112-115 | the same date at 12:00:00, kind Unspecified |
| TimeSpans.FromUnits | X10D/src/Time/UInt32Extensions.cs:96-153 | a whole count of a unit succeeds exactly when its ticks fit a `long`, and then its total in that unit is the count; otherwise it throws Overflow |
| UInt32Time.IsLeapYear | X10D/src/Time/UInt32Extensions.cs:65-73 | year 0 throws ArgumentOutOfRange; otherwise the Gregorian rule |
| UInt32Time.LeapYearHas366Days | X10D/src/Time/UInt32Extensions.cs:72 | a leap year by this rule has 366 calendar days, any other year 365 |
| UInt32Time.Ticks | X10D/src/Time/UInt32Extensions.cs:82-85 | exactly `value` ticks |
| UInt32Time.Milliseconds | X10D/src/Time/UInt32Extensions.cs:96-99 | total milliseconds equal `value`; never fails |
| UInt32Time.Seconds | X10D/src/Time/UInt32Extensions.cs:110-113 | total seconds equal `value`; never fails |
| UInt32Time.Minutes | X10D/src/Time/UInt32Extensions.cs:124-127 | total minutes equal `value`; never fails |
| UInt32Time.Hours | X10D/src/Time/UInt32Extensions.cs:138-141 | total hours equal `value`; overflows exactly above 256204778 |
| UInt32Time.Days | X10D/src/Time/UInt32Extensions.cs:150-153 | total days equal `value`; overflows exactly above 10675199 |
| UInt32Time.Weeks | X10D/src/Time/UInt32Extensions.cs:164-167 | total days equal `value * 7` wrapped to 32 bits; when the product wraps, a successful result is not `value * 7` days |
| UInt32Time.WeeksAreWrappedDays | X10D/src/Time/UInt32Extensions.cs:166 | `Weeks(v)` is `Days` of `v * 7` modulo 2^32 |
| UInt32Time.WeeksCorrected | X10D/src/Time/UInt32Extensions.cs:164-167 | total days equal `value * 7`; overflows exactly above 1525028 |
| UInt32Time.WeeksAgreeWithoutWrap | X10D/src/Time/UInt32Extensions.cs:166 | without wrap-around, `Weeks`, the corrected version and `Days(7v)` agree |
| UInt32Time.WeeksWrapExample | X10D/src/Time/UInt32Extensions.cs:166 | 613566757 weeks gives three days as written, and an overflow when corrected |
| UInt32Time.UnitsNest | X10D/src/Time/UInt32Extensions.cs:82-153 | each unit is the next smaller one times its factor |
| ByteTime.Ticks | X10D/src/Time/ByteExtensions.cs:13-16 | exactly `value` ticks |
| ByteTime.Milliseconds | X10D/src/Time/ByteExtensions.cs:25-28 | total milliseconds equal `value` |
| ByteTime.Seconds | X10D/src/Time/ByteExtensions.cs:37-40 | total seconds equal `value` |
| ByteTime.Minutes | X10D/src/Time/ByteExtensions.cs:49-52 | total minutes equal `value` |
| ByteTime.Hours | X10D/src/Time/ByteExtensions.cs:61-64 | total hours equal `value` |
| ByteTime.Days | X10D/src/Time/ByteExtensions.cs:71-74 | total days equal `value` |
| ByteTime.Weeks | X10D/src/Time/ByteExtensions.cs:83-86 | total days equal `7 * value` with no wrap-around: seven times `Days(value)` |
| Chars.Copies | X10D/src/CharExtensions/CharExtensions.cs:33 | `count` characters, every one equal to `c` |
| Chars.Repeat | X10D/src/CharExtensions/CharExtensions.cs:16-34 | a negative count throws ArgumentOutOfRange; 0 gives the empty string; 1 gives the character itself; otherwise `count` copies of the character |
| Chars.CopiesAdd | X10D/src/CharExtensions/CharExtensions.cs:33 | `a + b` copies are `a` copies followed by `b` copies |
| Chars.RepeatIsUniform | X10D/src/CharExtensions/CharExtensions.cs:16-34 | every string made of one repeated character is the `Repeat` of it |
| Booleans.ToInt32 | X10D/BooleanExtensions.cs:19-20 | the result is 0 or 1, and non-zero exactly for true |
| Booleans.ToInt32Injective | X10D/BooleanExtensions.cs:19-20 | equal results come from equal booleans, and `!= 0` decodes the result |
| Vector4Ops.Deconstruct | X10D/src/Numerics/Vector4Extensions.cs:22-28 | the four components, in order, rebuild the vector |
| Vector4Ops.WithX | X10D/src/Numerics/Vector4Extensions.cs:72-75 | X is replaced; Y, Z and W are unchanged |
| Vector4Ops.WithY | X10D/src/Numerics/Vector4Extensions.cs:90-93 | Y is replaced; X, Z and W are unchanged |
| Vector4Ops.WithZ | X10D/src/Numerics/Vector4Extensions.cs:108-111 | Z is replaced; X, Y and W are unchanged |
| Vector4Ops.WithW | X10D/src/Numerics/Vector4Extensions.cs:126-129 | W is replaced; X, Y and Z are unchanged |
| Vector4Ops.WithOwnIsIdentity | X10D/src/Numerics/Vector4Extensions.cs:72-129 | writing a component's own value back changes nothing |
| Vector4Ops.LastWriteWins | X10D/src/Numerics/Vector4Extensions.cs:72-129 | of two writes to one component, the last wins |
| Vector4Ops.WritesCommute | X10D/src/Numerics/Vector4Extensions.cs:72-129 | writes to different components commute |

## Left out

- Floating-point arithmetic: `Vector4Extensions.Round`, the `Single`, `Sphere` and `LineF` helpers, and every float value are outside the model; components are only copied or compared.
- Drawing.Polyhedron.Equals: vertices compare by their bit patterns, so +0.0 against -0.0, or two NaNs with different payloads, make it false where `Vector3.Equals` compares the floats and would answer otherwise.
- Chars.Repeat, Chars.Copies: a character is a Unicode scalar value, not C#'s UTF-16 code unit, so lone surrogates such as `'\uD800'` cannot be repeated in the model, while characters above U+FFFF, which C# cannot hold in one `char`, can.
- `Int32Math.CountDigits` for non-zero input, and `GreatestCommonFactor`, `LowestCommonMultiple`, `IsPrime`, `MultiplicativePersistence` and `Wrap`: they call `long` overloads that are not part of this model.
- `GetBytes(value)` and `TryWriteBytes(value, destination)` without an endianness argument: they use the host byte order.
- `DateTimeExtensions.Age` and `ToUnixTimeStamp` (clock and time zone), and the `FromUnixTime*` conversions on `uint`.
- `GetHashCode` and `Equals(object)` of `Polyhedron`: the hash is seeded per process, and a type test on `object` has no counterpart here.
- `Drawing.Polyhedron.AddVertices`: takes the vertices as a value, so passing a polyhedron's own vertex list is not modelled as aliasing.
- The `Polygon` and `PolygonF` classes are not part of this model. They are passed as their sequences of points.
- Linq.Except: the result is computed at once; the deferred execution of `Where` is not modelled.
- `AsReadOnly` on arrays, and the parameter names and messages carried by exceptions (resource strings).
- Calendar.AddDays: throws ArgumentOutOfRange outside years 1 to 9999, the type `DateTime.AddDays` documents. The finer rounding of fractional days does not arise, because every call passes whole days.
- Int32Math.Factorial: the loop counter is modelled without wrap-around, which matters only for `int.MaxValue`. `FactorialLoop` models that case as written, and `FactorialLoopIsFactorial` proves the two agree on every other value.
- ByteMath.Factorial: the counter is modelled wide enough to pass 255. `FactorialLoop` models the wrapping `byte` counter as written, and `FactorialLoopIsFactorial` proves the two agree below 255.
- Int32Math.FactorialLoop, ByteMath.FactorialLoop: run with a fuel bound, and `None` means the loop has not exited within it.
- The comparer is assumed to be a total preorder, as `IComparer<T>` promises, only in the lemmas about the scan's result; the scans themselves accept any comparer.
- The `int` to `float` conversion of a `Point`'s coordinates in `FromPolygon` is a parameter.
- UInt32Time.Hours, UInt32Time.Days: `TimeSpan` overflow is modelled as a `Failure(Overflow)` result, not as a precondition.

## Findings

| source | as written | input that shows it | evidently intended | confidence | as-written member | corrected member |
|---|---|---|---|---|---|---|
| X10D/src/DateTimeExtensions.cs:68-69 | steps back from the last day of the month by the absolute weekday difference | the last Monday of April 2023 (the month ends on Sunday the 30th) gives Saturday the 29th; the last Saturday of January 2000 gives the 26th, where X10D.Tests/src/Time/DateTimeTests.cs:120-132 expects the 29th (and the 25th to 28th for Tuesday to Friday) | step back by the days from the weekday forward to the last day's weekday, giving Monday the 24th and the dates the test expects | high, not executed | Calendar.Last, Calendar.LastResult, Calendar.LastMondayOfApril2023, Calendar.LastOfJanuary2000 | Calendar.LastCorrected, Calendar.LastMondayOfApril2023Corrected, Calendar.LastOfJanuary2000Corrected |
| X10D/src/ArrayExtensions/ArrayExtensions.cs:50 | uses the raw start value of a range even when it counts from the end | `Clear(^2..)` on a five-element array clears elements 2, 3 and 4 | resolve the start against the length too, clearing elements 3 and 4 | high, not executed | ArrayOps.Window, ArrayOps.ClearFromEndStartExample | ArrayOps.ClearRangeCorrected |
| X10D/src/ArrayExtensions/ArrayExtensions.cs:68-87 | documents ArgumentOutOfRange for a window outside the array, but passes the window to `Array.Clear`, which throws IndexOutOfRange | `new int[3].Clear(2, 5)` throws IndexOutOfRange | check the window first and throw ArgumentOutOfRange, as documented | moderate, not executed | ArrayOps.ClearWindow, ArrayOps.ClearPastEndExample | ArrayOps.ClearWindowChecked, ArrayOps.ClearRangeCorrected |
| X10D/src/Math/ByteExtensions.cs:42 | the loop counter is a `byte`, which wraps from 255 to 0 while `i <= value` | `((byte)255).Factorial()` never returns | a counter wide enough to pass the value | high, not executed | ByteMath.FactorialLoopOf255NeverExits, ByteMath.FactorialLoopIsFactorial | ByteMath.Factorial |
| X10D/src/Math/Int32Extensions.cs:65 | the loop counter is an `int`, which wraps from `int.MaxValue` while `i <= value` | `int.MaxValue.Factorial()` never returns | a counter wide enough to pass the value | high, not executed | Int32Math.FactorialLoopOfMaxNeverExits, Int32Math.FactorialLoopIsFactorial | Int32Math.Factorial |
| X10D/src/Time/UInt32Extensions.cs:166 | `value * 7` is computed in 32-bit unsigned arithmetic | `613566757u.Weeks()` is three days | multiply in a wider type, which overflows `TimeSpan` | high, not executed | UInt32Time.Weeks, UInt32Time.WeeksWrapExample | UInt32Time.WeeksCorrected |
| X10D/src/Math/Int32Extensions.cs:38-42 | maps every multiple of 9 to 9, zero included | `0.DigitalRoot()` is 9 | the repeated digit sum of 0, which is 0 | moderate, not executed | Int32Math.DigitalRootOfZero | Int32Math.DigitalRootCorrected |
| X10D/src/Linq/EnumerableExtensions.cs:305-313 | the span scan has no `null` test, while the enumerator scan replaces a `null` running value | `new int?[] { null, 1 }.MinMax()` reports `null` as the minimum, where the same elements as a lazy sequence report 1 | the same null handling on both paths | moderate, not executed | Linq.MinMaxSpan, Linq.SpanPathDisagreesOnNull | Linq.MinMaxSpanCorrected |
