/** Time extensions on `byte` (Time/ByteExtensions.cs). A byte count of any
    unit fits a TimeSpan, so none of these can fail. */
module ByteTime {
  import opened Common
  import opened TimeSpans

  function Ticks(value: Byte): (r: TimeSpan)
    ensures IsWhole(r, 1, value)
  {
    FromTicks(value)
  }

  function Milliseconds(value: Byte): (r: TimeSpan)
    ensures IsWhole(r, TicksPerMillisecond, value)
  {
    FromMilliseconds(value).value
  }

  function Seconds(value: Byte): (r: TimeSpan)
    ensures IsWhole(r, TicksPerSecond, value)
  {
    FromSeconds(value).value
  }

  function Minutes(value: Byte): (r: TimeSpan)
    ensures IsWhole(r, TicksPerMinute, value)
  {
    FromMinutes(value).value
  }

  function Hours(value: Byte): (r: TimeSpan)
    ensures IsWhole(r, TicksPerHour, value)
  {
    FromHours(value).value
  }

  function Days(value: Byte): (r: TimeSpan)
    ensures IsWhole(r, TicksPerDay, value)
  {
    FromDays(value).value
  }

  /** `value * 7` is promoted to int, so it cannot wrap: a week count is
      seven times the day count. */
  function Weeks(value: Byte): (r: TimeSpan)
    ensures IsWhole(r, TicksPerDay, value * 7)
    ensures r.ticks == 7 * Days(value).ticks
  {
    FromDays(value * 7).value
  }
}
