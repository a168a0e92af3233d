// TimeUtil: millisecond constants and the millisecond-in-day arithmetic over
// the fields of a calendar. The calendar is given by its fields and its epoch
// milliseconds; getMillisecondInDay computes in Java int arithmetic, which
// wraps at 32 bits, and widens the sum to long.

module TimeUtil {

  const MsInSecond: int := 1000
  const MsInMinute: int := MsInSecond * 60
  const MsInHour: int := MsInMinute * 60
  const MsInDay: int := MsInHour * 24

  /** The fields getMillisecondInDay reads, and getTimeInMillis. */
  datatype Calendar = Calendar(
    hour: int,        // HOUR, 0..11
    pm: bool,         // AM_PM == PM
    minute: int,
    second: int,
    millisecond: int,
    epochMillis: int)

  /** Java int arithmetic: the value modulo 2^32, read as two's complement. */
  function Int32(x: int): (r: int)
    ensures -0x8000_0000 <= r < 0x8000_0000
  {
    var m := x % 0x1_0000_0000;
    if m < 0x8000_0000 then m else m - 0x1_0000_0000
  }

  /** The wrapped value differs from the exact one by a multiple of 2^32. */
  lemma Int32Congruent(x: int)
    ensures (Int32(x) - x) % 0x1_0000_0000 == 0
  {
  }

  lemma Int32InRange(x: int)
    requires -0x8000_0000 <= x < 0x8000_0000
    ensures Int32(x) == x
  {
  }

  /**
   * The 24-hour hour: HOUR plus 12 in the afternoon. For an HOUR in 0..11 it
   * is the hour of the day, whose remainder by 12 is HOUR and which is 12 or
   * more exactly in the afternoon.
   */
  function Hour24(cal: Calendar): (h: int)
    ensures 0 <= cal.hour < 12 ==> 0 <= h < 24 && h % 12 == cal.hour && (h >= 12 <==> cal.pm)
  {
    if cal.pm then Int32(cal.hour + 12) else cal.hour
  }

  /**
   * getMillisecondInDay: every product and every sum, the millisecond field
   * included, is an int; only the final value is widened to long, so it
   * always lies in the int range.
   */
  function MillisecondInDay(cal: Calendar): (ms: int)
    ensures -0x8000_0000 <= ms < 0x8000_0000
  {
    var h := Hour24(cal);
    var hours := Int32(Int32(Int32(h * 60) * 60) * 1000);
    var minutes := Int32(Int32(cal.minute * 60) * 1000);
    var seconds := Int32(cal.second * 1000);
    Int32(Int32(Int32(hours + minutes) + seconds) + cal.millisecond)
  }

  /**
   * getTimeBeforeTodayInMilliseconds: the calendar's instant less its
   * millisecond in the day. For fields in range it is at most the instant and
   * less than a day before it.
   */
  function TimeBeforeToday(cal: Calendar): (t: int)
    ensures FieldsInRange(cal) ==> cal.epochMillis - MsInDay < t <= cal.epochMillis
  {
    if FieldsInRange(cal) then
      MillisecondInDayInRange(cal);
      cal.epochMillis - MillisecondInDay(cal)
    else
      cal.epochMillis - MillisecondInDay(cal)
  }

  predicate FieldsInRange(cal: Calendar)
  {
    0 <= cal.hour < 12 && 0 <= cal.minute < 60 && 0 <= cal.second < 60 && 0 <= cal.millisecond < 1000
  }

  /**
   * For fields a calendar can hold, no int product overflows: the result is
   * the plain sum hour*MS_IN_HOUR + minute*MS_IN_MINUTE + second*MS_IN_SECOND
   * + millisecond, and lies in [0, MS_IN_DAY).
   */
  lemma MillisecondInDayInRange(cal: Calendar)
    requires FieldsInRange(cal)
    ensures var h := if cal.pm then cal.hour + 12 else cal.hour;
      MillisecondInDay(cal) == h * MsInHour + cal.minute * MsInMinute + cal.second * MsInSecond + cal.millisecond
    ensures 0 <= MillisecondInDay(cal) < MsInDay
  {
    assert MsInSecond == 1000 && MsInMinute == 60_000 && MsInHour == 3_600_000 && MsInDay == 86_400_000;
    var h := if cal.pm then cal.hour + 12 else cal.hour;
    Int32InRange(cal.hour + 12);
    assert Hour24(cal) == h && 0 <= h < 24;
    HoursAsInt(h);
    MinutesAsInt(cal.minute);
    Int32InRange(cal.second * 1000);
    SumAsInt(h * 3600000, cal.minute * 60000, cal.second * 1000, cal.millisecond);
  }

  lemma SumAsInt(hours: int, minutes: int, seconds: int, millis: int)
    requires 0 <= hours <= 23 * 3600000 && 0 <= minutes <= 59 * 60000 && 0 <= seconds <= 59 * 1000
    requires 0 <= millis < 1000
    ensures Int32(Int32(Int32(hours + minutes) + seconds) + millis) == hours + minutes + seconds + millis
  {
    Int32InRange(hours + minutes);
    Int32InRange(hours + minutes + seconds);
    Int32InRange(hours + minutes + seconds + millis);
  }

  lemma HoursAsInt(h: int)
    requires 0 <= h < 24
    ensures Int32(Int32(Int32(h * 60) * 60) * 1000) == h * 3600000
  {
    Int32InRange(h * 60);
    Int32InRange(h * 60 * 60);
    Int32InRange(h * 60 * 60 * 1000);
  }

  lemma MinutesAsInt(m: int)
    requires 0 <= m < 60
    ensures Int32(Int32(m * 60) * 1000) == m * 60000
  {
    Int32InRange(m * 60);
    Int32InRange(m * 60 * 1000);
  }

  /** The fields of the UTC calendar at `epochMillis`. */
  function UtcCalendar(epochMillis: int): (cal: Calendar)
    ensures FieldsInRange(cal) && cal.epochMillis == epochMillis
  {
    var d := epochMillis % 86_400_000;
    var h := d / 3_600_000;
    var inHour := d % 3_600_000;
    var inMinute := inHour % 60_000;
    Calendar(h % 12, h >= 12, inHour / 60_000, inMinute / 1000, inMinute % 1000, epochMillis)
  }

  /** HOUR and AM_PM give back the hour of the day. */
  lemma HourOfDay(h: int)
    requires 0 <= h < 24
    ensures (if h >= 12 then h % 12 + 12 else h % 12) == h
  {
  }

  /** A time of day is its hours, minutes, seconds and milliseconds. */
  lemma TimeOfDayDigits(d: int)
    requires 0 <= d < 86_400_000
    ensures var inHour := d % 3_600_000; var inMinute := inHour % 60_000;
      d == (d / 3_600_000) * 3_600_000 + (inHour / 60_000) * 60_000 + (inMinute / 1000) * 1000 + inMinute % 1000
  {
  }

  /** The instant less its time since midnight is a whole number of days. */
  lemma MidnightIsWholeDays(epochMillis: int)
    ensures (epochMillis - epochMillis % 86_400_000) % 86_400_000 == 0
  {
    var days := epochMillis / 86_400_000;
    assert epochMillis - epochMillis % 86_400_000 == days * 86_400_000;
  }

  /**
   * On the UTC calendar getMillisecondInDay is the time since midnight UTC,
   * and getTimeBeforeTodayInMilliseconds is that midnight.
   */
  lemma UtcMidnight(epochMillis: int)
    ensures MillisecondInDay(UtcCalendar(epochMillis)) == epochMillis % MsInDay
    ensures TimeBeforeToday(UtcCalendar(epochMillis)) == epochMillis - epochMillis % MsInDay
    ensures TimeBeforeToday(UtcCalendar(epochMillis)) % MsInDay == 0
  {
    assert MsInSecond == 1000 && MsInMinute == 60_000 && MsInHour == 3_600_000 && MsInDay == 86_400_000;
    var cal := UtcCalendar(epochMillis);
    var d := epochMillis % 86_400_000;
    assert MillisecondInDay(cal) == d by {
      HourOfDay(d / 3_600_000);
      MillisecondInDayInRange(cal);
      TimeOfDayDigits(d);
    }
    MidnightIsWholeDays(epochMillis);
  }
}
