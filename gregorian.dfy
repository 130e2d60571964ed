/**
 * Dates and times of day as the calendar sees them.
 *
 * A date is a day number: the number of days since 0001-01-01 in the proleptic
 * Gregorian calendar, which is what a .NET DateTime's Ticks divided by the ticks
 * of one day give. A time of day is a number of seconds in [0, 86400). A
 * DateTime is the pair of the two.
 */
module Gregorian {

  const SecondsPerDay: real := 86400.0

  /** Seconds since midnight. */
  type TimeOfDay = t: real | 0.0 <= t < SecondsPerDay

  /** An instant: the day number and the time of day on that day. */
  datatype DateTime = DateTime(day: int, time: TimeOfDay)

  /** Day-of-week numbers as .NET numbers them. */
  const Sunday := 0
  const Saturday := 6

  /** Day of the week of a day number; 0001-01-01 (day 0) was a Monday. */
  function DayOfWeek(day: int): (w: int)
    ensures 0 <= w < 7
  {
    (day + 1) % 7
  }

  /** The day number of a civil date (year, month 1..12, day of month). */
  function DaysFromCivil(year: int, month: int, dayOfMonth: int): int
  {
    var y := if month <= 2 then year - 1 else year;
    var era := y / 400;
    var yoe := y - era * 400;
    var mp := if month > 2 then month - 3 else month + 9;
    var doy := (153 * mp + 2) / 5 + dayOfMonth - 1;
    var doe := yoe * 365 + yoe / 4 - yoe / 100 + doy;
    era * 146097 + doe - 306
  }

  /**
   * The civil date (year, month, day of month) of a day number. An era is the
   * 400-year cycle of the Gregorian calendar, 146097 days.
   */
  function CivilFromDays(day: int): (int, int, int)
  {
    var z := day + 306;
    var ymd := CivilFromDayOfEra(z % 146097);
    var y := ymd.0 + (z / 146097) * 400;
    (if ymd.1 <= 2 then y + 1 else y, ymd.1, ymd.2)
  }

  /** Year of the era, month and day of month of a day of an era counted from 1 March. */
  function CivilFromDayOfEra(doe: int): (int, int, int)
  {
    var yoe := (doe - doe / 1460 + doe / 36524 - doe / 146096) / 365;
    var doy := doe - (365 * yoe + yoe / 4 - yoe / 100);
    var mp := (5 * doy + 2) / 153;
    var d := doy - (153 * mp + 2) / 5 + 1;
    var m := if mp < 10 then mp + 3 else mp - 9;
    (yoe, m, d)
  }

  /** The calendar repeats every era, forward and backward. */
  lemma EraPeriodic(day: int, m: int)
    ensures Month(day + 146097 * m) == Month(day)
    ensures DayOfMonth(day + 146097 * m) == DayOfMonth(day)
    ensures DayOfWeek(day + 146097 * m) == DayOfWeek(day)
  {
    SameDayOfEra(day + 306, m);
    assert (day + 146097 * m + 306) % 146097 == (day + 306) % 146097;
    WholeWeeks(day, m);
  }

  lemma SameDayOfEra(z: int, m: int)
    ensures (z + 146097 * m) % 146097 == z % 146097
  {
  }

  /** An era is 20871 weeks. */
  lemma WholeWeeks(day: int, m: int)
    ensures DayOfWeek(day + 146097 * m) == DayOfWeek(day)
  {
    assert day + 146097 * m + 1 == (day + 1) + 7 * (20871 * m);
  }

  function Month(day: int): int
  {
    CivilFromDays(day).1
  }

  function DayOfMonth(day: int): int
  {
    CivilFromDays(day).2
  }

  /** DateTime.AddDays for a whole number of days: the time of day is kept. */
  function AddDays(t: DateTime, n: int): (r: DateTime)
    ensures DayOfWeek(r.day) == (DayOfWeek(t.day) + n) % 7
  {
    DateTime(t.day + n, t.time)
  }

  /** DateTime.Hour and DateTime.Minute of a time of day. */
  function Hour(t: TimeOfDay): int
  {
    (t / 3600.0).Floor
  }

  function Minute(t: TimeOfDay): int
  {
    (t / 60.0).Floor % 60
  }

  /** The minute of the day a time of day falls in, 0 .. 1439. */
  function MinuteOfDay(t: TimeOfDay): int
  {
    (t / 60.0).Floor
  }

  /**
   * Hour and minute agree exactly when both times fall in the same minute of
   * the day: the seconds are what is left out of the comparison.
   */
  lemma SameHourMinuteIffSameMinute(a: TimeOfDay, b: TimeOfDay)
    ensures (Hour(a) == Hour(b) && Minute(a) == Minute(b)) <==> MinuteOfDay(a) == MinuteOfDay(b)
  {
    HourOfMinute(a);
    HourOfMinute(b);
  }

  lemma HourOfMinute(t: TimeOfDay)
    ensures Hour(t) == MinuteOfDay(t) / 60
    ensures Minute(t) == MinuteOfDay(t) % 60
  {
    var m := MinuteOfDay(t);
    var h := m / 60;
    assert 60 * h <= m < 60 * h + 60;
    assert 60.0 * m as real <= t < 60.0 * m as real + 60.0;
    assert 3600.0 * h as real <= t < 3600.0 * h as real + 3600.0;
  }

  /** C# integer division and remainder, which truncate toward zero. */
  function TruncDiv(a: int, b: int): int
    requires b > 0
  {
    if a >= 0 then a / b else -((-a) / b)
  }

  function TruncRem(a: int, b: int): int
    requires b > 0
  {
    a - b * TruncDiv(a, b)
  }

  /**
   * TimeSpan.Hours of a span of the given number of seconds: the whole hours,
   * truncated toward zero, reduced modulo 24 with C#'s remainder.
   */
  function TimeSpanHours(seconds: real): (h: int)
    ensures 0.0 <= seconds < SecondsPerDay ==> h == (seconds / 3600.0).Floor
    ensures -SecondsPerDay < seconds <= -3600.0 ==> h < 0
  {
    var wholeHours := if seconds >= 0.0 then (seconds / 3600.0).Floor else -((-seconds) / 3600.0).Floor;
    TruncRem(wholeHours, 24)
  }
}
