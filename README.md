# Workday calendar

A model of the C# class `WorkdayCalendar`. The class answers one question: which date and time lies a given number of workdays away from a given instant?

The calendar holds:
- a daily work window, start and stop as times of day;
- a list of individual holidays, each matched by date;
- a list of recurring holidays, each matched by month and day in every year.

Saturdays, Sundays and holidays are not workdays. The increment is a fraction of workdays, positive or negative. The fractional part is measured in window time: a quarter of an eight-hour window is two hours.

The model has four files:

- `gregorian.dfy` (module `Gregorian`): dates and times of day.
  - A date is a day number counted from 0001-01-01, which was a Monday. The day of the week follows .NET numbering, with Sunday = 0.
  - Month and day of month come from the proleptic Gregorian calendar, 400-year era by era.
  - A time of day is a real number of seconds in [0, 86400).
  - Also here: `DateTime.Hour`, `DateTime.Minute` and `TimeSpan.Hours`, with C#'s truncating division.
- `workdays.dfy` (module `Workdays`): the calendar state as a value `Calendar`, and every operation as a function on it.
  - The set-up operations are `WithWindow`, `WithHoliday` and `WithRecurringHoliday`.
  - The workday predicates come next.
  - The increment is modelled as one function per stage: `StartDateIncrement`, `StartDateAdjusted`, `NextWorkdayStart`, `PreviousWorkdayStart`, `Walk`, `UpdatedWorkday`, `UpdateTimeFromIncrement` and `WorkdayIncrement`.
  - The file also holds the lemmas about what the increment means. The reference definition is `Distance`, the signed count of workdays between two days.
- `calendar.dfy` (module `WorkdayCalendarNS`): the class `WorkdayCalendar`.
  - Its fields are the window ends and the two holiday lists, and the Set* methods update them.
  - The holiday searches, the day-stepping loops and the whole-workday loop of `GetUpdatedWorkday` are `while` loops with invariants.
  - The `ref` increment of `GetStartDateAdjusted` is an out-parameter.
  - Every method is proved to compute the matching function of `Workdays` on `State()`.
- `scenarios.dfy` (module `Scenarios`): the repository's test scenarios whose expected results are exact in real arithmetic, as lemmas.
  - The increment scenarios are lemmas about `WorkdayIncrement`.
  - The set-up steps of the tests are lemmas about `WithWindow`, `WithRecurringHoliday` and `WithHoliday`.
  - One further scenario, `OvernightWindow`, is not a repository test. It shows how the code treats a window that crosses midnight.

Until a window is set, both window ends hold the sentinel `TimeSpan(-1, -1, -1)`, which is -3661 seconds. `GetWorkdayIncrement` refuses to run while `TimeSpan.Hours` of either end is negative. `ConfiguredIffSet` proves that on every calendar the operations can build, this test says exactly whether a window was set.

The code refuses a window only when start and stop have the same hour and minute. It therefore also accepts a window whose stop is earlier than its start, although the design assumes that stop comes after start. The model follows the code:
- With such a window no instant counts as inside it.
- The remaining fraction is placed backwards from the start time.
- `Scenarios.OvernightWindow` shows that 22:00 plus 0.25 workdays with a 22:00 - 06:00 window gives 18:00 on the next workday, outside the window.

The lemmas that place results inside the window assume `start < stop`.

## Model

| member | source | states |
|---|---|---|
| WorkdayCalendarNS.WorkdayCalendar.constructor | WorkdayCalendar/WorkdayCalendar.cs:272-276 | a new calendar has both window ends at the TimeSpan(-1,-1,-1) sentinel and no holidays, and satisfies the calendar invariant |
| WorkdayCalendarNS.WorkdayCalendar.SetHoliday | WorkdayCalendar/WorkdayCalendar.cs:11-18 | the individual list gains the date exactly when the date is currently a workday; the invariant (no weekend date, no date twice) is kept |
| WorkdayCalendarNS.WorkdayCalendar.SetRecurringHoliday | WorkdayCalendar/WorkdayCalendar.cs:23-30 | the recurring list gains the date exactly when its month and day are not yet a recurring holiday; nothing else changes |
| WorkdayCalendarNS.WorkdayCalendar.SetWorkdayStartAndStop | WorkdayCalendar/WorkdayCalendar.cs:35-46 | equal hour and minute leave the calendar unchanged and report InvalidWindow; otherwise the window ends become the two times of day |
| WorkdayCalendarNS.WorkdayCalendar.GetWorkdayIncrement | WorkdayCalendar/WorkdayCalendar.cs:51-80 | the method's result equals WorkdayIncrement of the calendar state |
| WorkdayCalendarNS.WorkdayCalendar.IsWorkday | WorkdayCalendar/WorkdayCalendar.cs:82-100 | true exactly when the day is not a Saturday or Sunday, not a recurring holiday and not an individual holiday |
| WorkdayCalendarNS.WorkdayCalendar.IsRecurringHoliday | WorkdayCalendar/WorkdayCalendar.cs:102-117 | the linear search finds a stored holiday with the same month and day exactly when one exists |
| WorkdayCalendarNS.WorkdayCalendar.IsIndividualHoliday | WorkdayCalendar/WorkdayCalendar.cs:119-134 | the linear search finds a stored holiday on the same date exactly when one exists |
| WorkdayCalendarNS.WorkdayCalendar.GetStartDateAdjusted | WorkdayCalendar/WorkdayCalendar.cs:149-199 | the anchor and the updated ref increment are those of StartDateAdjusted, including the UnexpectedDate error branch |
| WorkdayCalendarNS.WorkdayCalendar.GetPreviousWorkdayStart | WorkdayCalendar/WorkdayCalendar.cs:201-212 | the result is the window start of the nearest earlier workday: strictly before the date, a workday, and with no workday in between |
| WorkdayCalendarNS.WorkdayCalendar.GetNextWorkdayStart | WorkdayCalendar/WorkdayCalendar.cs:214-225 | the result is the window start of the nearest later workday: strictly after the date, a workday, and with no workday in between |
| WorkdayCalendarNS.WorkdayCalendar.GetUpdatedWorkday | WorkdayCalendar/WorkdayCalendar.cs:233-257 | the two loops take floor(increment) steps, forward or back, then place the remainder in [0, 1); the result equals UpdatedWorkday |
| Gregorian.DayOfWeek | WorkdayCalendar/WorkdayCalendar.cs:86 | DateTime.DayOfWeek: a number in 0 .. 6, computed as (day + 1) mod 7, so Sunday is 0 and 0001-01-01 (day 0) is a Monday |
| Gregorian.DaysFromCivil | WorkdayCalendar/WorkdayCalendar.cs:67-68 | no ensures: the day number of a year, month and day of month in the proleptic Gregorian calendar, as the DateTime constructor takes them |
| Gregorian.CivilFromDays | WorkdayCalendar/WorkdayCalendar.cs:109 | no ensures: the year, month and day of month of a day number, era by era; Month and DayOfMonth read it |
| Gregorian.Month | WorkdayCalendar/WorkdayCalendar.cs:109 | no ensures: DateTime.Month, the month of the day number's civil date; EraPeriodic states its period |
| Gregorian.DayOfMonth | WorkdayCalendar/WorkdayCalendar.cs:109 | no ensures: DateTime.Day, the day of month of the day number's civil date; EraPeriodic states its period |
| Gregorian.Hour | WorkdayCalendar/WorkdayCalendar.cs:37 | no ensures: DateTime.Hour, the whole hours of the time of day; HourOfMinute and SameHourMinuteIffSameMinute relate it to the minute of the day |
| Gregorian.Minute | WorkdayCalendar/WorkdayCalendar.cs:37 | no ensures: DateTime.Minute, the whole minutes of the time of day modulo 60 |
| Gregorian.AddDays | WorkdayCalendar/WorkdayCalendar.cs:205-208 | DateTime.AddDays by whole days: the day of the week advances by n modulo 7 |
| Gregorian.TimeSpanHours | WorkdayCalendar/WorkdayCalendar.cs:57 | for a time of day, the whole hours; for the sentinel (or any span up to a day ending at least an hour before zero), a negative number |
| Gregorian.SameHourMinuteIffSameMinute | WorkdayCalendar/WorkdayCalendar.cs:37 | hour and minute both agree exactly when the two times fall in the same minute of the day |
| Gregorian.EraPeriodic | WorkdayCalendar/WorkdayCalendar.cs:109 | month, day of month and day of week repeat every 146097 days, forward and backward |
| Workdays.Configured | WorkdayCalendar/WorkdayCalendar.cs:57 | no ensures: the test that neither window end has negative TimeSpan.Hours; ConfiguredIffSet says when it holds |
| Workdays.SameHourMinute | WorkdayCalendar/WorkdayCalendar.cs:37 | no ensures: both times have the same hour and the same minute; WithWindowFailsIffSameMinute restates it as the same minute of the day |
| Workdays.Valid | WorkdayCalendar/WorkdayCalendar.cs:11-30 | no ensures: the calendar invariant the constructor establishes and the Set* methods keep: the window is unset or two times of day differing in hour or minute, no individual holiday is on a weekend, no date is twice among the individual holidays and no month and day twice among the recurring ones |
| Workdays.ConfiguredIffSet | WorkdayCalendar/WorkdayCalendar.cs:57 | on a valid calendar the negative-hours test fails exactly when a window was set, and then both ends are distinct times of day |
| Workdays.WithWindow | WorkdayCalendar/WorkdayCalendar.cs:35-46 | fails (InvalidWindow) exactly when hour and minute agree; otherwise sets both ends, keeps the holidays, and yields a ready calendar |
| Workdays.WithWindowFailsIffSameMinute | WorkdayCalendar/WorkdayCalendar.cs:37 | the window is refused exactly when start and stop fall in the same minute of the day |
| Workdays.WithHoliday | WorkdayCalendar/WorkdayCalendar.cs:11-18 | afterwards the workdays are the former workdays except the date; the window and recurring holidays are unchanged; the invariant is kept |
| Workdays.WithRecurringHoliday | WorkdayCalendar/WorkdayCalendar.cs:23-30 | afterwards the recurring holidays are the former ones plus the date's month and day, and the workdays lose every day of that month and day |
| Workdays.IsWeekend | WorkdayCalendar/WorkdayCalendar.cs:86 | no ensures: the day of the week is Saturday or Sunday |
| Workdays.SameMonthDay | WorkdayCalendar/WorkdayCalendar.cs:109 | no ensures: both days have the same month and the same day of month |
| Workdays.IsRecurringHoliday | WorkdayCalendar/WorkdayCalendar.cs:102-117 | no ensures (reference predicate): some stored recurring holiday has the day's month and day of month |
| Workdays.IsIndividualHoliday | WorkdayCalendar/WorkdayCalendar.cs:119-134 | no ensures (reference predicate): some stored individual holiday falls on the day's date |
| Workdays.IsWorkday | WorkdayCalendar/WorkdayCalendar.cs:82-100 | no ensures (reference predicate): not a Saturday or Sunday, not a recurring holiday, not an individual holiday; the class method is proved equal to it |
| Workdays.WithHolidayIdempotent | WorkdayCalendar/WorkdayCalendar.cs:13-17 | setting the same individual holiday twice is the same as once |
| Workdays.WithRecurringHolidayIdempotent | WorkdayCalendar/WorkdayCalendar.cs:25-29 | setting the same recurring holiday twice is the same as once |
| Workdays.IsWithinWorkday | WorkdayCalendar/WorkdayCalendar.cs:136-139 | no ensures: the closed-window test start <= t <= stop; StopIsNextStart and OvernightWindow state its consequences |
| Workdays.WindowSpan | WorkdayCalendar/WorkdayCalendar.cs:143 | no ensures: the window length m_Stop - m_Start in seconds, negative for a window that crosses midnight |
| Workdays.StartDateIncrement | WorkdayCalendar/WorkdayCalendar.cs:141-147 | the fraction times the window span is the time elapsed since the window start; inside the window it is in [0, 1] (in [0, 1) before the stop) |
| Workdays.StartDateIncrementInjective | WorkdayCalendar/WorkdayCalendar.cs:141-147 | two times of day with the same elapsed fraction are equal |
| Workdays.FractionAtStop | WorkdayCalendar/WorkdayCalendar.cs:141-147 | at the window stop the elapsed fraction is exactly 1 |
| Workdays.SecondsToUpdate | WorkdayCalendar/WorkdayCalendar.cs:266-267 | a fraction in [0, 1) of the span covers between 0 and the span seconds (backwards for a window that wraps midnight) |
| Workdays.UpdateNegativeIncrement | WorkdayCalendar/WorkdayCalendar.cs:227-231 | no ensures: adds one workday, turning an increment counted from the window stop into one counted from the window start; StartDateAdjusted and StartDateAdjustedMeaning state where it applies |
| Workdays.IsPositiveFraction | WorkdayCalendar/WorkdayCalendar.cs:259-262 | no ensures: the test 0 <= value < 1 that ends the stepping loops; its partner is PositiveFractionIffNoWholeDay |
| Workdays.PositiveFractionIffNoWholeDay | WorkdayCalendar/WorkdayCalendar.cs:259-262 | the loops stop exactly when the floor of the increment left is 0, that is, when no whole workday remains |
| Workdays.UpdateTimeFromIncrement | WorkdayCalendar/WorkdayCalendar.cs:264-270 | the result stays on the workday's date, its elapsed fraction is the given increment, and with start < stop it lies in [start, stop) |
| Workdays.NextWorkday | WorkdayCalendar/WorkdayCalendar.cs:214-225 | the first workday strictly after the day: a workday, with no workday in between |
| Workdays.PreviousWorkday | WorkdayCalendar/WorkdayCalendar.cs:201-212 | the last workday strictly before the day: a workday, with no workday in between |
| Workdays.NextWorkdayStart | WorkdayCalendar/WorkdayCalendar.cs:214-225 | the window start of a workday strictly after the date, with no workday in between |
| Workdays.PreviousWorkdayStart | WorkdayCalendar/WorkdayCalendar.cs:201-212 | the window start of a workday strictly before the date, with no workday in between |
| Workdays.NextPreviousInverse | WorkdayCalendar/WorkdayCalendar.cs:201-225 | from a workday, stepping to the next workday and back, or back and forward, returns to it |
| Workdays.StepDistance | WorkdayCalendar/WorkdayCalendar.cs:201-225 | the next workday is exactly one workday away and the previous one exactly minus one |
| Workdays.Walk | WorkdayCalendar/WorkdayCalendar.cs:239-253 | k iterations of the stepping loops: k next-workday-start steps for k > 0, -k previous ones for k < 0; after any step the time is the window start |
| Workdays.WalkDistance | WorkdayCalendar/WorkdayCalendar.cs:237-254 | k iterations of the stepping loop from a workday end on a workday at signed workday distance k |
| Workdays.UpdatedWorkday | WorkdayCalendar/WorkdayCalendar.cs:233-257 | ghost, no ensures: floor(x) walk steps, then the remainder in [0, 1) placed in the window; its meaning is UpdatedWorkdayMeaning |
| Workdays.UpdatedWorkdayMeaning | WorkdayCalendar/WorkdayCalendar.cs:233-257 | from a workday start, the result is on a workday, its workday distance plus its elapsed fraction equals the increment, and with start < stop it lies in the window |
| Workdays.SignSymmetry | WorkdayCalendar/WorkdayCalendar.cs:233-257 | a fraction r from a workday start and r - 1 from the next workday start reach the same instant |
| Workdays.StartDateAdjusted | WorkdayCalendar/WorkdayCalendar.cs:149-199 | fails, with UnexpectedDate, exactly when the instant is inside a workday's window; otherwise the anchor is a workday's window start, and the increment is kept when non-negative and raised by 1 when negative |
| Workdays.StartDateAdjustedMeaning | WorkdayCalendar/WorkdayCalendar.cs:149-199 | outside a workday's window the UnexpectedDate branch is never taken; the anchor is a workday start, a non-negative increment is kept (anchor not earlier) and a negative one is raised by 1 (anchor not later) |
| Workdays.WorkdayIncrement | WorkdayCalendar/WorkdayCalendar.cs:51-80 | fails exactly when no window is set, and then with WindowNotSet; any result is on a workday |
| Workdays.UnsetWindowFails | WorkdayCalendar/WorkdayCalendar.cs:57-60 | a calendar whose window was never set refuses every increment |
| Workdays.WorkdayIncrementFromWindow | WorkdayCalendar/WorkdayCalendar.cs:63-71 | from inside a workday's window, the result is a workday instant in the window, and the workday distance plus the change in elapsed fraction is the increment |
| Workdays.WorkdayIncrementFromOutside | WorkdayCalendar/WorkdayCalendar.cs:72-76 | from outside any workday window, the result is a workday instant in the window, at the increment (plus 1 when negative) from the normalised anchor |
| Workdays.RoundTrip | WorkdayCalendar/WorkdayCalendar.cs:51-80 | from an instant in a workday's window, going x workdays and then -x returns to the same instant |
| Workdays.ZeroIncrementIdentity | WorkdayCalendar/WorkdayCalendar.cs:51-80 | an increment of 0 from an instant in a workday's window (before the stop) returns it unchanged |
| Workdays.StopIsNextStart | WorkdayCalendar/WorkdayCalendar.cs:136-139 | the window is closed: an instant exactly at the stop counts as inside, and 0 from it gives the next workday's start |
| Workdays.UnboundedIffFreeWeekday | WorkdayCalendar/WorkdayCalendar.cs:201-225 | the day-stepping loops always find a workday, in both directions, exactly when some weekday's month and day is not a recurring holiday |
| Workdays.UnboundedWithoutRecurring | WorkdayCalendar/WorkdayCalendar.cs:201-225 | with no recurring holidays, individual holidays alone never exhaust the workdays |
| Scenarios.StartTimeSameAsStopTime | WorkdayCalendarTests/WorkdayCalendarTests.cs:10-17 | 18:05 as both start and stop is refused with InvalidWindow |
| Scenarios.SetWorkdayStartAndStopNotCalled | WorkdayCalendarTests/WorkdayCalendarTests.cs:20-28 | a new calendar refuses an increment with WindowNotSet |
| Scenarios.SetEightToFour | WorkdayCalendarTests/WorkdayCalendarTests.cs:35-38 | setting 08:00 and 16:00 on a new calendar gives the 08:00 - 16:00 window |
| Scenarios.HolidayLists | WorkdayCalendarTests/WorkdayCalendarTests.cs:40-41 | recurring 17 May and then individual 2004-05-27 are both stored |
| Scenarios.TestCase1 | WorkdayCalendarTests/WorkdayCalendarTests.cs:31-52 | Monday 2004-05-24 18:05 minus 5.5 workdays is Friday 2004-05-14 12:00 |
| Scenarios.TestCase6 | WorkdayCalendarTests/WorkdayCalendarTests.cs:127-148 | Monday 2004-05-24 15:07 plus 0.25 workdays is Tuesday 2004-05-25 09:07 |
| Scenarios.IncrementBeforeStartOfWorkday | WorkdayCalendarTests/WorkdayCalendarTests.cs:151-169 | 07:00 on a workday plus 0 is 08:00 the same day |
| Scenarios.DecrementBeforeStartOfWorkday | WorkdayCalendarTests/WorkdayCalendarTests.cs:172-190 | 07:00 on a workday minus 0.5 is 12:00 the workday before |
| Scenarios.IncrementAfterEndOfWorkday | WorkdayCalendarTests/WorkdayCalendarTests.cs:193-211 | 18:00 on a workday plus 0.5 is 12:00 the next workday |
| Scenarios.DecrementAfterEndOfWorkday | WorkdayCalendarTests/WorkdayCalendarTests.cs:214-232 | 18:00 on a workday minus 0.5 is 12:00 the same day |
| Scenarios.IncrementInWorkday | WorkdayCalendarTests/WorkdayCalendarTests.cs:235-253 | 12:00 plus 0.25 is 14:00 the same day |
| Scenarios.DecrementInWorkday | WorkdayCalendarTests/WorkdayCalendarTests.cs:256-274 | 12:00 minus 0.25 is 10:00 the same day |
| Scenarios.IncrementFromHoliday | WorkdayCalendarTests/WorkdayCalendarTests.cs:277-296 | 12:00 on a recurring holiday plus 0.5 is 12:00 the next day |
| Scenarios.DecrementFromHoliday | WorkdayCalendarTests/WorkdayCalendarTests.cs:299-318 | 12:00 on a recurring holiday minus 0.5 is 12:00 the previous day |
| Scenarios.ShortWorkday | WorkdayCalendarTests/WorkdayCalendarTests.cs:321-339 | with a 00:00 - 00:10 window, 00:00 plus 1.5 is 00:05 the next workday |
| Scenarios.LongWorkday | WorkdayCalendarTests/WorkdayCalendarTests.cs:342-360 | with a 00:00 - 20:00 window, 00:00 plus 1.5 is 10:00 the next workday |
| Scenarios.OvernightWindow | WorkdayCalendar/WorkdayCalendar.cs:37-44 | a 22:00 - 06:00 window is accepted, contains no instant, and 22:00 plus 0.25 gives 18:00 the next workday |

## Left out

- Single-precision arithmetic: the increment is a C# `float`, and the fractions pass through `float` casts. The model uses exact reals.
- TestCase2, TestCase4 and TestCase5 (WorkdayCalendarTests.cs:55-124) are not stated as lemmas. Their increments are single-precision decimals that the model does not reproduce.
- Sub-second precision and rounding: the model takes the window ends and the increment's seconds exactly. Two things are not captured:
  - `TimeSpan.FromSeconds` rounds to whole milliseconds;
  - the anchors built from `m_Start.Hours`, `Minutes` and `Seconds` drop any milliseconds of the window start.
- The range of `DateTime` (years 1 to 9999) is not modelled: day numbers are unbounded, so `AddDays` and the `DateTime` constructor never overflow.
- Exceptions are modelled as `Failure` results: `ArgumentException` becomes `InvalidWindow` or `UnexpectedDate`, and `NotSupportedException` becomes `WindowNotSet`.
- WorkdayCalendarNS.WorkdayCalendar.GetWorkdayIncrement: requires that workdays never run out before or after any day, once a window is set. The source's day-stepping loops have no bound. Without workdays they would run until `DateTime` overflows, which is not modelled. `Workdays.UnboundedIffFreeWeekday` shows when the requirement holds: some weekday's month and day must not be a recurring holiday.
- WorkdayCalendarNS.WorkdayCalendar.GetStartDateAdjusted: requires a set window and that workdays never run out before or after any day (WorkdaysUnbounded), the same requirement `GetWorkdayIncrement` makes. Every call site in the class guarantees both, since this private method is reached only from `GetWorkdayIncrement` after its window check.
- WorkdayCalendarNS.WorkdayCalendar.GetPreviousWorkdayStart: requires a set window and some workday before the date (HasWorkdayBefore). Every call site in the class guarantees both: each is reached only after `GetWorkdayIncrement` has checked the window, and under WorkdaysUnbounded.
- WorkdayCalendarNS.WorkdayCalendar.GetNextWorkdayStart: requires a set window and some workday after the date (HasWorkdayAfter). Every call site in the class guarantees both: each is reached only after `GetWorkdayIncrement` has checked the window, and under WorkdaysUnbounded.
- WorkdayCalendarNS.WorkdayCalendar.GetUpdatedWorkday: requires a set window and that workdays never run out before or after any day (WorkdaysUnbounded), the same requirement `GetWorkdayIncrement` makes. Every call site in the class guarantees both, since this private method is reached only from `GetWorkdayIncrement` after its window check.
- The class's thread safety and the NUnit harness are not modelled. The test scenarios are stated on the model's functions: the set-up steps become the `With*` functions and `WorkdayIncrement`.
