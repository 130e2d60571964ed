/**
 * The calendar's own test scenarios whose expected results are exact in real
 * arithmetic, stated on the model: each lemma names the calendar, the start
 * instant and the increment, and fixes the resulting date and time of day.
 */
module Scenarios {
  import opened Gregorian
  import opened Workdays

  /** Window 08:00 - 16:00, no holidays. */
  const EightToFour := Calendar(28800.0, 57600.0, [], [])

  /** Window 00:00 - 00:10, no holidays. */
  const TenMinutes := Calendar(0.0, 600.0, [], [])

  /** Window 00:00 - 20:00, no holidays. */
  const TwentyHours := Calendar(0.0, 72000.0, [], [])

  /** Tuesday 2022-02-08, Wednesday 2022-02-09 and Thursday 2022-02-10. */
  const Feb8 := DaysFromCivil(2022, 2, 8)
  const Feb9 := DaysFromCivil(2022, 2, 9)
  const Feb10 := DaysFromCivil(2022, 2, 10)

  /** A calendar fit for the increment: valid, window set, workdays never run out. */
  ghost predicate Usable(c: Calendar)
  {
    Ready(c) && WorkdaysUnbounded(c)
  }

  lemma UsableWithoutHolidays(c: Calendar)
    requires c.individual == [] && c.recurring == []
    requires 0.0 <= c.start < SecondsPerDay && 0.0 <= c.stop < SecondsPerDay
    requires !SameHourMinute(c.start, c.stop)
    ensures Usable(c)
  {
    UnboundedWithoutRecurring(c);
  }

  /** When the day after is a workday, it is the next workday. */
  lemma NextIsTomorrow(c: Calendar, day: int)
    requires IsWorkday(c, day + 1)
    ensures HasWorkdayAfter(c, day) && NextWorkday(c, day) == day + 1
  {
    assert HasWorkdayAfter(c, day);
  }

  /** When the day before is a workday, it is the previous workday. */
  lemma PreviousIsYesterday(c: Calendar, day: int)
    requires IsWorkday(c, day - 1)
    ensures HasWorkdayBefore(c, day) && PreviousWorkday(c, day) == day - 1
  {
    assert HasWorkdayBefore(c, day);
  }

  /** The three days are consecutive workdays of an empty calendar. */
  lemma Week()
    ensures Feb8 == 738193 && Feb9 == Feb8 + 1 && Feb10 == Feb9 + 1
    ensures DayOfWeek(Feb8) == 2 && DayOfWeek(Feb9) == 3 && DayOfWeek(Feb10) == 4
  {
  }

  /** 07:00 on a workday plus 0 is 08:00 the same day. */
  lemma IncrementBeforeStartOfWorkday()
    ensures Usable(EightToFour)
    ensures WorkdayIncrement(EightToFour, DateTime(Feb9, 25200.0), 0.0)
         == Success(DateTime(Feb9, 28800.0))
  {
    UsableWithoutHolidays(EightToFour);
    Week();
  }

  /** 07:00 on a workday minus 0.5 is 12:00 the workday before. */
  lemma DecrementBeforeStartOfWorkday()
    ensures Usable(EightToFour)
    ensures WorkdayIncrement(EightToFour, DateTime(Feb9, 25200.0), -0.5)
         == Success(DateTime(Feb8, 43200.0))
  {
    UsableWithoutHolidays(EightToFour);
    Week();
    PreviousIsYesterday(EightToFour, Feb9);
  }

  /** 18:00 on a workday plus 0.5 is 12:00 the workday after. */
  lemma IncrementAfterEndOfWorkday()
    ensures Usable(EightToFour)
    ensures WorkdayIncrement(EightToFour, DateTime(Feb9, 64800.0), 0.5)
         == Success(DateTime(Feb10, 43200.0))
  {
    UsableWithoutHolidays(EightToFour);
    Week();
    NextIsTomorrow(EightToFour, Feb9);
  }

  /** 18:00 on a workday minus 0.5 is 12:00 the same day. */
  lemma DecrementAfterEndOfWorkday()
    ensures Usable(EightToFour)
    ensures WorkdayIncrement(EightToFour, DateTime(Feb9, 64800.0), -0.5)
         == Success(DateTime(Feb9, 43200.0))
  {
    UsableWithoutHolidays(EightToFour);
    Week();
  }

  /** 12:00 plus 0.25 is 14:00 the same day. */
  lemma IncrementInWorkday()
    ensures Usable(EightToFour)
    ensures WorkdayIncrement(EightToFour, DateTime(Feb9, 43200.0), 0.25)
         == Success(DateTime(Feb9, 50400.0))
  {
    UsableWithoutHolidays(EightToFour);
    Week();
  }

  /** 12:00 minus 0.25 is 10:00 the same day. */
  lemma DecrementInWorkday()
    ensures Usable(EightToFour)
    ensures WorkdayIncrement(EightToFour, DateTime(Feb9, 43200.0), -0.25)
         == Success(DateTime(Feb9, 36000.0))
  {
    UsableWithoutHolidays(EightToFour);
    Week();
  }

  /** With a ten-minute window, 00:00 plus 1.5 is 00:05 the next day. */
  lemma ShortWorkday()
    ensures Usable(TenMinutes)
    ensures WorkdayIncrement(TenMinutes, DateTime(Feb9, 0.0), 1.5)
         == Success(DateTime(Feb10, 300.0))
  {
    UsableWithoutHolidays(TenMinutes);
    Week();
    NextIsTomorrow(TenMinutes, Feb9);
    assert StartDateIncrement(TenMinutes, 0.0) == 0.0;
    assert Walk(TenMinutes, DateTime(Feb9, 0.0), 1) == DateTime(Feb10, 0.0);
  }

  /** With a twenty-hour window, 00:00 plus 1.5 is 10:00 the next day. */
  lemma LongWorkday()
    ensures Usable(TwentyHours)
    ensures WorkdayIncrement(TwentyHours, DateTime(Feb9, 0.0), 1.5)
         == Success(DateTime(Feb10, 36000.0))
  {
    UsableWithoutHolidays(TwentyHours);
    Week();
    NextIsTomorrow(TwentyHours, Feb9);
    assert StartDateIncrement(TwentyHours, 0.0) == 0.0;
    assert Walk(TwentyHours, DateTime(Feb9, 0.0), 1) == DateTime(Feb10, 0.0);
  }

  /** Window 22:00 - 06:00: accepted, since only equal hour and minute are refused. */
  const Overnight := Calendar(79200.0, 21600.0, [], [])

  /**
   * No instant is inside a window whose stop is earlier than its start, and
   * the fraction is placed backwards from the start: 22:00 plus 0.25 is 18:00
   * the next workday, outside 22:00 - 06:00.
   */
  lemma OvernightWindow()
    ensures Usable(Overnight)
    ensures forall time: TimeOfDay :: !IsWithinWorkday(Overnight, time)
    ensures WorkdayIncrement(Overnight, DateTime(Feb9, 79200.0), 0.25)
         == Success(DateTime(Feb10, 64800.0))
  {
    UsableWithoutHolidays(Overnight);
    Week();
    NextIsTomorrow(Overnight, Feb9);
  }

  // ---------------------------------------------------------------------------
  // Error paths

  /** 2019-01-01, the day the window times are taken from, and 2004-05-24. */
  const Jan1of2019 := DaysFromCivil(2019, 1, 1)
  const May24of2004 := DaysFromCivil(2004, 5, 24)

  /** Setting 08:00 and 16:00 on a new calendar gives the eight-to-four window. */
  lemma SetEightToFour()
    ensures WithWindow(Initial, DateTime(Jan1of2019, 28800.0), DateTime(Jan1of2019, 57600.0)) == Success(EightToFour)
  {
  }

  /** Start and stop at the same instant are refused. */
  lemma StartTimeSameAsStopTime()
    ensures WithWindow(Initial, DateTime(May24of2004, 65100.0), DateTime(May24of2004, 65100.0)) == Failure(InvalidWindow)
  {
  }

  /** A new calendar refuses to increment. */
  lemma SetWorkdayStartAndStopNotCalled()
    ensures Valid(Initial)
    ensures WorkdayIncrement(Initial, DateTime(May24of2004, 65100.0), 0.0) == Failure(WindowNotSet)
  {
    UnsetWindowFails(Initial, DateTime(May24of2004, 65100.0), 0.0);
  }

  // ---------------------------------------------------------------------------
  // Holidays: 17 May recurring, 27 May 2004 individual

  /** The month and day of a day of May 2004 (day numbers 731701 .. 731731). */
  lemma MayOf2004(d: int)
    requires 731701 <= d <= 731731
    ensures Month(d) == 5 && DayOfMonth(d) == d - 731700
  {
    InEra5(d);
    MayOf2004InEra(d + 306 - 730485);
  }

  /** The month and day of a day of May 2022 (day numbers 738275 .. 738305). */
  lemma MayOf2022(d: int)
    requires 738275 <= d <= 738305
    ensures Month(d) == 5 && DayOfMonth(d) == d - 738274
  {
    InEra5(d);
    MayOf2022InEra(d + 306 - 730485);
  }

  /** Days of the era that began 1 March 2000. */
  lemma InEra5(d: int)
    requires 0 <= d + 306 - 730485 < 146097
    ensures Month(d) == CivilFromDayOfEra(d + 306 - 730485).1
    ensures DayOfMonth(d) == CivilFromDayOfEra(d + 306 - 730485).2
  {
    assert (d + 306) % 146097 == d + 306 - 730485;
  }

  lemma MayOf2004InEra(doe: int)
    requires 1522 <= doe <= 1552
    ensures CivilFromDayOfEra(doe) == (4, 5, doe - 1521)
  {
    assert doe / 1460 == 1 && doe / 36524 == 0 && doe / 146096 == 0;
    assert (doe - 1) / 365 == 4;
    var doy := doe - 1461;
    assert (5 * doy + 2) / 153 == 2;
  }

  lemma MayOf2022InEra(doe: int)
    requires 8096 <= doe <= 8126
    ensures CivilFromDayOfEra(doe) == (22, 5, doe - 8095)
  {
    assert doe / 1460 == 5 && doe / 36524 == 0 && doe / 146096 == 0;
    assert (doe - 5) / 365 == 22;
    var doy := doe - 8035;
    assert (5 * doy + 2) / 153 == 2;
  }

  const May17of2004 := DaysFromCivil(2004, 5, 17)
  const May27of2004 := DaysFromCivil(2004, 5, 27)

  /** The eight-to-four calendar with 17 May recurring ... */
  const RecurringMay17 := Calendar(28800.0, 57600.0, [], [DateTime(731717, 0.0)])

  /** ... and 27 May 2004 as an individual holiday. */
  const BothHolidays := Calendar(28800.0, 57600.0, [DateTime(731727, 0.0)], [DateTime(731717, 0.0)])

  lemma DayNumbers2004()
    ensures May17of2004 == 731717 && May24of2004 == 731724 && May27of2004 == 731727
  {
  }

  /** SetRecurringHoliday(2004-05-17) and then SetHoliday(2004-05-27) build the two calendars. */
  lemma HolidayLists()
    ensures WithRecurringHoliday(EightToFour, DateTime(May17of2004, 0.0)) == RecurringMay17
    ensures WithHoliday(RecurringMay17, DateTime(May27of2004, 0.0)) == BothHolidays
  {
    DayNumbers2004();
    MayOf2004(731717);
    MayOf2004(731727);
    assert !IsRecurringHoliday(RecurringMay17, 731727);
  }

  /** In May 2004 the workdays of the calendar with both holidays are the weekdays other than the 17th and the 27th. */
  lemma WorkdaysOfMay2004(d: int)
    requires 731701 <= d <= 731731
    ensures IsWorkday(BothHolidays, d) <==> !IsWeekend(d) && d != 731717 && d != 731727
  {
    MayOf2004(d);
    MayOf2004(731717);
  }

  /** The calendar with 17 May recurring still has workdays after and before every day. */
  lemma UsableWithHolidays()
    ensures Usable(RecurringMay17) && Usable(BothHolidays)
  {
    MayOf2004(731717);
    MayOf2004(731724);
    assert !IsWeekend(731724) && !IsRecurringHoliday(RecurringMay17, 731724);
    assert !IsWeekend(731724) && !IsRecurringHoliday(BothHolidays, 731724);
    UnboundedIffFreeWeekday(RecurringMay17);
    UnboundedIffFreeWeekday(BothHolidays);
  }

  /** The workday before day is p when no workday lies strictly between. */
  lemma PreviousIs(c: Calendar, day: int, p: int)
    requires p < day && IsWorkday(c, p)
    requires forall k :: p < k < day ==> !IsWorkday(c, k)
    ensures HasWorkdayBefore(c, day) && PreviousWorkday(c, day) == p
  {
    assert HasWorkdayBefore(c, day);
  }

  /**
   * Monday 2004-05-24 18:05 minus 5.5 workdays is Friday 2004-05-14 12:00:
   * counted from the Monday's window stop, the Monday is half a day, four
   * workdays back reach Tuesday the 18th, and past the recurring holiday and
   * the weekend the Friday is the last half day.
   */
  lemma TestCase1()
    ensures Usable(BothHolidays)
    ensures WorkdayIncrement(BothHolidays, DateTime(731724, 65100.0), -5.5)
         == Success(DateTime(731714, 43200.0))
  {
    UsableWithHolidays();
    var c := BothHolidays;
    var anchor := DateTime(731724, 28800.0);
    WorkdaysOfMay2004(731724);
    assert StartDateAdjusted(c, DateTime(731724, 65100.0), -5.5) == Success(Adjusted(anchor, -4.5));
    assert (-4.5).Floor == -5;
    FiveWorkdaysBack();
  }

  /** From Monday 2004-05-24 the calendar walks back to the 21st, 20th, 19th, 18th and 14th. */
  lemma FiveWorkdaysBack()
    ensures Usable(BothHolidays)
    ensures Walk(BothHolidays, DateTime(731724, 28800.0), -5) == DateTime(731714, 28800.0)
  {
    UsableWithHolidays();
    var c := BothHolidays;
    var anchor := DateTime(731724, 28800.0);
    PreviousWorkdaysOfMay2004();
    assert Walk(c, anchor, -1) == DateTime(731721, 28800.0);
    assert Walk(c, anchor, -2) == DateTime(731720, 28800.0);
    assert Walk(c, anchor, -3) == DateTime(731719, 28800.0);
    assert Walk(c, anchor, -4) == DateTime(731718, 28800.0);
  }

  lemma PreviousWorkdaysOfMay2004()
    ensures HasWorkdayBefore(BothHolidays, 731724) && PreviousWorkday(BothHolidays, 731724) == 731721
    ensures HasWorkdayBefore(BothHolidays, 731721) && PreviousWorkday(BothHolidays, 731721) == 731720
    ensures HasWorkdayBefore(BothHolidays, 731720) && PreviousWorkday(BothHolidays, 731720) == 731719
    ensures HasWorkdayBefore(BothHolidays, 731719) && PreviousWorkday(BothHolidays, 731719) == 731718
    ensures HasWorkdayBefore(BothHolidays, 731718) && PreviousWorkday(BothHolidays, 731718) == 731714
  {
    BackFromMonday24();
    BackOneDay(731721);
    BackOneDay(731720);
    BackOneDay(731719);
    BackFromTuesday18();
  }

  lemma BackFromMonday24()
    ensures HasWorkdayBefore(BothHolidays, 731724) && PreviousWorkday(BothHolidays, 731724) == 731721
  {
    WorkdaysOfMay2004(731721);
    WorkdaysOfMay2004(731722);
    WorkdaysOfMay2004(731723);
    BackOverWeekend(731724, 731721);
  }

  /** Back one day from a day of May 2004 whose day before is a weekday other than the holidays. */
  lemma BackOneDay(day: int)
    requires 731702 <= day <= 731731 && !IsWeekend(day - 1) && day - 1 != 731717 && day - 1 != 731727
    ensures HasWorkdayBefore(BothHolidays, day) && PreviousWorkday(BothHolidays, day) == day - 1
  {
    WorkdaysOfMay2004(day - 1);
    PreviousIsYesterday(BothHolidays, day);
  }

  /** From Tuesday the 18th back over the recurring holiday and the weekend to Friday the 14th. */
  lemma BackFromTuesday18()
    ensures HasWorkdayBefore(BothHolidays, 731718) && PreviousWorkday(BothHolidays, 731718) == 731714
  {
    Friday14IsWorkday();
    NoWorkday15To17();
    PreviousIs(BothHolidays, 731718, 731714);
  }

  lemma Friday14IsWorkday()
    ensures IsWorkday(BothHolidays, 731714)
  {
    WorkdaysOfMay2004(731714);
  }

  lemma NoWorkday15To17()
    ensures forall k :: 731714 < k < 731718 ==> !IsWorkday(BothHolidays, k)
  {
    forall k | 731714 < k < 731718
      ensures !IsWorkday(BothHolidays, k)
    {
      if k == 731715 || k == 731716 {
        assert IsWeekend(k);
      } else {
        assert k == 731717;
        assert IsRecurringHoliday(BothHolidays, k);
      }
    }
  }

  /** From a Monday back over the weekend to the Friday. */
  lemma BackOverWeekend(monday: int, friday: int)
    requires 731701 <= friday && monday <= 731731 && friday == monday - 3
    requires IsWorkday(BothHolidays, friday) && IsWeekend(friday + 1) && IsWeekend(friday + 2)
    ensures HasWorkdayBefore(BothHolidays, monday) && PreviousWorkday(BothHolidays, monday) == friday
  {
    PreviousIs(BothHolidays, monday, friday);
  }

  /**
   * Monday 2004-05-24 15:07 plus 0.25 workdays is Tuesday 2004-05-25 09:07:
   * 53 minutes are left of Monday's window and 67 minutes go into Tuesday's.
   */
  lemma TestCase6()
    ensures Usable(BothHolidays)
    ensures WorkdayIncrement(BothHolidays, DateTime(731724, 54420.0), 0.25)
         == Success(DateTime(731725, 32820.0))
  {
    UsableWithHolidays();
    WorkdaysOfMay2004(731724);
    MondayFraction();
    assert (1.0 + 4020.0 / 28800.0).Floor == 1;
    TuesdayFollows();
    TuesdayPlace();
  }

  /** 15:07 is 25620 of the window's 28800 seconds, so the increment from the window start is 1 + 4020/28800. */
  lemma MondayFraction()
    ensures Ready(BothHolidays)
    ensures 0.25 + StartDateIncrement(BothHolidays, 54420.0) == 1.0 + 4020.0 / 28800.0
  {
    var f := StartDateIncrement(BothHolidays, 54420.0);
    assert f * 28800.0 == 25620.0;
  }

  lemma TuesdayFollows()
    ensures Usable(BothHolidays)
    ensures Walk(BothHolidays, DateTime(731724, 28800.0), 1) == DateTime(731725, 28800.0)
  {
    UsableWithHolidays();
    WorkdaysOfMay2004(731725);
    NextIsTomorrow(BothHolidays, 731724);
  }

  lemma TuesdayPlace()
    ensures Ready(BothHolidays)
    ensures UpdateTimeFromIncrement(BothHolidays, DateTime(731725, 28800.0), 4020.0 / 28800.0) == DateTime(731725, 32820.0)
  {
  }

  /** Tuesday 2022-05-17, a recurring holiday, plus 0.5 is Wednesday 2022-05-18 12:00. */
  lemma IncrementFromHoliday()
    ensures Usable(RecurringMay17)
    ensures WorkdayIncrement(RecurringMay17, DateTime(738291, 43200.0), 0.5)
         == Success(DateTime(738292, 43200.0))
  {
    UsableWithHolidays();
    MayOf2004(731717);
    MayOf2022(738291);
    MayOf2022(738292);
    assert !IsWorkday(RecurringMay17, 738291);
    NextIsTomorrow(RecurringMay17, 738291);
  }

  /** Tuesday 2022-05-17, a recurring holiday, minus 0.5 is Monday 2022-05-16 12:00. */
  lemma DecrementFromHoliday()
    ensures Usable(RecurringMay17)
    ensures WorkdayIncrement(RecurringMay17, DateTime(738291, 43200.0), -0.5)
         == Success(DateTime(738290, 43200.0))
  {
    UsableWithHolidays();
    MayOf2004(731717);
    MayOf2022(738291);
    MayOf2022(738290);
    assert !IsWorkday(RecurringMay17, 738291);
    PreviousIsYesterday(RecurringMay17, 738291);
  }
}
