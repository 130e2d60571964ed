/**
 * The WorkdayCalendar class: the window and the two holiday lists are fields
 * the Set* methods update, and the increment runs as the day-stepping and
 * increment-updating loops of the C# class. Every method is proved to compute
 * the matching function of module Workdays on the calendar's State().
 */
module WorkdayCalendarNS {
  import opened Gregorian
  import opened Workdays

  class WorkdayCalendar {
    var windowStart: real
    var windowStop: real
    var individualHolidays: seq<DateTime>
    var recurringHolidays: seq<DateTime>

    /** The calendar's fields as a value. */
    function State(): Calendar
      reads this
    {
      Calendar(windowStart, windowStop, individualHolidays, recurringHolidays)
    }

    ghost predicate Valid()
      reads this
    {
      Workdays.Valid(State())
    }

    constructor ()
      ensures Valid() && State() == Initial
    {
      windowStart := Unset;
      windowStop := Unset;
      individualHolidays := [];
      recurringHolidays := [];
    }

    /** Store a holiday at a specific date, unless the date is already a weekend day or a holiday. */
    method SetHoliday(date: DateTime)
      requires Valid()
      modifies this
      ensures Valid() && State() == WithHoliday(old(State()), date)
    {
      var isWorkday := IsWorkday(date);
      if isWorkday {
        individualHolidays := individualHolidays + [date];
      }
    }

    /** Store a holiday recurring on the date's month and day every year, unless it is already stored. */
    method SetRecurringHoliday(date: DateTime)
      requires Valid()
      modifies this
      ensures Valid() && State() == WithRecurringHoliday(old(State()), date)
    {
      var isRecurring := IsRecurringHoliday(date);
      if !isRecurring {
        recurringHolidays := recurringHolidays + [date];
      }
    }

    /** Set the window to the times of day of start and stop; refused when they share hour and minute. */
    method SetWorkdayStartAndStop(start: DateTime, stop: DateTime) returns (r: Result<()>)
      requires Valid()
      modifies this
      ensures Valid()
      ensures match WithWindow(old(State()), start, stop)
        case Success(c) => r.Success? && State() == c
        case Failure(e) => r == Failure(e) && State() == old(State())
    {
      if Hour(start.time) == Hour(stop.time) && Minute(start.time) == Minute(stop.time) {
        r := Failure(InvalidWindow);
      } else {
        windowStart := start.time;
        windowStop := stop.time;
        r := Success(());
      }
    }

    /** The instant incrementInWorkdays workdays away from startDate. */
    method GetWorkdayIncrement(startDate: DateTime, incrementInWorkdays: real) returns (r: Result<DateTime>)
      requires Valid()
      requires Configured(State()) ==> WorkdaysUnbounded(State())
      ensures r == WorkdayIncrement(State(), startDate, incrementInWorkdays)
    {
      var incrementAdjusted := incrementInWorkdays;
      if TimeSpanHours(windowStart) < 0 || TimeSpanHours(windowStop) < 0 {
        return Failure(WindowNotSet);
      }
      ConfiguredIffSet(State());
      var isWorkday := IsWorkday(startDate);
      if isWorkday && IsWithinWorkday(State(), startDate.time) {
        incrementAdjusted := incrementAdjusted + StartDateIncrement(State(), startDate.time);
        var startDateAdjusted := DateTime(startDate.day, windowStart);
        var workday := GetUpdatedWorkday(startDateAdjusted, incrementAdjusted);
        r := Success(workday);
      } else {
        var adjusted;
        adjusted, incrementAdjusted := GetStartDateAdjusted(startDate, incrementAdjusted);
        match adjusted
        case Failure(e) =>
          r := Failure(e);
        case Success(startDateAdjusted) =>
          var workday := GetUpdatedWorkday(startDateAdjusted, incrementAdjusted);
          r := Success(workday);
      }
    }

    method IsWorkday(date: DateTime) returns (isWorkday: bool)
      ensures isWorkday == Workdays.IsWorkday(State(), date.day)
    {
      isWorkday := true;
      if DayOfWeek(date.day) == Saturday || DayOfWeek(date.day) == Sunday {
        isWorkday := false;
      } else {
        var isRecurring := IsRecurringHoliday(date);
        if isRecurring {
          isWorkday := false;
        } else {
          var isIndividual := IsIndividualHoliday(date);
          if isIndividual {
            isWorkday := false;
          }
        }
      }
    }

    /** Linear search of the recurring holidays for the date's month and day. */
    method IsRecurringHoliday(date: DateTime) returns (isRecurring: bool)
      ensures isRecurring == Workdays.IsRecurringHoliday(State(), date.day)
    {
      isRecurring := false;
      var i := 0;
      while !isRecurring && i < |recurringHolidays|
        invariant 0 <= i <= |recurringHolidays|
        invariant isRecurring <==> exists j :: 0 <= j < i && SameMonthDay(date.day, recurringHolidays[j].day)
      {
        if Month(date.day) == Month(recurringHolidays[i].day) && DayOfMonth(date.day) == DayOfMonth(recurringHolidays[i].day) {
          isRecurring := true;
        }
        i := i + 1;
      }
    }

    /** Linear search of the individual holidays for the date. */
    method IsIndividualHoliday(date: DateTime) returns (isIndividual: bool)
      ensures isIndividual == Workdays.IsIndividualHoliday(State(), date.day)
    {
      isIndividual := false;
      var i := 0;
      while !isIndividual && i < |individualHolidays|
        invariant 0 <= i <= |individualHolidays|
        invariant isIndividual <==> exists j :: 0 <= j < i && individualHolidays[j].day == date.day
      {
        if date.day == individualHolidays[i].day {
          isIndividual := true;
        }
        i := i + 1;
      }
    }

    /** Normalise a start instant outside a workday's window onto a workday start (the ref increment is returned). */
    method GetStartDateAdjusted(date: DateTime, increment: real) returns (r: Result<DateTime>, newIncrement: real)
      requires Ready(State()) && WorkdaysUnbounded(State())
      ensures match StartDateAdjusted(State(), date, increment)
        case Success(a) => r == Success(a.anchor) && newIncrement == a.increment
        case Failure(e) => r == Failure(e)
    {
      ConfiguredIffSet(State());
      assert HasWorkdayAfter(State(), date.day) && HasWorkdayBefore(State(), date.day);
      newIncrement := increment;
      var isWorkday := IsWorkday(date);
      if isWorkday {
        if date.time < windowStart && increment < 0.0 {
          var previous := GetPreviousWorkdayStart(date);
          r := Success(previous);
          newIncrement := UpdateNegativeIncrement(increment);
        } else if date.time < windowStart && increment >= 0.0 {
          r := Success(DateTime(date.day, windowStart));
        } else if windowStop < date.time && increment < 0.0 {
          r := Success(DateTime(date.day, windowStart));
          newIncrement := UpdateNegativeIncrement(increment);
        } else if windowStop < date.time && increment >= 0.0 {
          var next := GetNextWorkdayStart(date);
          r := Success(next);
        } else {
          r := Failure(UnexpectedDate);
        }
      } else {
        if increment >= 0.0 {
          var next := GetNextWorkdayStart(date);
          r := Success(next);
        } else {
          var previous := GetPreviousWorkdayStart(date);
          r := Success(previous);
          newIncrement := UpdateNegativeIncrement(increment);
        }
      }
    }

    /** Step back one day at a time until a workday; its window start. */
    method GetPreviousWorkdayStart(date: DateTime) returns (r: DateTime)
      requires Ready(State()) && HasWorkdayBefore(State(), date.day)
      ensures r == PreviousWorkdayStart(State(), date)
      ensures r.day < date.day && Workdays.IsWorkday(State(), r.day) && r.time == windowStart
      ensures forall k :: r.day < k < date.day ==> !Workdays.IsWorkday(State(), k)
    {
      ConfiguredIffSet(State());
      ghost var target := PreviousWorkday(State(), date.day);
      var previous := AddDays(date, -1);
      var isWorkday := IsWorkday(previous);
      while !isWorkday
        invariant target <= previous.day < date.day
        invariant isWorkday == Workdays.IsWorkday(State(), previous.day)
        invariant forall k :: previous.day < k < date.day ==> !Workdays.IsWorkday(State(), k)
        decreases previous.day - target
      {
        previous := AddDays(previous, -1);
        isWorkday := IsWorkday(previous);
      }
      r := DateTime(previous.day, windowStart);
    }

    /** Step forward one day at a time until a workday; its window start. */
    method GetNextWorkdayStart(date: DateTime) returns (r: DateTime)
      requires Ready(State()) && HasWorkdayAfter(State(), date.day)
      ensures r == NextWorkdayStart(State(), date)
      ensures r.day > date.day && Workdays.IsWorkday(State(), r.day) && r.time == windowStart
      ensures forall k :: date.day < k < r.day ==> !Workdays.IsWorkday(State(), k)
    {
      ConfiguredIffSet(State());
      ghost var target := NextWorkday(State(), date.day);
      var next := AddDays(date, 1);
      var isWorkday := IsWorkday(next);
      while !isWorkday
        invariant date.day < next.day <= target
        invariant isWorkday == Workdays.IsWorkday(State(), next.day)
        invariant forall k :: date.day < k < next.day ==> !Workdays.IsWorkday(State(), k)
        decreases target - next.day
      {
        next := AddDays(next, 1);
        isWorkday := IsWorkday(next);
      }
      r := DateTime(next.day, windowStart);
    }

    /**
     * Walk whole workdays until the increment left is in [0, 1), one workday per
     * step and the increment changed by 1 the other way, then place what is left
     * in the window.
     */
    method GetUpdatedWorkday(start: DateTime, increment: real) returns (updatedDate: DateTime)
      requires Ready(State()) && WorkdaysUnbounded(State()) && start.time == windowStart
      ensures updatedDate == UpdatedWorkday(State(), start, increment)
    {
      var updated := start;
      var remaining := increment;
      ghost var steps := 0;
      if remaining >= 0.0 {
        while !IsPositiveFraction(remaining)
          invariant 0 <= steps && remaining >= 0.0
          invariant remaining == increment - steps as real
          invariant updated == Walk(State(), start, steps)
          decreases remaining.Floor
        {
          assert HasWorkdayAfter(State(), updated.day);
          updated := GetNextWorkdayStart(updated);
          remaining := remaining - 1.0;
          steps := steps + 1;
        }
        assert steps == increment.Floor;
        updatedDate := UpdateTimeFromIncrement(State(), updated, remaining);
      } else {
        while !IsPositiveFraction(remaining)
          invariant steps <= 0 && remaining < 1.0
          invariant remaining == increment - steps as real
          invariant updated == Walk(State(), start, steps)
          decreases -remaining.Floor
        {
          assert HasWorkdayBefore(State(), updated.day);
          updated := GetPreviousWorkdayStart(updated);
          remaining := remaining + 1.0;
          steps := steps - 1;
        }
        assert steps == increment.Floor;
        updatedDate := UpdateTimeFromIncrement(State(), updated, remaining);
      }
    }
  }
}
