/**
 * The state of a workday calendar as a value, the workday classification and
 * the increment algorithm as functions, and what they are proved to mean.
 *
 * The class in calendar.dfy holds the same state in fields and runs the
 * algorithm with loops; its methods are proved equal to the functions here.
 */
module Workdays {
  import opened Gregorian

  datatype Error =
    | InvalidWindow   // start and stop of the window have the same hour and minute
    | WindowNotSet    // an increment was asked for before a window was set
    | UnexpectedDate  // the catch-all branch of the start-date normalisation

  datatype Result<T> = Success(value: T) | Failure(error: Error)

  /** The sentinel TimeSpan(-1, -1, -1), in seconds, that both window ends hold until a window is set. */
  const Unset: real := -3661.0

  /**
   * The window start and stop (seconds of the day, or Unset), the individual
   * holidays (matched by date) and the recurring holidays (matched by month
   * and day), both in the order they were added.
   */
  datatype Calendar = Calendar(start: real, stop: real, individual: seq<DateTime>, recurring: seq<DateTime>)

  /** A freshly created calendar: no window, no holidays. */
  const Initial := Calendar(Unset, Unset, [], [])

  /** The result of normalising a start instant: a workday-start anchor and the increment left to walk. */
  datatype Adjusted = Adjusted(anchor: DateTime, increment: real)

  // ---------------------------------------------------------------------------
  // The window

  predicate SameHourMinute(a: TimeOfDay, b: TimeOfDay)
  {
    Hour(a) == Hour(b) && Minute(a) == Minute(b)
  }

  /** The check GetWorkdayIncrement makes before anything else: neither end has negative hours. */
  predicate Configured(c: Calendar)
  {
    !(TimeSpanHours(c.start) < 0 || TimeSpanHours(c.stop) < 0)
  }

  /** Either no window was ever set, or both ends are times of day that differ in hour or minute. */
  predicate WindowValid(c: Calendar)
  {
    || (c.start == Unset && c.stop == Unset)
    || (0.0 <= c.start < SecondsPerDay && 0.0 <= c.stop < SecondsPerDay && !SameHourMinute(c.start, c.stop))
  }

  /**
   * The invariant every calendar the operations build satisfies: a valid
   * window, no individual holiday on a weekend, no date twice among the
   * individual holidays and no month/day twice among the recurring ones.
   */
  predicate Valid(c: Calendar)
  {
    && WindowValid(c)
    && (forall h :: h in c.individual ==> !IsWeekend(h.day))
    && (forall i, j :: 0 <= i < j < |c.individual| ==> c.individual[i].day != c.individual[j].day)
    && (forall i, j :: 0 <= i < j < |c.recurring| ==> !SameMonthDay(c.recurring[i].day, c.recurring[j].day))
  }

  /** A valid calendar whose window has been set. */
  predicate Ready(c: Calendar)
  {
    Valid(c) && Configured(c)
  }

  /** On a valid calendar the hours test tells exactly whether a window was set. */
  lemma ConfiguredIffSet(c: Calendar)
    requires Valid(c)
    ensures Configured(c) <==> c.start != Unset
    ensures Configured(c) ==> 0.0 <= c.start < SecondsPerDay && 0.0 <= c.stop < SecondsPerDay && c.start != c.stop
  {
  }

  /** SetWorkdayStartAndStop on the calendar value. */
  function WithWindow(c: Calendar, start: DateTime, stop: DateTime): (r: Result<Calendar>)
    ensures r.Failure? <==> SameHourMinute(start.time, stop.time)
    ensures r.Failure? ==> r.error == InvalidWindow
    ensures r.Success? ==> r.value.start == start.time && r.value.stop == stop.time
    ensures r.Success? ==> r.value.individual == c.individual && r.value.recurring == c.recurring
    ensures r.Success? && Valid(c) ==> Ready(r.value)
  {
    if Hour(start.time) == Hour(stop.time) && Minute(start.time) == Minute(stop.time) then
      Failure(InvalidWindow)
    else
      Success(c.(start := start.time, stop := stop.time))
  }

  /** The window is rejected exactly when both ends fall in the same minute of the day. */
  lemma WithWindowFailsIffSameMinute(c: Calendar, start: DateTime, stop: DateTime)
    ensures WithWindow(c, start, stop).Failure? <==> MinuteOfDay(start.time) == MinuteOfDay(stop.time)
  {
    SameHourMinuteIffSameMinute(start.time, stop.time);
  }

  // ---------------------------------------------------------------------------
  // Workday classification

  predicate IsWeekend(day: int)
  {
    DayOfWeek(day) == Saturday || DayOfWeek(day) == Sunday
  }

  predicate SameMonthDay(a: int, b: int)
  {
    Month(a) == Month(b) && DayOfMonth(a) == DayOfMonth(b)
  }

  predicate IsRecurringHoliday(c: Calendar, day: int)
  {
    exists h :: h in c.recurring && SameMonthDay(day, h.day)
  }

  predicate IsIndividualHoliday(c: Calendar, day: int)
  {
    exists h :: h in c.individual && h.day == day
  }

  /** Not a Saturday or Sunday, not a recurring holiday's month and day, not an individual holiday's date. */
  predicate IsWorkday(c: Calendar, day: int)
  {
    !IsWeekend(day) && !IsRecurringHoliday(c, day) && !IsIndividualHoliday(c, day)
  }

  /** SetHoliday on the calendar value: the date is stored only when it is currently a workday. */
  function WithHoliday(c: Calendar, date: DateTime): (r: Calendar)
    ensures forall n :: IsWorkday(r, n) <==> IsWorkday(c, n) && n != date.day
    ensures r.start == c.start && r.stop == c.stop && r.recurring == c.recurring
    ensures Valid(c) ==> Valid(r)
  {
    if IsWorkday(c, date.day) then c.(individual := c.individual + [date]) else c
  }

  /** SetRecurringHoliday on the calendar value: the date is stored only when its month and day are new. */
  function WithRecurringHoliday(c: Calendar, date: DateTime): (r: Calendar)
    ensures forall n :: IsRecurringHoliday(r, n) <==> IsRecurringHoliday(c, n) || SameMonthDay(n, date.day)
    ensures forall n :: IsWorkday(r, n) <==> IsWorkday(c, n) && !SameMonthDay(n, date.day)
    ensures r.start == c.start && r.stop == c.stop && r.individual == c.individual
    ensures Valid(c) ==> Valid(r)
  {
    if !IsRecurringHoliday(c, date.day) then c.(recurring := c.recurring + [date]) else c
  }

  lemma WithHolidayIdempotent(c: Calendar, date: DateTime)
    ensures WithHoliday(WithHoliday(c, date), date) == WithHoliday(c, date)
  {
    var once := WithHoliday(c, date);
    assert !IsWorkday(once, date.day);
  }

  lemma WithRecurringHolidayIdempotent(c: Calendar, date: DateTime)
    ensures WithRecurringHoliday(WithRecurringHoliday(c, date), date) == WithRecurringHoliday(c, date)
  {
    var once := WithRecurringHoliday(c, date);
    assert IsRecurringHoliday(once, date.day);
  }

  // ---------------------------------------------------------------------------
  // Times of day against the window

  /** The window is closed at both ends. */
  predicate IsWithinWorkday(c: Calendar, time: TimeOfDay)
  {
    c.start <= time && time <= c.stop
  }

  /** The length of the window in seconds, m_Stop - m_Start. */
  function WindowSpan(c: Calendar): real
  {
    c.stop - c.start
  }

  /** The quotient d / span, with the bounds the window arithmetic needs. */
  function Fraction(d: real, span: real): (q: real)
    requires span != 0.0
    ensures q * span == d
    ensures span > 0.0 && 0.0 <= d ==> 0.0 <= q
    ensures span > 0.0 && d <= span ==> q <= 1.0
    ensures span > 0.0 && d < span ==> q < 1.0
  {
    QuotientBounds(d, span);
    d / span
  }

  lemma QuotientBounds(d: real, span: real)
    requires span != 0.0
    ensures (d / span) * span == d
    ensures span > 0.0 && 0.0 <= d ==> 0.0 <= d / span
    ensures span > 0.0 && d <= span ==> d / span <= 1.0
    ensures span > 0.0 && d < span ==> d / span < 1.0
  {
    var q := d / span;
    assert q * span == d;
    if span > 0.0 {
      if q < 0.0 { assert q * span < 0.0 * span; }
      if q >= 1.0 { assert q * span >= 1.0 * span; }
    }
  }

  /** Equal products with a non-zero factor have equal cofactors. */
  lemma Cancel(a: real, b: real, span: real)
    requires span != 0.0 && a * span == b * span
    ensures a == b
  {
    assert (a - b) * span == 0.0;
  }

  /** The fraction of the window that has passed at the given time of day. */
  function StartDateIncrement(c: Calendar, time: TimeOfDay): (f: real)
    requires Ready(c)
    ensures f * WindowSpan(c) == time - c.start
    ensures c.start < c.stop && IsWithinWorkday(c, time) ==> 0.0 <= f <= 1.0
    ensures c.start < c.stop && c.start <= time < c.stop ==> 0.0 <= f < 1.0
  {
    ConfiguredIffSet(c);
    Fraction(time - c.start, WindowSpan(c))
  }

  /** Equal elapsed fractions mean equal times of day. */
  lemma StartDateIncrementInjective(c: Calendar, a: TimeOfDay, b: TimeOfDay)
    requires Ready(c) && StartDateIncrement(c, a) == StartDateIncrement(c, b)
    ensures a == b
  {
  }

  /** An increment counted from the window stop, counted from the window start instead. */
  function UpdateNegativeIncrement(increment: real): real
  {
    increment + 1.0
  }

  predicate IsPositiveFraction(value: real)
  {
    0.0 <= value < 1.0
  }

  /** The stepping loops stop exactly when no whole workday is left in the increment. */
  lemma PositiveFractionIffNoWholeDay(value: real)
    ensures IsPositiveFraction(value) <==> value.Floor == 0
  {
  }

  /** The seconds a fraction in [0, 1) of the window covers; negative for a window that wraps midnight. */
  function SecondsToUpdate(span: real, increment: real): (s: real)
    requires IsPositiveFraction(increment)
    ensures span > 0.0 ==> 0.0 <= s < span
    ensures span < 0.0 ==> span < s <= 0.0
  {
    ProductBounds(span, increment);
    span * increment
  }

  /** A fraction in [0, 1) of a span lies between 0 and the span. */
  lemma ProductBounds(span: real, x: real)
    requires 0.0 <= x < 1.0
    ensures span > 0.0 ==> 0.0 <= span * x < span
    ensures span < 0.0 ==> span < span * x <= 0.0
  {
    if span > 0.0 {
      assert span * x >= span * 0.0;
      assert span * x < span * 1.0;
    } else if span < 0.0 {
      assert span * x <= span * 0.0;
      assert span * x > span * 1.0;
    }
  }

  /** Dividing a multiple of span by span gives the factor back. */
  lemma FractionOfProduct(span: real, x: real)
    requires span != 0.0
    ensures Fraction(span * x, span) == x
  {
    var q := Fraction(span * x, span);
    assert q * span == x * span;
    Cancel(q, x, span);
  }

  /**
   * The instant a fraction of a window after a workday start. It never leaves
   * the day, and its elapsed fraction is the fraction it was given.
   */
  function UpdateTimeFromIncrement(c: Calendar, workdayStart: DateTime, increment: real): (r: DateTime)
    requires Ready(c) && workdayStart.time == c.start && IsPositiveFraction(increment)
    ensures r.day == workdayStart.day
    ensures StartDateIncrement(c, r.time) == increment
    ensures c.start < c.stop ==> c.start <= r.time < c.stop
  {
    ConfiguredIffSet(c);
    var span := WindowSpan(c);
    var s := SecondsToUpdate(span, increment);
    FractionOfProduct(span, increment);
    assert s == span * increment;
    var t := c.start + s;
    assert t - c.start == s;
    DateTime(workdayStart.day, t)
  }

  // ---------------------------------------------------------------------------
  // Next and previous workdays

  ghost predicate HasWorkdayAfter(c: Calendar, day: int)
  {
    exists n :: n > day && IsWorkday(c, n)
  }

  ghost predicate HasWorkdayBefore(c: Calendar, day: int)
  {
    exists n :: n < day && IsWorkday(c, n)
  }

  /** What the unbounded day-stepping loops need to stop: workdays never run out in either direction. */
  ghost predicate WorkdaysUnbounded(c: Calendar)
  {
    forall day :: HasWorkdayAfter(c, day) && HasWorkdayBefore(c, day)
  }

  ghost function {:induction false} FirstWorkdayFrom(c: Calendar, lo: int, bound: int): (n: int)
    requires lo <= bound && IsWorkday(c, bound)
    ensures lo <= n <= bound && IsWorkday(c, n)
    ensures forall k :: lo <= k < n ==> !IsWorkday(c, k)
    decreases bound - lo
  {
    if IsWorkday(c, lo) then lo else FirstWorkdayFrom(c, lo + 1, bound)
  }

  ghost function {:induction false} LastWorkdayFrom(c: Calendar, hi: int, bound: int): (n: int)
    requires bound <= hi && IsWorkday(c, bound)
    ensures bound <= n <= hi && IsWorkday(c, n)
    ensures forall k :: n < k <= hi ==> !IsWorkday(c, k)
    decreases hi - bound
  {
    if IsWorkday(c, hi) then hi else LastWorkdayFrom(c, hi - 1, bound)
  }

  /** The first workday after the given day. */
  ghost function NextWorkday(c: Calendar, day: int): (n: int)
    requires HasWorkdayAfter(c, day)
    ensures n > day && IsWorkday(c, n)
    ensures forall k :: day < k < n ==> !IsWorkday(c, k)
  {
    var w :| w > day && IsWorkday(c, w);
    FirstWorkdayFrom(c, day + 1, w)
  }

  /** The last workday before the given day. */
  ghost function PreviousWorkday(c: Calendar, day: int): (n: int)
    requires HasWorkdayBefore(c, day)
    ensures n < day && IsWorkday(c, n)
    ensures forall k :: n < k < day ==> !IsWorkday(c, k)
  {
    var w :| w < day && IsWorkday(c, w);
    LastWorkdayFrom(c, day - 1, w)
  }

  /** Stepping to the next workday and back returns to a workday, and the other way round. */
  lemma NextPreviousInverse(c: Calendar, day: int)
    requires WorkdaysUnbounded(c) && IsWorkday(c, day)
    ensures PreviousWorkday(c, NextWorkday(c, day)) == day
    ensures NextWorkday(c, PreviousWorkday(c, day)) == day
  {
    assert HasWorkdayAfter(c, day) && HasWorkdayBefore(c, day);
    var n := NextWorkday(c, day);
    assert HasWorkdayBefore(c, n);
    var p := PreviousWorkday(c, day);
    assert HasWorkdayAfter(c, p);
  }

  /** The window start of the first workday after the date. */
  ghost function NextWorkdayStart(c: Calendar, date: DateTime): (r: DateTime)
    requires Ready(c) && HasWorkdayAfter(c, date.day)
    ensures r.day > date.day && IsWorkday(c, r.day) && r.time == c.start
    ensures forall k :: date.day < k < r.day ==> !IsWorkday(c, k)
  {
    ConfiguredIffSet(c);
    DateTime(NextWorkday(c, date.day), c.start)
  }

  /** The window start of the last workday before the date. */
  ghost function PreviousWorkdayStart(c: Calendar, date: DateTime): (r: DateTime)
    requires Ready(c) && HasWorkdayBefore(c, date.day)
    ensures r.day < date.day && IsWorkday(c, r.day) && r.time == c.start
    ensures forall k :: r.day < k < date.day ==> !IsWorkday(c, k)
  {
    ConfiguredIffSet(c);
    DateTime(PreviousWorkday(c, date.day), c.start)
  }

  // ---------------------------------------------------------------------------
  // Counting workdays

  /** The number of workdays in the days lo .. hi - 1. */
  function CountWorkdays(c: Calendar, lo: int, hi: int): nat
    decreases hi - lo
  {
    if hi <= lo then 0 else (if IsWorkday(c, lo) then 1 else 0) + CountWorkdays(c, lo + 1, hi)
  }

  /** The signed number of workdays from day a up to day b: those in [a, b), negated when b < a. */
  function Distance(c: Calendar, a: int, b: int): int
  {
    if a <= b then CountWorkdays(c, a, b) else 0 - CountWorkdays(c, b, a)
  }

  lemma {:induction false} CountSplit(c: Calendar, lo: int, mid: int, hi: int)
    requires lo <= mid <= hi
    ensures CountWorkdays(c, lo, hi) == CountWorkdays(c, lo, mid) + CountWorkdays(c, mid, hi)
    decreases mid - lo
  {
    if lo < mid {
      CountSplit(c, lo + 1, mid, hi);
    }
  }

  lemma {:induction false} CountNone(c: Calendar, lo: int, hi: int)
    requires forall k :: lo <= k < hi ==> !IsWorkday(c, k)
    ensures CountWorkdays(c, lo, hi) == 0
    decreases hi - lo
  {
    if lo < hi {
      CountNone(c, lo + 1, hi);
    }
  }

  /** Distances add up along any three days. */
  lemma DistanceAdd(c: Calendar, a: int, b: int, d: int)
    ensures Distance(c, a, b) + Distance(c, b, d) == Distance(c, a, d)
  {
    if a <= b <= d {
      CountSplit(c, a, b, d);
    } else if a <= d <= b {
      CountSplit(c, a, d, b);
    } else if b <= a <= d {
      CountSplit(c, b, a, d);
    } else if b <= d <= a {
      CountSplit(c, b, d, a);
    } else if d <= a <= b {
      CountSplit(c, d, a, b);
    } else {
      CountSplit(c, d, b, a);
    }
  }

  /** Between two workdays the distance is zero only when they are the same day. */
  lemma DistanceZero(c: Calendar, a: int, b: int)
    requires IsWorkday(c, a) && IsWorkday(c, b) && Distance(c, a, b) == 0
    ensures a == b
  {
  }

  /** From a workday, the next workday is one workday on and the previous one is one workday back. */
  lemma StepDistance(c: Calendar, day: int)
    requires WorkdaysUnbounded(c) && IsWorkday(c, day)
    ensures Distance(c, day, NextWorkday(c, day)) == 1
    ensures Distance(c, day, PreviousWorkday(c, day)) == -1
  {
    assert HasWorkdayAfter(c, day) && HasWorkdayBefore(c, day);
    var n := NextWorkday(c, day);
    CountSplit(c, day, day + 1, n);
    CountNone(c, day + 1, n);
    var p := PreviousWorkday(c, day);
    CountSplit(c, p, p + 1, day);
    CountNone(c, p + 1, day);
  }

  // ---------------------------------------------------------------------------
  // Walking whole workdays

  /** k steps to the next workday start when k > 0, -k steps to the previous one when k < 0. */
  ghost function Walk(c: Calendar, start: DateTime, k: int): (r: DateTime)
    requires Ready(c) && WorkdaysUnbounded(c)
    ensures k != 0 ==> r.time == c.start
    decreases if k < 0 then -k else k
  {
    if k == 0 then start
    else if k > 0 then
      var w := Walk(c, start, k - 1);
      assert HasWorkdayAfter(c, w.day);
      NextWorkdayStart(c, w)
    else
      var w := Walk(c, start, k + 1);
      assert HasWorkdayBefore(c, w.day);
      PreviousWorkdayStart(c, w)
  }

  /** A walk of k steps from a workday ends on a workday exactly k workdays away. */
  lemma {:induction false} WalkDistance(c: Calendar, start: DateTime, k: int)
    requires Ready(c) && WorkdaysUnbounded(c) && IsWorkday(c, start.day)
    ensures IsWorkday(c, Walk(c, start, k).day)
    ensures Distance(c, start.day, Walk(c, start, k).day) == k
    decreases if k < 0 then -k else k
  {
    if k > 0 {
      var w := Walk(c, start, k - 1);
      WalkDistance(c, start, k - 1);
      StepDistance(c, w.day);
      DistanceAdd(c, start.day, w.day, NextWorkday(c, w.day));
    } else if k < 0 {
      var w := Walk(c, start, k + 1);
      WalkDistance(c, start, k + 1);
      StepDistance(c, w.day);
      DistanceAdd(c, start.day, w.day, PreviousWorkday(c, w.day));
    }
  }

  /**
   * GetUpdatedWorkday: walk the whole workdays of the increment (floor(x)
   * steps forward for x >= 0, ceil(-x) steps back for x < 0, both floor(x)),
   * then place the fractional remainder, which lies in [0, 1), in the window.
   */
  ghost function UpdatedWorkday(c: Calendar, start: DateTime, increment: real): (r: DateTime)
    requires Ready(c) && WorkdaysUnbounded(c) && start.time == c.start
  {
    var k := increment.Floor;
    UpdateTimeFromIncrement(c, Walk(c, start, k), increment - k as real)
  }

  /**
   * From a workday start, the result is a workday instant whose distance in
   * workdays plus elapsed window fraction is the increment; with start < stop
   * it lies inside the window.
   */
  lemma UpdatedWorkdayMeaning(c: Calendar, start: DateTime, increment: real)
    requires Ready(c) && WorkdaysUnbounded(c) && start.time == c.start && IsWorkday(c, start.day)
    ensures var r := UpdatedWorkday(c, start, increment);
      && IsWorkday(c, r.day)
      && Distance(c, start.day, r.day) as real + StartDateIncrement(c, r.time) == increment
      && (c.start < c.stop ==> c.start <= r.time < c.stop)
  {
    WalkDistance(c, start, increment.Floor);
  }

  /** Sign symmetry: +r from a workday start and r - 1 from the next workday start meet. */
  lemma SignSymmetry(c: Calendar, start: DateTime, r: real)
    requires Ready(c) && WorkdaysUnbounded(c) && start.time == c.start && IsWorkday(c, start.day)
    requires IsPositiveFraction(r)
    ensures HasWorkdayAfter(c, start.day)
    ensures UpdatedWorkday(c, start, r) == UpdatedWorkday(c, NextWorkdayStart(c, start), r - 1.0)
  {
    assert HasWorkdayAfter(c, start.day);
    var next := NextWorkdayStart(c, start);
    assert (r - 1.0).Floor == -1;
    NextPreviousInverse(c, start.day);
    assert Walk(c, next, -1) == PreviousWorkdayStart(c, next);
    assert r.Floor == 0;
  }

  // ---------------------------------------------------------------------------
  // Normalising the start instant

  /**
   * GetStartDateAdjusted: a start instant that is not inside a workday's
   * window becomes a workday-start anchor; a negative increment then counts
   * from the window stop, so one workday is added to it.
   */
  ghost function StartDateAdjusted(c: Calendar, date: DateTime, increment: real): (r: Result<Adjusted>)
    requires Ready(c) && WorkdaysUnbounded(c)
    ensures r.Failure? <==> IsWorkday(c, date.day) && IsWithinWorkday(c, date.time)
    ensures r.Failure? ==> r.error == UnexpectedDate
    ensures r.Success? ==> IsWorkday(c, r.value.anchor.day) && r.value.anchor.time == c.start
    ensures r.Success? ==> r.value.increment == (if increment >= 0.0 then increment else increment + 1.0)
  {
    assert HasWorkdayAfter(c, date.day) && HasWorkdayBefore(c, date.day);
    ConfiguredIffSet(c);
    if IsWorkday(c, date.day) then
      if date.time < c.start && increment < 0.0 then
        Success(Adjusted(PreviousWorkdayStart(c, date), UpdateNegativeIncrement(increment)))
      else if date.time < c.start && increment >= 0.0 then
        Success(Adjusted(DateTime(date.day, c.start), increment))
      else if c.stop < date.time && increment < 0.0 then
        Success(Adjusted(DateTime(date.day, c.start), UpdateNegativeIncrement(increment)))
      else if c.stop < date.time && increment >= 0.0 then
        Success(Adjusted(NextWorkdayStart(c, date), increment))
      else
        Failure(UnexpectedDate)
    else if increment >= 0.0 then
      Success(Adjusted(NextWorkdayStart(c, date), increment))
    else
      Success(Adjusted(PreviousWorkdayStart(c, date), UpdateNegativeIncrement(increment)))
  }

  /** The instant (day, time) is at or after the instant t. */
  predicate NotBefore(day: int, time: real, t: DateTime)
  {
    day > t.day || (day == t.day && time >= t.time)
  }

  /** The instant (day, time) is at or before the instant t. */
  predicate NotAfter(day: int, time: real, t: DateTime)
  {
    day < t.day || (day == t.day && time <= t.time)
  }

  /**
   * Outside a workday's window the normalisation never takes its error
   * branch, always anchors at a workday's window start, keeps a non-negative
   * increment and raises a negative one by exactly 1. With start < stop the
   * anchor is the first workday whose window starts at or after the instant
   * (increment >= 0), or the last workday whose window stops at or before it
   * (increment < 0).
   */
  lemma StartDateAdjustedMeaning(c: Calendar, date: DateTime, increment: real)
    requires Ready(c) && WorkdaysUnbounded(c)
    requires !(IsWorkday(c, date.day) && IsWithinWorkday(c, date.time))
    ensures StartDateAdjusted(c, date, increment).Success?
    ensures var a := StartDateAdjusted(c, date, increment).value;
      && IsWorkday(c, a.anchor.day) && a.anchor.time == c.start
      && (increment >= 0.0 ==> a.increment == increment && a.anchor.day >= date.day)
      && (increment < 0.0 ==> a.increment == increment + 1.0 && a.anchor.day <= date.day)
    ensures var a := StartDateAdjusted(c, date, increment).value;
      c.start < c.stop && increment >= 0.0 ==>
        && NotBefore(a.anchor.day, c.start, date)
        && forall n :: n < a.anchor.day && IsWorkday(c, n) ==> !NotBefore(n, c.start, date)
    ensures var a := StartDateAdjusted(c, date, increment).value;
      c.start < c.stop && increment < 0.0 ==>
        && NotAfter(a.anchor.day, c.stop, date)
        && forall n :: n > a.anchor.day && IsWorkday(c, n) ==> !NotAfter(n, c.stop, date)
  {
    assert HasWorkdayAfter(c, date.day) && HasWorkdayBefore(c, date.day);
  }

  // ---------------------------------------------------------------------------
  // The increment

  /** GetWorkdayIncrement. */
  ghost function WorkdayIncrement(c: Calendar, startDate: DateTime, increment: real): (r: Result<DateTime>)
    requires Valid(c) && (Configured(c) ==> WorkdaysUnbounded(c))
    ensures r.Failure? <==> !Configured(c)
    ensures r.Failure? ==> r.error == WindowNotSet
    ensures r.Success? ==> IsWorkday(c, r.value.day)
  {
    if TimeSpanHours(c.start) < 0 || TimeSpanHours(c.stop) < 0 then
      Failure(WindowNotSet)
    else if IsWorkday(c, startDate.day) && IsWithinWorkday(c, startDate.time) then
      ConfiguredIffSet(c);
      var adjusted := increment + StartDateIncrement(c, startDate.time);
      UpdatedWorkdayMeaning(c, DateTime(startDate.day, c.start), adjusted);
      Success(UpdatedWorkday(c, DateTime(startDate.day, c.start), adjusted))
    else
      StartDateAdjustedMeaning(c, startDate, increment);
      match StartDateAdjusted(c, startDate, increment)
      case Failure(e) => Failure(e)
      case Success(a) =>
        UpdatedWorkdayMeaning(c, a.anchor, a.increment);
        Success(UpdatedWorkday(c, a.anchor, a.increment))
  }

  /** A calendar whose window was never set refuses every increment. */
  lemma UnsetWindowFails(c: Calendar, startDate: DateTime, increment: real)
    requires Valid(c) && c.start == Unset
    ensures WorkdayIncrement(c, startDate, increment) == Failure(WindowNotSet)
  {
    ConfiguredIffSet(c);
  }

  /**
   * From an instant inside a workday's window, the result is a workday instant
   * inside the window, and the workdays between the two days plus the change
   * in elapsed window fraction is the increment.
   */
  lemma WorkdayIncrementFromWindow(c: Calendar, startDate: DateTime, increment: real)
    requires Ready(c) && WorkdaysUnbounded(c) && c.start < c.stop
    requires IsWorkday(c, startDate.day) && IsWithinWorkday(c, startDate.time)
    ensures var r := WorkdayIncrement(c, startDate, increment).value;
      && IsWorkday(c, r.day) && c.start <= r.time < c.stop
      && Distance(c, startDate.day, r.day) as real + StartDateIncrement(c, r.time)
         == increment + StartDateIncrement(c, startDate.time)
  {
    ConfiguredIffSet(c);
    UpdatedWorkdayMeaning(c, DateTime(startDate.day, c.start), increment + StartDateIncrement(c, startDate.time));
  }

  /**
   * From an instant outside every workday window, the result is a workday
   * instant inside the window, measured from the anchor of the normalisation:
   * the first workday start after the instant for increment >= 0, and for
   * increment < 0 the last workday stop before it (the anchor's start plus one).
   */
  lemma WorkdayIncrementFromOutside(c: Calendar, startDate: DateTime, increment: real)
    requires Ready(c) && WorkdaysUnbounded(c) && c.start < c.stop
    requires !(IsWorkday(c, startDate.day) && IsWithinWorkday(c, startDate.time))
    ensures StartDateAdjusted(c, startDate, increment).Success?
    ensures var a := StartDateAdjusted(c, startDate, increment).value;
      var r := WorkdayIncrement(c, startDate, increment).value;
      && IsWorkday(c, r.day) && c.start <= r.time < c.stop
      && Distance(c, a.anchor.day, r.day) as real + StartDateIncrement(c, r.time)
         == (if increment >= 0.0 then increment else increment + 1.0)
  {
    ConfiguredIffSet(c);
    StartDateAdjustedMeaning(c, startDate, increment);
    var a := StartDateAdjusted(c, startDate, increment).value;
    UpdatedWorkdayMeaning(c, a.anchor, a.increment);
  }

  /** Going x workdays from an in-window workday instant and then -x comes back to it. */
  lemma RoundTrip(c: Calendar, t: DateTime, x: real)
    requires Ready(c) && WorkdaysUnbounded(c) && c.start < c.stop
    requires IsWorkday(c, t.day) && c.start <= t.time < c.stop
    ensures WorkdayIncrement(c, WorkdayIncrement(c, t, x).value, -x) == Success(t)
  {
    var r := WorkdayIncrement(c, t, x).value;
    WorkdayIncrementFromWindow(c, t, x);
    var back := WorkdayIncrement(c, r, -x).value;
    WorkdayIncrementFromWindow(c, r, -x);
    DistanceAdd(c, t.day, r.day, back.day);
    var f0 := StartDateIncrement(c, t.time);
    var f2 := StartDateIncrement(c, back.time);
    assert Distance(c, t.day, back.day) == 0;
    DistanceZero(c, t.day, back.day);
    StartDateIncrementInjective(c, t.time, back.time);
  }

  /** An increment of 0 from an instant inside a workday's window gives the instant back. */
  lemma ZeroIncrementIdentity(c: Calendar, t: DateTime)
    requires Ready(c) && WorkdaysUnbounded(c) && c.start < c.stop
    requires IsWorkday(c, t.day) && c.start <= t.time < c.stop
    ensures WorkdayIncrement(c, t, 0.0) == Success(t)
  {
    var r := WorkdayIncrement(c, t, 0.0).value;
    WorkdayIncrementFromWindow(c, t, 0.0);
    assert Distance(c, t.day, r.day) == 0;
    DistanceZero(c, t.day, r.day);
    StartDateIncrementInjective(c, t.time, r.time);
  }

  /** The window is closed: an instant exactly at its stop counts as inside, and 0 from it is the next workday's start. */
  lemma StopIsNextStart(c: Calendar, t: DateTime)
    requires Ready(c) && WorkdaysUnbounded(c) && c.start < c.stop
    requires IsWorkday(c, t.day) && t.time == c.stop
    ensures HasWorkdayAfter(c, t.day)
    ensures WorkdayIncrement(c, t, 0.0) == Success(NextWorkdayStart(c, t))
  {
    assert HasWorkdayAfter(c, t.day);
    FractionAtStop(c);
    var anchor := DateTime(t.day, c.start);
    assert Walk(c, anchor, 1) == NextWorkdayStart(c, t);
    assert SecondsToUpdate(WindowSpan(c), 0.0) == 0.0;
  }

  /** At the window stop the whole window has passed. */
  lemma FractionAtStop(c: Calendar)
    requires Ready(c) && c.start < c.stop
    ensures StartDateIncrement(c, c.stop) == 1.0
  {
    var span := WindowSpan(c);
    FractionOfProduct(span, 1.0);
    assert span * 1.0 == c.stop - c.start;
  }

  // ---------------------------------------------------------------------------
  // When workdays do not run out

  function MaxDay(s: seq<DateTime>, floor: int): (m: int)
    ensures m >= floor && forall h :: h in s ==> h.day <= m
  {
    if s == [] then floor else
      var rest := MaxDay(s[1..], floor);
      if s[0].day > rest then s[0].day else rest
  }

  function MinDay(s: seq<DateTime>, ceiling: int): (m: int)
    ensures m <= ceiling && forall h :: h in s ==> h.day >= m
  {
    if s == [] then ceiling else
      var rest := MinDay(s[1..], ceiling);
      if s[0].day < rest then s[0].day else rest
  }

  /** Some weekday's month and day is not a recurring holiday. */
  ghost predicate HasFreeWeekday(c: Calendar)
  {
    exists w :: !IsWeekend(w) && !IsRecurringHoliday(c, w)
  }

  /** A free weekday stays free a whole number of eras away. */
  lemma FreeEraAway(c: Calendar, w: int, m: int)
    requires !IsWeekend(w) && !IsRecurringHoliday(c, w)
    ensures !IsWeekend(w + 146097 * m) && !IsRecurringHoliday(c, w + 146097 * m)
  {
    EraPeriodic(w, m);
  }

  /**
   * Workdays never run out, in either direction, exactly when some weekday's
   * month and day is free of recurring holidays: the individual holidays are
   * finitely many, and the calendar repeats every era.
   */
  lemma UnboundedIffFreeWeekday(c: Calendar)
    ensures WorkdaysUnbounded(c) <==> HasFreeWeekday(c)
  {
    if WorkdaysUnbounded(c) {
      assert HasWorkdayAfter(c, 0);
      var n :| n > 0 && IsWorkday(c, n);
      assert !IsWeekend(n) && !IsRecurringHoliday(c, n);
    }
    if HasFreeWeekday(c) {
      var w :| !IsWeekend(w) && !IsRecurringHoliday(c, w);
      forall day
        ensures HasWorkdayAfter(c, day) && HasWorkdayBefore(c, day)
      {
        var hi := MaxDay(c.individual, day);
        var m := (hi - w) / 146097 + 1;
        FreeEraAway(c, w, m);
        assert IsWorkday(c, w + 146097 * m);
        var lo := MinDay(c.individual, day);
        var k := -((w - lo) / 146097 + 1);
        FreeEraAway(c, w, k);
        assert IsWorkday(c, w + 146097 * k);
      }
    }
  }

  /** Without recurring holidays, finitely many individual holidays never exhaust the workdays. */
  lemma UnboundedWithoutRecurring(c: Calendar)
    requires c.recurring == []
    ensures WorkdaysUnbounded(c)
  {
    UnboundedIffFreeWeekday(c);
    assert !IsWeekend(0) && !IsRecurringHoliday(c, 0);
  }
}
