/**
 * The calendar's shared state: the date being viewed, the selected date
 * and the kind of view, the navigation handlers that move the view date by
 * a month, a week or a day, and the header text of each view.
 */
module CalendarContext {
  import opened EcmaDate
  import opened JsText
  import CalendarUtils
  import WeekView

  datatype CalendarViewType = ViewMonth | ViewWeek | ViewDay

  // ---------------------------------------------------------------------
  // The navigation steps, as functions of the view date

  /** A copy of the date with `setMonth(getMonth() + delta)`. */
  function MonthStep(t: int, delta: int): int
  {
    SetMonth(t, MonthFromTime(t) + delta)
  }

  /** A copy of the date with `setDate(getDate() + delta)`. */
  function DayStep(t: int, delta: int): int
  {
    SetDate(t, DateFromTime(t) + delta)
  }

  /** A time value is fixed by its day and its time within the day. */
  lemma SameDayAndTime(a: int, b: int)
    requires Day(a) == Day(b) && TimeWithinDay(a) == TimeWithinDay(b)
    ensures a == b
  {
    DayTimeSplit(a);
    DayTimeSplit(b);
  }

  /** A day step moves the day number by exactly delta, across month and
      year ends, and keeps the time of day. */
  lemma DayStepMoves(t: int, delta: int)
    ensures Day(DayStep(t, delta)) == Day(t) + delta
    ensures TimeWithinDay(DayStep(t, delta)) == TimeWithinDay(t)
  {
    SetDateShift(t, DateFromTime(t) + delta);
  }

  /** Two day steps are one step by their sum. */
  lemma DayStepsCompose(t: int, a: int, b: int)
    ensures DayStep(DayStep(t, a), b) == DayStep(t, a + b)
  {
    DayStepMoves(t, a);
    DayStepMoves(DayStep(t, a), b);
    DayStepMoves(t, a + b);
    SameDayAndTime(DayStep(DayStep(t, a), b), DayStep(t, a + b));
  }

  /** `nextDay` and `prevDay` undo each other. */
  lemma NextPrevDayInverse(t: int)
    ensures DayStep(DayStep(t, 1), -1) == t
    ensures DayStep(DayStep(t, -1), 1) == t
  {
    DayStepsCompose(t, 1, -1);
    DayStepsCompose(t, -1, 1);
    DayStepMoves(t, 0);
    SameDayAndTime(DayStep(t, 0), t);
  }

  /** A week step is seven day steps. */
  lemma WeekIsSevenDays(t: int)
    ensures DayStep(t, 7) == DayStep(DayStep(DayStep(DayStep(DayStep(DayStep(DayStep(t, 1), 1), 1), 1), 1), 1), 1)
    ensures DayStep(t, -7) == DayStep(DayStep(DayStep(DayStep(DayStep(DayStep(DayStep(t, -1), -1), -1), -1), -1), -1), -1)
  {
    DayStepsCompose(t, 1, 1);
    DayStepsCompose(t, 2, 1);
    DayStepsCompose(t, 3, 1);
    DayStepsCompose(t, 4, 1);
    DayStepsCompose(t, 5, 1);
    DayStepsCompose(t, 6, 1);
    DayStepsCompose(t, -1, -1);
    DayStepsCompose(t, -2, -1);
    DayStepsCompose(t, -3, -1);
    DayStepsCompose(t, -4, -1);
    DayStepsCompose(t, -5, -1);
    DayStepsCompose(t, -6, -1);
  }

  /** A week step keeps the weekday. */
  lemma WeekStepKeepsWeekday(t: int)
    ensures WeekDayOf(DayStep(t, 7)) == WeekDayOf(t)
    ensures WeekDayOf(DayStep(t, -7)) == WeekDayOf(t)
  {
    DayStepMoves(t, 7);
    DayStepMoves(t, -7);
    WeekDayPeriod(Day(t));
  }

  lemma WeekDayPeriod(n: int)
    ensures WeekDay(n + 7) == WeekDay(n) && WeekDay(n - 7) == WeekDay(n)
  {
    DivModUnique(n + 7 + 4, 7, (n + 4) / 7 + 1, WeekDay(n));
    DivModUnique(n - 7 + 4, 7, (n + 4) / 7 - 1, WeekDay(n));
  }

  /** The day `setMonth` builds is MakeDay's day in the normalised month. */
  lemma NormalisedMonthDate(y: int, month: int, d: int, time: int, ny: int, nm: int)
    requires 0 <= time < MsPerDay
    requires ny == y + month / 12 && nm == month % 12
    ensures Day(MakeDate(MakeDay(y, month, d), time)) == MakeDay(ny, nm, d)
    ensures TimeWithinDay(MakeDate(MakeDay(y, month, d), time)) == time
  {
    MakeDayNormal(y, month, d);
    MakeDateInDay(MakeDay(y, month, d), time);
  }

  /** A month step lands on the day MakeDay gives the view date's date in
      the normalised target month, at the same time of day. */
  lemma MonthStepDay(t: int, delta: int, ny: int, nm: int)
    requires ny == YearFromTime(t) + (MonthFromTime(t) + delta) / 12
    requires nm == (MonthFromTime(t) + delta) % 12
    ensures 0 <= nm < 12
    ensures Day(MonthStep(t, delta)) == MakeDay(ny, nm, DateFromTime(t))
    ensures TimeWithinDay(MonthStep(t, delta)) == TimeWithinDay(t)
  {
    NormalisedMonthDate(YearFromTime(t), MonthFromTime(t) + delta, DateFromTime(t), TimeWithinDay(t), ny, nm);
  }

  /** A month step whose date exists in the target month lands on that
      date of the month delta months on (the year rolling over as needed),
      at the same time of day. */
  lemma MonthStepWithin(t: int, delta: int, ny: int, nm: int)
    requires ny == YearFromTime(t) + (MonthFromTime(t) + delta) / 12
    requires nm == (MonthFromTime(t) + delta) % 12
    requires DateFromTime(t) <= DaysInMonth(ny, nm)
    ensures YearFromTime(MonthStep(t, delta)) == ny
    ensures MonthFromTime(MonthStep(t, delta)) == nm
    ensures DateFromTime(MonthStep(t, delta)) == DateFromTime(t)
    ensures TimeWithinDay(MonthStep(t, delta)) == TimeWithinDay(t)
  {
    MonthStepDay(t, delta, ny, nm);
    CivilFromMakeDay(Civil(ny, nm, DateFromTime(t)));
  }

  /** A date past the end of its month is a date of the month after. */
  lemma PastMonthEnd(y: int, m: int, d: int, e: Civil, ay: int, am: int)
    requires 0 <= m < 12 && DaysInMonth(y, m) < d <= 31
    requires ay == y + (m + 1) / 12 && am == (m + 1) % 12
    requires ValidCivil(e) && MakeDay(e.year, e.month, e.day) == MakeDay(y, m, d)
    ensures e == Civil(ay, am, d - DaysInMonth(y, m))
  {
    MakeDayShift(y, m, 1, d - 1);
    CivilShiftOver(Civil(y, m, 1), d - 1, ay, am, e);
  }

  /** A month step from a date the target month does not have (the 31st
      into a 30-day month, the 29th to 31st into February) overflows into
      the month after the target, `setMonth`'s normalisation. */
  lemma MonthStepOverflow(t: int, delta: int, ny: int, nm: int, ay: int, am: int)
    requires ny == YearFromTime(t) + (MonthFromTime(t) + delta) / 12
    requires nm == (MonthFromTime(t) + delta) % 12
    requires ay == ny + (nm + 1) / 12 && am == (nm + 1) % 12
    requires DateFromTime(t) > DaysInMonth(ny, nm)
    ensures YearFromTime(MonthStep(t, delta)) == ay
    ensures MonthFromTime(MonthStep(t, delta)) == am
    ensures DateFromTime(MonthStep(t, delta)) == DateFromTime(t) - DaysInMonth(ny, nm)
    ensures TimeWithinDay(MonthStep(t, delta)) == TimeWithinDay(t)
  {
    MonthStepDay(t, delta, ny, nm);
    var e := CivilFromDay(Day(MonthStep(t, delta)));
    PastMonthEnd(ny, nm, DateFromTime(t), e, ay, am);
  }

  /** The month index after a step of +1 or -1 from month m of year y. */
  lemma MonthIndexStep(y: int, m: int)
    requires 0 <= m < 12
    ensures (m + 1) / 12 == (if m == 11 then 1 else 0) && (m + 1) % 12 == (if m == 11 then 0 else m + 1)
    ensures (m - 1) / 12 == (if m == 0 then -1 else 0) && (m - 1) % 12 == (if m == 0 then 11 else m - 1)
  {
    if m == 11 { DivModUnique(m + 1, 12, 1, 0); } else { DivModUnique(m + 1, 12, 0, m + 1); }
    if m == 0 { DivModUnique(m - 1, 12, -1, 11); } else { DivModUnique(m - 1, 12, 0, m - 1); }
  }

  /** Two instants with the same calendar date and time of day are equal. */
  lemma SameDateAndTime(a: int, b: int)
    requires YearFromTime(a) == YearFromTime(b) && MonthFromTime(a) == MonthFromTime(b)
    requires DateFromTime(a) == DateFromTime(b) && TimeWithinDay(a) == TimeWithinDay(b)
    ensures a == b
  {
    assert CivilFromDay(Day(a)) == CivilFromDay(Day(b));
    CivilFromDayInjective(Day(a), Day(b));
    SameDayAndTime(a, b);
  }

  /** A step of +1 month then -1 month from a date no later than the 28th
      comes back to the same instant. */
  lemma NextThenPrevMonth(t: int)
    requires DateFromTime(t) <= 28
    ensures MonthStep(MonthStep(t, 1), -1) == t
  {
    var y, m := YearFromTime(t), MonthFromTime(t);
    MonthIndexStep(y, m);
    var ny := y + (m + 1) / 12;
    var nm := (m + 1) % 12;
    MonthStepWithin(t, 1, ny, nm);
    var t1 := MonthStep(t, 1);
    MonthIndexStep(ny, nm);
    MonthStepWithin(t1, -1, y, m);
    SameDateAndTime(MonthStep(t1, -1), t);
  }

  /** A step of -1 month then +1 month from a date no later than the 28th
      comes back to the same instant. */
  lemma PrevThenNextMonth(t: int)
    requires DateFromTime(t) <= 28
    ensures MonthStep(MonthStep(t, -1), 1) == t
  {
    var y, m := YearFromTime(t), MonthFromTime(t);
    MonthIndexStep(y, m);
    var py := y + (m - 1) / 12;
    var pm := (m - 1) % 12;
    MonthStepWithin(t, -1, py, pm);
    var t2 := MonthStep(t, -1);
    MonthIndexStep(py, pm);
    MonthStepWithin(t2, 1, y, m);
    SameDateAndTime(MonthStep(t2, 1), t);
  }

  /** From a date no later than the 28th, `nextMonth` then `prevMonth`
      (or the other way round) comes back to the same instant. */
  lemma NextPrevMonthInverse(t: int)
    requires DateFromTime(t) <= 28
    ensures MonthStep(MonthStep(t, 1), -1) == t
    ensures MonthStep(MonthStep(t, -1), 1) == t
  {
    NextThenPrevMonth(t);
    PrevThenNextMonth(t);
  }

  // ---------------------------------------------------------------------
  // The context's state

  class CalendarState {
    var viewDate: int
    var selectedDate: int
    var viewType: CalendarViewType

    /** Both dates start at the injected current time, in month view. */
    constructor (now: int)
      ensures viewDate == now && selectedDate == now && viewType == ViewMonth
    {
      viewDate := now;
      selectedDate := now;
      viewType := ViewMonth;
    }

    method PrevMonth()
      modifies this
      ensures viewDate == MonthStep(old(viewDate), -1)
      ensures selectedDate == old(selectedDate) && viewType == old(viewType)
    {
      var newDate := viewDate;
      newDate := SetMonth(newDate, MonthFromTime(newDate) - 1);
      viewDate := newDate;
    }

    method NextMonth()
      modifies this
      ensures viewDate == MonthStep(old(viewDate), 1)
      ensures selectedDate == old(selectedDate) && viewType == old(viewType)
    {
      var newDate := viewDate;
      newDate := SetMonth(newDate, MonthFromTime(newDate) + 1);
      viewDate := newDate;
    }

    method PrevWeek()
      modifies this
      ensures viewDate == DayStep(old(viewDate), -7)
      ensures selectedDate == old(selectedDate) && viewType == old(viewType)
    {
      var newDate := viewDate;
      newDate := SetDate(newDate, DateFromTime(newDate) - 7);
      viewDate := newDate;
    }

    method NextWeek()
      modifies this
      ensures viewDate == DayStep(old(viewDate), 7)
      ensures selectedDate == old(selectedDate) && viewType == old(viewType)
    {
      var newDate := viewDate;
      newDate := SetDate(newDate, DateFromTime(newDate) + 7);
      viewDate := newDate;
    }

    method PrevDay()
      modifies this
      ensures viewDate == DayStep(old(viewDate), -1)
      ensures selectedDate == old(selectedDate) && viewType == old(viewType)
    {
      var newDate := viewDate;
      newDate := SetDate(newDate, DateFromTime(newDate) - 1);
      viewDate := newDate;
    }

    method NextDay()
      modifies this
      ensures viewDate == DayStep(old(viewDate), 1)
      ensures selectedDate == old(selectedDate) && viewType == old(viewType)
    {
      var newDate := viewDate;
      newDate := SetDate(newDate, DateFromTime(newDate) + 1);
      viewDate := newDate;
    }

    method SetViewDate(date: int)
      modifies this
      ensures viewDate == date
      ensures selectedDate == old(selectedDate) && viewType == old(viewType)
    {
      viewDate := date;
    }

    method SetSelectedDate(date: int)
      modifies this
      ensures selectedDate == date
      ensures viewDate == old(viewDate) && viewType == old(viewType)
    {
      selectedDate := date;
    }

    method SetViewType(kind: CalendarViewType)
      modifies this
      ensures viewType == kind
      ensures viewDate == old(viewDate) && selectedDate == old(selectedDate)
    {
      viewType := kind;
    }

    /** The header of the current view. */
    function Header(): string
      reads this
    {
      FormatViewDate(viewDate, viewType)
    }
  }

  // ---------------------------------------------------------------------
  // The header

  const WeekdayNames: seq<string> := ["Sunday", "Monday", "Tuesday", "Wednesday", "Thursday", "Friday", "Saturday"]

  /** The name column of the month table (the names do not depend on the
      year the table was built for). */
  function MonthName(m: int): string
    requires 0 <= m < 12
  {
    CalendarUtils.MonthNames[m]
  }

  /** The last day of the week that starts at `startOfWeek`: a copy with
      `setDate(getDate() + 6)`. */
  function EndOfWeek(startOfWeek: int): int
  {
    SetDate(startOfWeek, DateFromTime(startOfWeek) + 6)
  }

  /** `formatViewDate`. The week range runs from the Sunday on or before
      the view date to the Saturday after it; the year printed is always
      the view date's own. */
  function FormatViewDate(viewDate: int, viewType: CalendarViewType): string
  {
    match viewType
    case ViewMonth => MonthHeader(viewDate)
    case ViewWeek => WeekHeader(viewDate)
    case ViewDay => DayHeader(viewDate)
  }

  /** "<month> <year>". */
  function MonthHeader(viewDate: int): string
  {
    MonthName(MonthFromTime(viewDate)) + " " + IntToString(YearFromTime(viewDate))
  }

  /** "<month> <a> - <b>, <year>" for a week inside one month, else
      "<month> <a> - <month> <b>, <year>". */
  function WeekHeader(viewDate: int): string
  {
    var year := YearFromTime(viewDate);
    var startOfWeek := WeekView.StartOfWeek(viewDate);
    var endOfWeek := EndOfWeek(startOfWeek);
    var startMonth := MonthName(MonthFromTime(startOfWeek));
    var endMonth := MonthName(MonthFromTime(endOfWeek));
    if startMonth == endMonth then
      startMonth + " " + IntToString(DateFromTime(startOfWeek)) + " - "
        + IntToString(DateFromTime(endOfWeek)) + ", " + IntToString(year)
    else
      startMonth + " " + IntToString(DateFromTime(startOfWeek)) + " - "
        + endMonth + " " + IntToString(DateFromTime(endOfWeek)) + ", " + IntToString(year)
  }

  /** "<weekday>, <month> <date>, <year>". */
  function DayHeader(viewDate: int): string
  {
    WeekdayNames[WeekDayOf(viewDate)] + ", " + MonthName(MonthFromTime(viewDate)) + " "
      + IntToString(DateFromTime(viewDate)) + ", " + IntToString(YearFromTime(viewDate))
  }

  lemma MonthNamesPlain(m: int)
    requires 0 <= m < 12
    ensures ' ' !in MonthName(m) && ',' !in MonthName(m)
  {
  }

  lemma MonthNamesDistinct(a: int, b: int)
    requires 0 <= a < 12 && 0 <= b < 12 && MonthName(a) == MonthName(b)
    ensures a == b
  {
  }

  /** The month header names one month of one year: two view dates with
      the same month header are in the same month of the same year. */
  lemma MonthHeaderIdentifiesMonth(a: int, b: int)
    requires MonthHeader(a) == MonthHeader(b)
    ensures MonthFromTime(a) == MonthFromTime(b) && YearFromTime(a) == YearFromTime(b)
  {
    var ma, mb := MonthName(MonthFromTime(a)), MonthName(MonthFromTime(b));
    var ya, yb := IntToString(YearFromTime(a)), IntToString(YearFromTime(b));
    MonthNamesPlain(MonthFromTime(a));
    MonthNamesPlain(MonthFromTime(b));
    assert MonthHeader(a) == ma + " " + ya;
    assert MonthHeader(b) == mb + " " + yb;
    ConcatAssoc(ma, " ", ya);
    ConcatAssoc(mb, " ", yb);
    SplitAtDelimiter(' ', ma, " " + ya, mb, " " + yb);
    assert ya == (" " + ya)[1..];
    assert yb == (" " + yb)[1..];
    IntToStringInjective(YearFromTime(a), YearFromTime(b));
    MonthNamesDistinct(MonthFromTime(a), MonthFromTime(b));
  }

  lemma WeekdayNamesPlain(w: int)
    requires 0 <= w < 7
    ensures ',' !in WeekdayNames[w]
  {
  }

  /** The day header names one calendar day: two view dates with the same
      day header fall on the same day. */
  lemma DayHeaderIdentifiesDay(a: int, b: int)
    requires DayHeader(a) == DayHeader(b)
    ensures Day(a) == Day(b)
  {
    var wa, wb := WeekdayNames[WeekDayOf(a)], WeekdayNames[WeekDayOf(b)];
    var ma, mb := MonthName(MonthFromTime(a)), MonthName(MonthFromTime(b));
    var da, db := IntToString(DateFromTime(a)), IntToString(DateFromTime(b));
    var ya, yb := IntToString(YearFromTime(a)), IntToString(YearFromTime(b));
    var ra := ", " + (ma + (" " + (da + (", " + ya))));
    var rb := ", " + (mb + (" " + (db + (", " + yb))));
    Concat6Assoc(wa, ", ", ma, " ", da, ", " + ya);
    Concat6Assoc(wb, ", ", mb, " ", db, ", " + yb);
    ConcatAssoc(wa + ", " + ma + " " + da, ", ", ya);
    ConcatAssoc(wb + ", " + mb + " " + db, ", ", yb);
    assert wa + ra == wb + rb;
    WeekdayNamesPlain(WeekDayOf(a));
    WeekdayNamesPlain(WeekDayOf(b));
    SplitAtDelimiter(',', wa, ra, wb, rb);
    assert ra[2..] == rb[2..];
    assert ra[2..] == ma + (" " + (da + (", " + ya)));
    assert rb[2..] == mb + (" " + (db + (", " + yb)));
    MonthNamesPlain(MonthFromTime(a));
    MonthNamesPlain(MonthFromTime(b));
    SplitAtDelimiter(' ', ma, " " + (da + (", " + ya)), mb, " " + (db + (", " + yb)));
    assert (" " + (da + (", " + ya)))[1..] == da + (", " + ya);
    assert (" " + (db + (", " + yb)))[1..] == db + (", " + yb);
    IntToStringPlain(DateFromTime(a));
    IntToStringPlain(DateFromTime(b));
    SplitAtDelimiter(',', da, ", " + ya, db, ", " + yb);
    assert ya == (", " + ya)[2..];
    assert yb == (", " + yb)[2..];
    IntToStringInjective(DateFromTime(a), DateFromTime(b));
    IntToStringInjective(YearFromTime(a), YearFromTime(b));
    MonthNamesDistinct(MonthFromTime(a), MonthFromTime(b));
    assert CivilFromDay(Day(a)) == CivilFromDay(Day(b));
    CivilFromDayInjective(Day(a), Day(b));
  }

  /** The week header's range is the week view's strip: its first day is
      the strip's first entry and its last day the strip's last. */
  lemma WeekHeaderRangeIsStrip(viewDate: int)
    ensures WeekView.StartOfWeek(viewDate) == WeekView.WeekOf(viewDate)[0]
    ensures Day(EndOfWeek(WeekView.StartOfWeek(viewDate))) == Day(WeekView.WeekOf(viewDate)[6])
    ensures WeekDayOf(EndOfWeek(WeekView.StartOfWeek(viewDate))) == 6
  {
    var s := WeekView.StartOfWeek(viewDate);
    WeekView.WeekEntries(viewDate, 0);
    WeekView.WeekEntries(viewDate, 6);
    SameDayAndTime(s, WeekView.WeekOf(viewDate)[0]);
    SetDateShift(s, DateFromTime(s) + 6);
  }

  /** Two dates six days apart are six dates apart in one month, or else
      the later one is in the following month. */
  lemma SixDaysApart(c: Civil, e: Civil)
    requires ValidCivil(c) && ValidCivil(e)
    requires MakeDay(e.year, e.month, e.day) == MakeDay(c.year, c.month, c.day) + 6
    ensures e.month == c.month <==> e.day == c.day + 6
    ensures e.month != c.month ==> e.month == (c.month + 1) % 12
  {
    if c.day + 6 <= DaysInMonth(c.year, c.month) {
      CivilShiftWithin(c, 6, e);
    } else {
      MonthIndexStep(c.year, c.month);
      CivilShiftOver(c, 6, c.year + (c.month + 1) / 12, (c.month + 1) % 12, e);
    }
  }

  /** The week range stays in one month exactly when its last date is its
      first date plus six; otherwise it ends in the following month. This
      is what decides between the two forms of the week header. */
  lemma WeekHeaderMonths(s: int)
    ensures MonthFromTime(EndOfWeek(s)) == MonthFromTime(s)
        <==> DateFromTime(EndOfWeek(s)) == DateFromTime(s) + 6
    ensures MonthFromTime(EndOfWeek(s)) != MonthFromTime(s)
        ==> MonthFromTime(EndOfWeek(s)) == (MonthFromTime(s) + 1) % 12
  {
    SetDateShift(s, DateFromTime(s) + 6);
    var c := CivilFromDay(Day(s));
    var e := CivilFromDay(Day(EndOfWeek(s)));
    SixDaysApart(c, e);
  }
}
