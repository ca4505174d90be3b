/**
 * The month view's grid: six weeks of seven days, starting on the Sunday
 * on or before the first of the viewed month. The leading cells are the
 * last days of the previous month, then come the days of the month, then
 * the first days of the next month up to 42 cells.
 */
module MonthView {
  import opened EcmaDate

  /** One cell of the grid: midnight of its day, and whether that day is in
      the viewed month. */
  datatype DayInfo = DayInfo(date: int, isCurrentMonth: bool)

  const GridSize: int := 42

  /** The number of leading cells: the weekday of the first of the month. */
  function LeadCount(year: int, month: int): (lead: int)
    ensures 0 <= lead < 7
  {
    WeekDay(MakeDay(year, month, 1))
  }

  /** Cell k of the grid of `month` of the full year `year`: k days after
      the Sunday that starts the grid. */
  function GridCell(year: int, month: int, k: int): DayInfo
    requires 0 <= month < 12
  {
    var lead := LeadCount(year, month);
    DayInfo(MakeDate(MakeDay(year, month, 1) - lead + k, 0),
            lead <= k < lead + DaysInMonth(year, month))
  }

  /** The grid the month view should show, cell by cell. */
  function MonthGrid(year: int, month: int): (cells: seq<DayInfo>)
    requires 0 <= month < 12
    ensures |cells| == GridSize
    ensures forall k :: 0 <= k < GridSize ==> cells[k] == GridCell(year, month, k)
  {
    seq(GridSize, k => GridCell(year, month, k))
  }

  /** `daysInMonth`, read as the date of day 0 of the next month, is the
      Gregorian length of the month. */
  lemma DaysInMonthRead(year: int, month: int)
    requires 0 <= month < 12
    ensures DateFromTime(DateOf(year, month + 1, 0)) == DaysInMonth(year, month)
  {
    DivModUnique(month, 12, 0, month);
    DateZeroIsLastOfPrevious(year, month + 1, year, month);
    MidnightOf(MakeDay(year, month + 1, 0));
  }

  /** `firstDayOfMonth` is the number of leading cells. */
  lemma FirstDayRead(year: int, month: int)
    ensures WeekDayOf(DateOf(year, month, 1)) == LeadCount(year, month)
  {
    MidnightOf(MakeDay(year, month, 1));
  }

  /** `daysInPrevMonth`, read as the date of day 0 of this month, is the
      length of the previous month. */
  lemma DaysInPrevMonthRead(year: int, month: int, py: int, pm: int)
    requires py == year + (month - 1) / 12 && pm == (month - 1) % 12
    ensures 0 <= pm < 12
    ensures DateFromTime(DateOf(year, month, 0)) == DaysInMonth(py, pm)
  {
    DateZeroIsLastOfPrevious(year, month, py, pm);
    MidnightOf(MakeDay(year, month, 0));
  }

  /** The last day of the previous month is the day before the first. */
  lemma LastOfPreviousMonth(year: int, month: int, py: int, pm: int)
    requires py == year + (month - 1) / 12 && pm == (month - 1) % 12
    ensures 0 <= pm < 12
    ensures MakeDay(year, month - 1, DaysInMonth(py, pm)) == MakeDay(year, month, 1) - 1
  {
    MakeDayNormal(year, month - 1, DaysInMonth(py, pm));
    DateZeroDay(year, month, py, pm);
    MakeDayShift(year, month, 0, 1);
  }

  /** What the first loop pushes for its counter i is cell lead - 1 - i. */
  lemma LeadingCellPushed(year: int, month: int, daysInPrevMonth: int, i: int)
    requires 0 <= month < 12 && 0 <= i < LeadCount(year, month)
    requires MakeDay(year, month - 1, daysInPrevMonth) == MakeDay(year, month, 1) - 1
    ensures DayInfo(DateOf(year, month - 1, daysInPrevMonth - i), false)
         == GridCell(year, month, LeadCount(year, month) - 1 - i)
  {
    MakeDayShift(year, month - 1, daysInPrevMonth, -i);
  }

  /** What the second loop pushes for its counter i is cell lead + i - 1. */
  lemma CurrentCellPushed(year: int, month: int, i: int)
    requires 0 <= month < 12 && 1 <= i <= DaysInMonth(year, month)
    ensures DayInfo(DateOf(year, month, i), true) == GridCell(year, month, LeadCount(year, month) + i - 1)
  {
    MakeDayShift(year, month, 1, i - 1);
  }

  /** What the third loop pushes for its counter i is cell lead + dim + i - 1. */
  lemma TrailingCellPushed(year: int, month: int, i: int)
    requires 0 <= month < 12 && 1 <= i
    ensures DayInfo(DateOf(year, month + 1, i), false)
         == GridCell(year, month, LeadCount(year, month) + DaysInMonth(year, month) + i - 1)
  {
    assert MakeDay(year, month + 1, 1) == MakeDay(year, month, 1) + DaysInMonth(year, month) by {
      DivModUnique(month, 12, 0, month);
      MonthStartNext(year, month);
    }
    MakeDayShift(year, month + 1, 1, i - 1);
  }

  /** The first loop: the last `lead` days of the previous month, counting
      i down from lead - 1 to 0. */
  method PushLeading(year: int, month: int, firstDayOfMonth: int, daysInPrevMonth: int)
    returns (cells: seq<DayInfo>)
    requires 0 <= month < 12 && firstDayOfMonth == LeadCount(year, month)
    requires MakeDay(year, month - 1, daysInPrevMonth) == MakeDay(year, month, 1) - 1
    ensures |cells| == firstDayOfMonth
    ensures forall j :: 0 <= j < |cells| ==> cells[j] == GridCell(year, month, j)
  {
    cells := [];
    var i := firstDayOfMonth - 1;
    while i >= 0
      invariant -1 <= i < firstDayOfMonth
      invariant |cells| == firstDayOfMonth - 1 - i
      invariant forall j :: 0 <= j < |cells| ==> cells[j] == GridCell(year, month, j)
    {
      LeadingCellPushed(year, month, daysInPrevMonth, i);
      cells := cells + [DayInfo(DateOf(year, month - 1, daysInPrevMonth - i), false)];
      i := i - 1;
    }
  }

  /** The second loop: days 1 to daysInMonth of the month. */
  method PushCurrent(year: int, month: int, daysInMonth: int, leading: seq<DayInfo>)
    returns (cells: seq<DayInfo>)
    requires 0 <= month < 12 && daysInMonth == DaysInMonth(year, month)
    requires |leading| == LeadCount(year, month)
    requires forall j :: 0 <= j < |leading| ==> leading[j] == GridCell(year, month, j)
    ensures |cells| == LeadCount(year, month) + daysInMonth
    ensures forall j :: 0 <= j < |cells| ==> cells[j] == GridCell(year, month, j)
  {
    cells := leading;
    var i := 1;
    while i <= daysInMonth
      invariant 1 <= i <= daysInMonth + 1
      invariant |cells| == |leading| + i - 1
      invariant forall j :: 0 <= j < |cells| ==> cells[j] == GridCell(year, month, j)
    {
      CurrentCellPushed(year, month, i);
      cells := cells + [DayInfo(DateOf(year, month, i), true)];
      i := i + 1;
    }
  }

  /** The third loop: the next month's first days, up to 42 cells. */
  method PushTrailing(year: int, month: int, before: seq<DayInfo>) returns (cells: seq<DayInfo>)
    requires 0 <= month < 12
    requires |before| == LeadCount(year, month) + DaysInMonth(year, month)
    requires forall j :: 0 <= j < |before| ==> before[j] == GridCell(year, month, j)
    ensures cells == MonthGrid(year, month)
  {
    cells := before;
    var remainingDays := GridSize - |cells|;
    var i := 1;
    while i <= remainingDays
      invariant 1 <= i <= remainingDays + 1
      invariant |cells| == |before| + i - 1
      invariant forall j :: 0 <= j < |cells| ==> cells[j] == GridCell(year, month, j)
    {
      TrailingCellPushed(year, month, i);
      cells := cells + [DayInfo(DateOf(year, month + 1, i), false)];
      i := i + 1;
    }
  }

  /** The three values the month view reads before its loops. */
  method ReadMonth(year: int, month: int) returns (daysInMonth: int, firstDayOfMonth: int, daysInPrevMonth: int)
    requires 0 <= month < 12
    ensures daysInMonth == DaysInMonth(year, month)
    ensures firstDayOfMonth == LeadCount(year, month)
    ensures MakeDay(year, month - 1, daysInPrevMonth) == MakeDay(year, month, 1) - 1
  {
    daysInMonth := DateFromTime(DateOf(year, month + 1, 0));
    firstDayOfMonth := WeekDayOf(DateOf(year, month, 1));
    daysInPrevMonth := DateFromTime(DateOf(year, month, 0));
    DaysInMonthRead(year, month);
    FirstDayRead(year, month);
    var py := year + (month - 1) / 12;
    var pm := (month - 1) % 12;
    DaysInPrevMonthRead(year, month, py, pm);
    LastOfPreviousMonth(year, month, py, pm);
  }

  /** The month view's grid for a month of a full year: the three values it
      reads, then its three loops. */
  method GridCells(year: int, month: int) returns (cells: seq<DayInfo>)
    requires 0 <= month < 12
    ensures cells == MonthGrid(year, month)
  {
    var daysInMonth, firstDayOfMonth, daysInPrevMonth := ReadMonth(year, month);
    cells := PushLeading(year, month, firstDayOfMonth, daysInPrevMonth);
    cells := PushCurrent(year, month, daysInMonth, cells);
    cells := PushTrailing(year, month, cells);
  }

  /** The month view as written: year and month are read from `viewDate`
      and passed to `new Date(year, month, date)`, which reads a year from
      0 to 99 as 1900 + year. */
  method CalendarDays(viewDate: int) returns (cells: seq<DayInfo>)
    ensures cells == MonthGrid(ConstructorYear(YearFromTime(viewDate)), MonthFromTime(viewDate))
  {
    cells := GridCells(ConstructorYear(YearFromTime(viewDate)), MonthFromTime(viewDate));
  }

  /** The month view with the year of `viewDate` kept as it is. */
  method CalendarDaysOfViewedYear(viewDate: int) returns (cells: seq<DayInfo>)
    ensures cells == MonthGrid(YearFromTime(viewDate), MonthFromTime(viewDate))
  {
    cells := GridCells(YearFromTime(viewDate), MonthFromTime(viewDate));
  }

  // -----------------------------------------------------------------------
  // What the grid shows

  /** Every cell is a midnight; consecutive cells are consecutive days;
      the grid starts on a Sunday, so cell k falls on weekday k mod 7. */
  lemma GridDaysConsecutive(year: int, month: int, k: int)
    requires 0 <= month < 12 && 0 <= k < GridSize
    ensures TimeWithinDay(MonthGrid(year, month)[k].date) == 0
    ensures WeekDayOf(MonthGrid(year, month)[k].date) == k % 7
    ensures k + 1 < GridSize ==> Day(MonthGrid(year, month)[k + 1].date) == Day(MonthGrid(year, month)[k].date) + 1
  {
    var sunday := MakeDay(year, month, 1) - LeadCount(year, month);
    MidnightOf(sunday + k);
    MidnightOf(sunday + k + 1);
    WeekDayFromSunday(MakeDay(year, month, 1), 0);
    WeekDayAfterSunday(sunday, k);
  }

  /** The leading cells are the last `lead` days of the previous month in
      ascending order, ending on its last day, all outside the month; their
      number is the weekday of the first of the month. */
  lemma GridLeadingCells(year: int, month: int, k: int, py: int, pm: int)
    requires 0 <= month < 12 && 0 <= k < LeadCount(year, month)
    requires py == year + (month - 1) / 12 && pm == (month - 1) % 12
    ensures LeadCount(year, month) == WeekDayOf(DateOf(year, month, 1))
    ensures !MonthGrid(year, month)[k].isCurrentMonth
    ensures YearFromTime(MonthGrid(year, month)[k].date) == py
    ensures MonthFromTime(MonthGrid(year, month)[k].date) == pm
    ensures DateFromTime(MonthGrid(year, month)[k].date)
         == DaysInMonth(py, pm) - (LeadCount(year, month) - 1 - k)
  {
    assert LeadCount(year, month) == WeekDayOf(DateOf(year, month, 1)) by {
      MidnightOf(MakeDay(year, month, 1));
    }
    DateZeroDay(year, month, py, pm);
    var lead := LeadCount(year, month);
    var last := DaysInMonth(py, pm);
    var d := last - (lead - 1 - k);
    assert 1 <= d <= last;
    assert MonthGrid(year, month)[k].date == DateOf(py, pm, d) by {
      MakeDayShift(year, month, 0, 1);
      MakeDayShift(py, pm, last, d - last);
    }
    DateOfFields(py, pm, d);
  }

  /** The cells inside the month are its days 1 to daysInMonth, in order. */
  lemma GridCurrentCells(year: int, month: int, k: int)
    requires 0 <= month < 12 && 0 <= k < GridSize
    requires MonthGrid(year, month)[k].isCurrentMonth
    ensures YearFromTime(MonthGrid(year, month)[k].date) == year
    ensures MonthFromTime(MonthGrid(year, month)[k].date) == month
    ensures DateFromTime(MonthGrid(year, month)[k].date) == k - LeadCount(year, month) + 1
  {
    var d := k - LeadCount(year, month) + 1;
    assert 1 <= d <= DaysInMonth(year, month);
    assert MonthGrid(year, month)[k].date == DateOf(year, month, d) by {
      MakeDayShift(year, month, 1, d - 1);
    }
    DateOfFields(year, month, d);
  }

  /** Every day of the month has its cell, flagged as in the month. */
  lemma GridCoversMonth(year: int, month: int, date: int)
    requires 0 <= month < 12 && 1 <= date <= DaysInMonth(year, month)
    ensures LeadCount(year, month) + date - 1 < GridSize
    ensures MonthGrid(year, month)[LeadCount(year, month) + date - 1] == DayInfo(DateOf(year, month, date), true)
  {
    MakeDayShift(year, month, 1, date - 1);
  }

  /** The trailing cells are the next month's days from 1, outside the
      month; there are at least five of them. */
  lemma GridTrailingCells(year: int, month: int, k: int, ny: int, nm: int)
    requires 0 <= month < 12
    requires LeadCount(year, month) + DaysInMonth(year, month) <= k < GridSize
    requires ny == year + (month + 1) / 12 && nm == (month + 1) % 12
    ensures GridSize - (LeadCount(year, month) + DaysInMonth(year, month)) >= 5
    ensures !MonthGrid(year, month)[k].isCurrentMonth
    ensures YearFromTime(MonthGrid(year, month)[k].date) == ny
    ensures MonthFromTime(MonthGrid(year, month)[k].date) == nm
    ensures DateFromTime(MonthGrid(year, month)[k].date) == k - LeadCount(year, month) - DaysInMonth(year, month) + 1
  {
    var d := k - LeadCount(year, month) - DaysInMonth(year, month) + 1;
    assert 0 <= nm < 12 && 1 <= d <= 14;
    assert DaysInMonth(ny, nm) >= 28;
    assert MonthGrid(year, month)[k].date == DateOf(ny, nm, d) by {
      TrailingCellPushed(year, month, d);
      MakeDayNormal(year, month + 1, d);
    }
    DateOfFields(ny, nm, d);
  }

  // -----------------------------------------------------------------------
  // The two-digit year

  /** As written, a view date in the years 0 to 99 gets the grid of the
      same month 1900 years later: the cells inside the month are not days
      of the viewed month. */
  lemma TwoDigitYearGridIsWrongCentury(year: int, month: int, k: int)
    requires 0 <= year <= 99 && 0 <= month < 12 && 0 <= k < GridSize
    requires MonthGrid(ConstructorYear(year), month)[k].isCurrentMonth
    ensures YearFromTime(DateOf(year, month, 1)) == year
    ensures YearFromTime(MonthGrid(ConstructorYear(year), month)[k].date) == year + 1900
  {
    DateOfFields(year, month, 1);
    GridCurrentCells(ConstructorYear(year), month, k);
  }

  /** With the viewed year kept, the grid holds the view date's own day,
      flagged as in the month. */
  lemma ViewedYearGridHoldsViewDate(viewDate: int)
    ensures 0 <= LeadCount(YearFromTime(viewDate), MonthFromTime(viewDate)) + DateFromTime(viewDate) - 1 < GridSize
    ensures
      var cell := MonthGrid(YearFromTime(viewDate), MonthFromTime(viewDate))
                    [LeadCount(YearFromTime(viewDate), MonthFromTime(viewDate)) + DateFromTime(viewDate) - 1];
      cell.isCurrentMonth && Day(cell.date) == Day(viewDate)
  {
    var c := CivilFromDay(Day(viewDate));
    GridCoversMonth(c.year, c.month, c.day);
    DateOfFields(c.year, c.month, c.day);
  }
}
