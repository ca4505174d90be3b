/**
 * One cell of the month view: its first two events, a "+ N more" row when
 * there are more, and a style chosen by priority.
 */
module CalendarBox {
  import opened EcmaDate
  import opened Events
  import CalendarUtils
  import MonthView

  /** `events.slice(0, 2)`: the first two events, or all of them when there
      are fewer. */
  function VisibleEvents(events: seq<CalendarEvent>): (visible: seq<CalendarEvent>)
    ensures |visible| <= 2 && |visible| <= |events|
    ensures |events| <= 2 ==> |visible| == |events|
    ensures visible == events[..|visible|]
  {
    events[..if |events| < 2 then |events| else 2]
  }

  /** `Math.max(0, events.length - 2)`. */
  function RemainingCount(events: seq<CalendarEvent>): (n: int)
    ensures n >= 0
  {
    if 0 < |events| - 2 then |events| - 2 else 0
  }

  /** The "+ N more" row is shown when the remaining count is positive. */
  predicate ShowsMore(events: seq<CalendarEvent>)
  {
    RemainingCount(events) > 0
  }

  /** Every event is either shown or counted, once: the visible ones are a
      prefix of the list and the count is the length of the rest. */
  lemma VisibleAndRemainingSplit(events: seq<CalendarEvent>)
    ensures |VisibleEvents(events)| + RemainingCount(events) == |events|
    ensures VisibleEvents(events) + events[|VisibleEvents(events)|..] == events
    ensures |VisibleEvents(events)| == 2 || RemainingCount(events) == 0
  {
  }

  /** The "+ N more" row appears exactly when there are more than two
      events, and then two are shown. */
  lemma ShowsMoreIffOverTwo(events: seq<CalendarEvent>)
    ensures ShowsMore(events) <==> |events| > 2
    ensures ShowsMore(events) ==> |VisibleEvents(events)| == 2
  {
  }

  /** The four looks of a cell. */
  datatype CellStyle = OutOfMonth | Selected | Today | Plain

  /** The style priority of the cell's class: a day outside the viewed
      month first, then the selected day, then today. */
  function CellStyleOf(dayInfo: MonthView.DayInfo, selectedDate: int, now: int): (style: CellStyle)
    ensures style == OutOfMonth <==> !dayInfo.isCurrentMonth
    ensures style == Selected <==>
      dayInfo.isCurrentMonth && CalendarUtils.IsSelected(dayInfo.date, selectedDate)
    ensures style == Today <==>
      dayInfo.isCurrentMonth && !CalendarUtils.IsSelected(dayInfo.date, selectedDate)
      && CalendarUtils.IsToday(dayInfo.date, now)
  {
    if !dayInfo.isCurrentMonth then OutOfMonth
    else if CalendarUtils.IsSelected(dayInfo.date, selectedDate) then Selected
    else if CalendarUtils.IsToday(dayInfo.date, now) then Today
    else Plain
  }

  /** The classes each style adds to the cell. */
  function StyleClasses(style: CellStyle): string
  {
    match style
    case OutOfMonth => "bg-teal text-gray-100"
    case Selected => " bg-sage  border-2 border-teal"
    case Today => "bg-teal/50 border-gray-100"
    case Plain => ""
  }

  /** Each style has its own classes, so the cell's look tells the style. */
  lemma StyleClassesDistinct(a: CellStyle, b: CellStyle)
    requires StyleClasses(a) == StyleClasses(b)
    ensures a == b
  {
  }

  /** A cell of the selected day that is also today shows as selected, and
      one outside the viewed month never shows as selected or today. */
  lemma SelectedBeatsToday(dayInfo: MonthView.DayInfo, selectedDate: int, now: int)
    requires dayInfo.isCurrentMonth
    requires Day(dayInfo.date) == Day(selectedDate) && Day(dayInfo.date) == Day(now)
    ensures CellStyleOf(dayInfo, selectedDate, now) == Selected
  {
    CalendarUtils.IsSelectedSameDay(dayInfo.date, selectedDate);
  }

  /** The click handler hands the cell's own date to `onDateClick`. */
  function ClickedDate(dayInfo: MonthView.DayInfo): int
  {
    dayInfo.date
  }

  /** Clicking cell k of the month grid hands on the midnight of that
      cell's day: k days after the Sunday that starts the grid. */
  lemma ClickedCellIsGridDay(year: int, month: int, k: int)
    requires 0 <= month < 12 && 0 <= k < MonthView.GridSize
    ensures Day(ClickedDate(MonthView.MonthGrid(year, month)[k]))
      == MakeDay(year, month, 1) - MonthView.LeadCount(year, month) + k
    ensures TimeWithinDay(ClickedDate(MonthView.MonthGrid(year, month)[k])) == 0
  {
    MidnightOf(MakeDay(year, month, 1) - MonthView.LeadCount(year, month) + k);
  }
}
