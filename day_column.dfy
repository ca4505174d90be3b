/**
 * The day column of the day view: 24 hour rows of a fixed height, and the
 * click on an empty part of a row that opens the add-event form at the
 * clicked time, snapped to a quarter hour. Pixel and client coordinates are
 * exact reals.
 */
module DayColumn {
  import opened EcmaDate
  import opened Optional
  import CalendarContext
  import DayEventBox
  import HourLabels

  /** The height of one hour row in pixels. The view keeps it as state but
      never sets it again, so it is a constant here. */
  const HourHeight: real := 58.0

  /** `Math.round` (section 21.3.2.28 of ECMA-262): the integer nearest to
      x, a tie going to the larger one. */
  function Round(x: real): (r: int)
    ensures r as real - 0.5 <= x < r as real + 0.5
  {
    (x + 0.5).Floor
  }

  /** Only one integer is that near to x: the bounds above pin Round down. */
  lemma RoundUnique(x: real, k: int)
    requires k as real - 0.5 <= x < k as real + 0.5
    ensures k == Round(x)
  {
    var r := Round(x);
    assert r as real - k as real < 1.0 && k as real - r as real < 1.0;
  }

  /** The whole minutes into the hour row a click lands at: the floor of the
      fraction of the row above the click, times 60. */
  function MinuteInRow(relativeY: real, hourHeight: real): int
    requires hourHeight > 0.0
  {
    (relativeY / hourHeight * 60.0).Floor
  }

  /** `Math.round(minutes / 15) * 15`. */
  function QuarterOf(minutes: int): (snapped: int)
    ensures snapped % 15 == 0
    ensures minutes - 7 <= snapped <= minutes + 7
  {
    var q := Round(minutes as real / 15.0);
    assert minutes as real - 7.5 <= (q * 15) as real <= minutes as real + 7.5;
    q * 15
  }

  /** The quarter is the one multiple of 15 within 7 minutes: any other
      multiple of 15 lies further away. */
  lemma QuarterIsNearest(minutes: int, k: int)
    requires k % 15 == 0 && k != QuarterOf(minutes)
    ensures k < minutes - 7 || minutes + 7 < k
  {
    var s := QuarterOf(minutes);
    if minutes - 7 <= k <= minutes + 7 {
      assert false;
    }
  }

  /** The snapped minutes of a click `relativeY` pixels below the top of
      its hour row. */
  function SnapMinutes(relativeY: real, hourHeight: real): int
    requires hourHeight > 0.0
  {
    QuarterOf(MinuteInRow(relativeY, hourHeight))
  }

  /** A click inside its row snaps to 0, 15, 30, 45 or 60 minutes, a
      multiple of 15 within 7 minutes of the unsnapped minute. */
  lemma SnapInsideRow(relativeY: real, hourHeight: real)
    requires hourHeight > 0.0 && 0.0 <= relativeY < hourHeight
    ensures 0 <= MinuteInRow(relativeY, hourHeight) < 60
    ensures SnapMinutes(relativeY, hourHeight) in {0, 15, 30, 45, 60}
  {
    var f := relativeY / hourHeight;
    RatioBelowOne(relativeY, hourHeight);
    var m := MinuteInRow(relativeY, hourHeight);
    assert 0 <= m < 60;
    var s := SnapMinutes(relativeY, hourHeight);
    assert 0 <= s <= 60 && s % 15 == 0;
  }

  lemma RatioBelowOne(a: real, b: real)
    requires 0.0 <= a < b
    ensures 0.0 <= a / b < 1.0
  {
    var f := a / b;
    assert f * b == a;
    if f >= 1.0 {
      assert false;
    }
  }

  /** The date a click builds: a copy of the view date with the hour, the
      snapped minutes, and zero seconds and milliseconds. */
  function ClickedDate(viewDate: int, hour: int, minutes: int): int
  {
    SetHoursAll(viewDate, hour, minutes, 0, 0)
  }

  /** Below 60 minutes the clicked date reads back as the row's hour and
      the snapped minutes, on the view date's day. */
  lemma ClickedDateFields(viewDate: int, hour: int, minutes: int)
    requires 0 <= hour < 24 && 0 <= minutes < 60
    ensures Day(ClickedDate(viewDate, hour, minutes)) == Day(viewDate)
    ensures HourFromTime(ClickedDate(viewDate, hour, minutes)) == hour
    ensures MinFromTime(ClickedDate(viewDate, hour, minutes)) == minutes
    ensures SecFromTime(ClickedDate(viewDate, hour, minutes)) == 0
    ensures MsFromTime(ClickedDate(viewDate, hour, minutes)) == 0
  {
    TimeFieldsOfMakeTime(Day(viewDate), hour, minutes, 0, 0);
  }

  /** A click snapped up to 60 minutes selects the start of the next hour:
      of the same day before 23:00, and midnight of the next day in the
      last row. */
  lemma SnappedSixtyRollsOver(viewDate: int, hour: int)
    requires 0 <= hour < 24
    ensures ClickedDate(viewDate, hour, 60) == MakeDate(Day(viewDate), (hour + 1) * MsPerHour)
    ensures hour < 23 ==>
      Day(ClickedDate(viewDate, hour, 60)) == Day(viewDate)
      && HourFromTime(ClickedDate(viewDate, hour, 60)) == hour + 1
      && MinFromTime(ClickedDate(viewDate, hour, 60)) == 0
    ensures hour == 23 ==>
      Day(ClickedDate(viewDate, hour, 60)) == Day(viewDate) + 1
      && TimeWithinDay(ClickedDate(viewDate, hour, 60)) == 0
  {
    if hour < 23 {
      TimeFieldsOfMakeTime(Day(viewDate), hour + 1, 0, 0, 0);
    } else {
      MidnightOf(Day(viewDate) + 1);
    }
  }

  /** `topPosition`: the placeholder's top in pixels. */
  function PlaceholderTop(hour: int, minutes: int, hourHeight: real): real
  {
    (hour as real + minutes as real / 60.0) * hourHeight
  }

  /** The placeholder sits where the event column draws an event that
      starts at the clicked date, except after a snap to midnight of the
      next day, where it sits at the column's bottom edge instead. */
  lemma PlaceholderMatchesEventBox(viewDate: int, hour: int, minutes: int, hourHeight: real)
    requires 0 <= hour < 24 && 0 <= minutes <= 60
    requires minutes < 60 || hour < 23
    ensures PlaceholderTop(hour, minutes, hourHeight) * 60.0
      == DayEventBox.MinuteOfDay(ClickedDate(viewDate, hour, minutes)) as real * hourHeight
  {
    if minutes < 60 {
      ClickedDateFields(viewDate, hour, minutes);
      TopOfMinute(hour, minutes, hourHeight);
    } else {
      SnappedSixtyRollsOver(viewDate, hour);
      TopOfMinute(hour, minutes, hourHeight);
    }
  }

  lemma TopOfMinute(hour: int, minutes: int, hourHeight: real)
    ensures PlaceholderTop(hour, minutes, hourHeight) * 60.0 == (hour * 60 + minutes) as real * hourHeight
  {
  }

  datatype Placeholder = Placeholder(top: real, time: int)
  datatype DialogPosition = DialogPosition(left: real, top: real)

  /** The view's own state; the selected date lives in the shared calendar
      state. */
  class DayViewState {
    const calendar: CalendarContext.CalendarState
    var showEventForm: bool
    var popoverTime: Option<int>
    var dialogPosition: DialogPosition
    var placeholder: Option<Placeholder>

    constructor (calendar: CalendarContext.CalendarState)
      ensures this.calendar == calendar
      ensures !showEventForm && popoverTime == None && placeholder == None
      ensures dialogPosition == DialogPosition(0.0, 0.0)
    {
      this.calendar := calendar;
      showEventForm := false;
      popoverTime := None;
      dialogPosition := DialogPosition(0.0, 0.0);
      placeholder := None;
    }

    /** `handleCalendarClick` on the row of `hour`. `onExistingEvent` is the
        outcome of the walk up the DOM from the click target; `clientX`,
        `clientY` and `rowTop` are the click's and the row's coordinates. */
    method HandleCalendarClick(hour: int, onExistingEvent: bool, clientX: real, clientY: real, rowTop: real)
      modifies this, calendar
      ensures calendar.viewDate == old(calendar.viewDate) && calendar.viewType == old(calendar.viewType)
      ensures onExistingEvent ==>
        calendar.selectedDate == old(calendar.selectedDate)
        && showEventForm == old(showEventForm) && popoverTime == old(popoverTime)
        && dialogPosition == old(dialogPosition) && placeholder == old(placeholder)
      ensures !onExistingEvent ==>
        var minutes := SnapMinutes(clientY - rowTop, HourHeight);
        var newDate := ClickedDate(old(calendar.viewDate), hour, minutes);
        calendar.selectedDate == newDate && popoverTime == Some(newDate)
        && dialogPosition == DialogPosition(clientX + 30.0, clientY - 20.0)
        && placeholder == Some(Placeholder(PlaceholderTop(hour, minutes, HourHeight), newDate))
        && showEventForm
    {
      if onExistingEvent {
        return;
      }
      var relativeY := clientY - rowTop;
      var minuteRatio := relativeY / HourHeight;
      var minutes := (minuteRatio * 60.0).Floor;
      minutes := Round(minutes as real / 15.0) * 15;
      var newDate := calendar.viewDate;
      newDate := SetHoursAll(newDate, hour, minutes, 0, 0);
      calendar.SetSelectedDate(newDate);
      popoverTime := Some(newDate);
      var topPosition := (hour as real + minutes as real / 60.0) * HourHeight;
      dialogPosition := DialogPosition(clientX + 30.0, clientY - 20.0);
      placeholder := Some(Placeholder(topPosition, newDate));
      showEventForm := true;
    }

    /** Closing the form hides it; the placeholder is cleared after a delay
        that belongs to the host's timers. */
    method CloseForm()
      modifies this
      ensures !showEventForm
      ensures popoverTime == old(popoverTime) && dialogPosition == old(dialogPosition)
      ensures placeholder == old(placeholder)
    {
      showEventForm := false;
    }

    /** The delayed clearing of the placeholder once the form is closed. */
    method ClearPlaceholder()
      requires !showEventForm
      modifies this
      ensures placeholder == None
      ensures showEventForm == old(showEventForm) && popoverTime == old(popoverTime)
      ensures dialogPosition == old(dialogPosition)
    {
      placeholder := None;
    }
  }

  /** The hour rows of the column: 24, labelled by the 12-hour rule, each
      HourHeight high, so row h starts h row heights down. */
  function RowTop(hour: int): real
  {
    hour as real * HourHeight
  }

  /** A click inside row h at height relativeY selects a time in that row
      or the start of the next: the hour and snapped minutes of the column
      read back from the placeholder's top. */
  lemma ClickStaysNearRow(hour: int, relativeY: real)
    requires 0 <= hour < 24 && 0.0 <= relativeY < HourHeight
    ensures RowTop(hour) <= PlaceholderTop(hour, SnapMinutes(relativeY, HourHeight), HourHeight) <= RowTop(hour + 1)
  {
    SnapInsideRow(relativeY, HourHeight);
  }
}
