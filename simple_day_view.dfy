/**
 * The plain day view: 24 labelled hour rows, where a click on a row
 * selects the view date at that hour.
 */
module SimpleDayView {
  import opened EcmaDate
  import CalendarContext
  import HourLabels

  /** The click on the row of `hour`: a copy of the view date with its
      hour set, written to the selected date. */
  method ClickHour(calendar: CalendarContext.CalendarState, hour: int)
    modifies calendar
    ensures calendar.selectedDate == SetHours(old(calendar.viewDate), hour)
    ensures calendar.viewDate == old(calendar.viewDate) && calendar.viewType == old(calendar.viewType)
  {
    var newDate := calendar.viewDate;
    newDate := SetHours(newDate, hour);
    calendar.SetSelectedDate(newDate);
  }

  /** For a row's hour the selected date is the view date's day at that
      hour, with its minutes, seconds and milliseconds kept. */
  lemma ClickKeepsDayAndMinutes(viewDate: int, hour: int)
    requires 0 <= hour < 24
    ensures Day(SetHours(viewDate, hour)) == Day(viewDate)
    ensures HourFromTime(SetHours(viewDate, hour)) == hour
    ensures MinFromTime(SetHours(viewDate, hour)) == MinFromTime(viewDate)
    ensures SecFromTime(SetHours(viewDate, hour)) == SecFromTime(viewDate)
    ensures MsFromTime(SetHours(viewDate, hour)) == MsFromTime(viewDate)
  {
    SetHoursFields(viewDate, hour);
  }

  /** Each row's click selects a different hour of the same day, the one
      its label names. */
  lemma RowsSelectDistinctHours(viewDate: int, a: int, b: int)
    requires 0 <= a < 24 && 0 <= b < 24
    requires SetHours(viewDate, a) == SetHours(viewDate, b)
    ensures a == b && HourLabels.HourLabel(a) == HourLabels.HourLabel(b)
  {
    SetHoursFields(viewDate, a);
    SetHoursFields(viewDate, b);
  }
}
