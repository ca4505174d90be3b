# canopy-web calendar and pomodoro core, modelled in Dafny

This project models the logic behind the canopy-web calendar and its
pomodoro timer:

- the calendar helpers: the leap-year rule, the month table, the "today" and
  "selected" predicates, and the current-time line;
- the calendar context: the view date, the selected date and the view type,
  with month, week and day navigation and the header text;
- the month grid of 42 day cells, the week strip of 7 dates and the hour
  labels;
- the day column: event boxes clamped to the viewed day, sorted stably by
  start and sized in pixels, and the click that snaps to a quarter hour;
- the add-event dialog and the edit-event sheet: their form state, the
  "HH:MM" time selects, the one-hour default and pushed end, and the
  optimistic cache update with its rollback;
- the pomodoro timer's state machine and its "MM:SS" renderer.

Dates follow the Date object of ECMA-262 (section 21.4.1: time values,
MakeDay, MakeDate, MakeTime and the field accessors). Time values are
unbounded integers of milliseconds, and local time is taken to equal UTC.
A Date that can be invalid is a `DateValue`, which is either `Time(tv)` or
`NaN`. Module `EcmaDate` holds this date arithmetic and proves it:

- the civil date and the day number determine each other;
- weekdays repeat every 7 days;
- MakeDay normalises an overflowing month and date;
- the setters and getters agree.

Module `JsText` models the string primitives the source relies on:

- number-to-string conversion;
- `padStart(2, "0")`;
- `parseInt(s, 10)`, with NaN as `None`;
- `split` on one character.

Wherever the application reads the clock (`new Date()`), the model takes the
time value as a parameter, named `now`. Stateful parts are classes whose
methods state their whole new state:

- `CalendarContext.CalendarState`;
- `DayColumn.DayViewState`;
- `EditEventSheet.EditEventForm` and `EditEventSheet.EventCache`;
- `AddEventDialog.AddEventForm`;
- `Pomodoro.PomodoroTimer`.

The month grid and the week strip are built by methods with the source's
loops, each proved equal to a specification function. Properties of that
function are proved as lemmas.

## Model

All source paths are under `src/`.

| member | source | states |
|---|---|---|
| CalendarUtils.LeapYearAgreesWithYearLength | src/utils/calendar.ts:1-3 | a year is a leap year exactly when the Gregorian date arithmetic gives it 366 days, and otherwise it has 365 |
| CalendarUtils.IsLeapYear | src/utils/calendar.ts:1-3 | the Gregorian leap-year rule; CalendarUtils.LeapYearAgreesWithYearLength and CalendarUtils.LeapYearExamples state what it decides |
| CalendarUtils.LeapYearExamples | src/utils/calendar.ts:1-9 | 1900 is not a leap year; 2000 and 2024 are; 2023 is not; February has 28 days in 1900 and 29 in 2000 |
| CalendarUtils.GetDaysInFebruary | src/utils/calendar.ts:5-9 | the length is always 28 or 29, and it is 29 exactly in leap years |
| CalendarUtils.Months | src/utils/calendar.ts:17-78 | twelve entries with ids 1..12 in order, named January to December, each 28 to 31 days long |
| CalendarUtils.MonthsAreGregorian | src/utils/calendar.ts:17-78 | every entry's length is the Gregorian length of that month in the year the table was built for |
| CalendarUtils.OnlyFebruaryVaries | src/utils/calendar.ts:17-78 | every entry except February is the same whatever year the table is built in |
| CalendarUtils.FebruaryFixedAtBuild | src/utils/calendar.ts:24-27 | February's length is wrong for any viewed year whose leap kind differs from that of the build year |
| CalendarUtils.IsSelectedSameDay | src/utils/calendar.ts:89-95 | two instants count as selected together exactly when they fall on the same calendar day |
| CalendarUtils.IsSelectedEquivalence | src/utils/calendar.ts:89-95 | "selected" is reflexive and symmetric, and changing the hour does not affect it |
| CalendarUtils.IsSelected | src/utils/calendar.ts:89-95 | compares date, month and year; CalendarUtils.IsSelectedSameDay and CalendarUtils.IsSelectedEquivalence state that this is "same calendar day" |
| CalendarUtils.IsToday | src/utils/calendar.ts:80-87 | the same comparison against the current time, passed in; CalendarUtils.IsTodayIsSelected states it |
| CalendarUtils.IsTodayIsSelected | src/utils/calendar.ts:80-87 | with the current time passed in, "today" equals "selected against now", which means the same day as now |
| CalendarUtils.TimeIndicatorTop | src/utils/calendar.ts:97-108 | the percentage lies in [0, 100) and is the share of the day's 1440 minutes that has passed |
| EcmaDate.ConstructorYear | src/components/CalendarViews/MonthView/MonthView.tsx:19-20 | `new Date(year, ...)` reads a year from 0 to 99 as 1900 plus that year, and any other year as itself |
| EcmaDate.CivilFromMakeDay | src/components/CalendarViews/MonthView/MonthView.tsx:28-41 | a valid year, month and day gives a day number whose calendar date is that same year, month and day |
| EcmaDate.DateOfFields | src/components/CalendarViews/MonthView/MonthView.tsx:34 | the midnight built from a valid date reads back as that year, month and date, at time of day 0 |
| EcmaDate.SetDateShift | src/components/CalendarViews/WeekView.tsx:13-14 | `setDate(n)` moves the instant by n minus its current date in days and keeps its time of day |
| EcmaDate.SetHoursFields | src/components/CalendarViews/DayView.tsx:33-35 | `setHours(h)` keeps the minutes, seconds and milliseconds, carries whole days out of h, and sets the hour to h mod 24 |
| EcmaDate.SetDate | src/contexts/CalendarContext.tsx:56-66 | `setDate` on a time value; EcmaDate.SetDateShift states that it moves the day by the change of date and keeps the time of day |
| EcmaDate.SetMonth | src/contexts/CalendarContext.tsx:32-42 | `setMonth` on a time value; CalendarContext.MonthStepWithin, CalendarContext.MonthStepOverflow and CalendarContext.NextPrevMonthInverse state what a month step does |
| EcmaDate.SetHours | src/components/CalendarViews/DayView.tsx:33-35 | `setHours` with one argument; EcmaDate.SetHoursFields states that it sets the hour, carries whole days and keeps minutes, seconds and milliseconds |
| EcmaDate.SetHoursAll | src/components/CalendarViews/DayView/DayView.tsx:90-91 | `setHours` with four arguments; DayColumn.ClickedDateFields states the fields of its result |
| EcmaDate.SetMinutes | src/components/CalendarViews/EditEventsheet.tsx:56 | `setMinutes`; EventTimes.SetHoursThenMinutes states that setting hours then minutes builds the time from both on the original day |
| JsText.SplitJoin | src/components/CalendarViews/EditEventsheet.tsx:53 | joining the pieces of `split(c)` with c gives back the original text, and no piece contains c |
| JsText.ParseIntPadded | src/components/CalendarViews/EditEventsheet.tsx:55-56 | `parseInt` reads back a number's decimal text, zero-padded to two digits or not |
| JsText.IntToStringInjective | src/contexts/CalendarContext.tsx:74 | different integers have different decimal texts |
| CalendarContext.MonthStep | src/contexts/CalendarContext.tsx:32-42 | a copy of the view date with the month moved by delta; CalendarContext.MonthStepWithin, CalendarContext.MonthStepOverflow and CalendarContext.NextPrevMonthInverse state its effect |
| CalendarContext.DayStep | src/contexts/CalendarContext.tsx:44-66 | a copy of the view date with the date moved by delta; CalendarContext.DayStepMoves, CalendarContext.NextPrevDayInverse, CalendarContext.DayStepsCompose and CalendarContext.WeekIsSevenDays state its effect |
| CalendarContext.DayStepMoves | src/contexts/CalendarContext.tsx:56-66 | stepping n days moves the day number by exactly n and keeps the time of day |
| CalendarContext.NextPrevDayInverse | src/contexts/CalendarContext.tsx:56-66 | the next day followed by the previous day (and the reverse) gives back the same instant |
| CalendarContext.DayStepsCompose | src/contexts/CalendarContext.tsx:44-66 | a step of a days followed by a step of b days is a single step of a+b days |
| CalendarContext.WeekIsSevenDays | src/contexts/CalendarContext.tsx:44-54 | a week step, either way, equals seven single-day steps in that direction |
| CalendarContext.WeekStepKeepsWeekday | src/contexts/CalendarContext.tsx:44-54 | a week step in either direction keeps the weekday |
| CalendarContext.MonthStepWithin | src/contexts/CalendarContext.tsx:32-42 | when the date exists in the target month, a month step moves the month index by delta, with years carried, and keeps the date and the time of day |
| CalendarContext.MonthStepOverflow | src/contexts/CalendarContext.tsx:32-42 | when the date is past the end of the target month, a month step lands in the month after it, on the date minus that month's length |
| CalendarContext.NextPrevMonthInverse | src/contexts/CalendarContext.tsx:32-42 | for a date up to the 28th, the next month followed by the previous month (and the reverse) gives back the same instant |
| CalendarContext.CalendarState.constructor | src/contexts/CalendarContext.tsx:27-30 | the view date and the selected date are both "now", and the view is the month view |
| CalendarContext.CalendarState.PrevMonth | src/contexts/CalendarContext.tsx:32-36 | the view date becomes the month step by -1; the selected date and the view type are unchanged |
| CalendarContext.CalendarState.NextMonth | src/contexts/CalendarContext.tsx:38-42 | the view date becomes the month step by +1; the selected date and the view type are unchanged |
| CalendarContext.CalendarState.PrevWeek | src/contexts/CalendarContext.tsx:44-48 | the view date moves 7 days back; nothing else changes |
| CalendarContext.CalendarState.NextWeek | src/contexts/CalendarContext.tsx:50-54 | the view date moves 7 days forward; nothing else changes |
| CalendarContext.CalendarState.PrevDay | src/contexts/CalendarContext.tsx:56-60 | the view date moves 1 day back; nothing else changes |
| CalendarContext.CalendarState.NextDay | src/contexts/CalendarContext.tsx:62-66 | the view date moves 1 day forward; nothing else changes |
| CalendarContext.CalendarState.SetViewDate | src/contexts/CalendarContext.tsx:111 | only the view date changes |
| CalendarContext.CalendarState.SetSelectedDate | src/contexts/CalendarContext.tsx:112 | only the selected date changes |
| CalendarContext.CalendarState.SetViewType | src/contexts/CalendarContext.tsx:113 | only the view type changes |
| CalendarContext.FormatViewDate | src/contexts/CalendarContext.tsx:68-103 | the header text chosen by view type; the header rows below state what each text identifies |
| CalendarContext.MonthHeader | src/contexts/CalendarContext.tsx:68-74 | "<month> <year>"; CalendarContext.MonthHeaderIdentifiesMonth states that it fixes the month and year |
| CalendarContext.WeekHeader | src/contexts/CalendarContext.tsx:75-89 | the Sunday-to-Saturday range with one or two month names; CalendarContext.WeekHeaderRangeIsStrip and CalendarContext.WeekHeaderMonths state it |
| CalendarContext.DayHeader | src/contexts/CalendarContext.tsx:90-102 | "<weekday>, <month> <date>, <year>"; CalendarContext.DayHeaderIdentifiesDay states that it fixes the day |
| CalendarContext.MonthHeaderIdentifiesMonth | src/contexts/CalendarContext.tsx:69-74 | two view dates with the same month-view header are in the same month of the same year |
| CalendarContext.DayHeaderIdentifiesDay | src/contexts/CalendarContext.tsx:90-101 | two view dates with the same day-view header are on the same calendar day |
| CalendarContext.WeekHeaderRangeIsStrip | src/contexts/CalendarContext.tsx:75-80 | the header's range starts on the first date of the week strip and ends on the day of its last date, which is a Saturday |
| CalendarContext.WeekHeaderMonths | src/contexts/CalendarContext.tsx:82-89 | both ends of the week are in the same month exactly when the end date is the start date plus 6; otherwise the end is in the next month |
| CalendarContext.MonthNamesDistinct | src/utils/calendar.ts:17-78 | no two month names are equal |
| MonthView.LeadCount | src/components/CalendarViews/MonthView/MonthView.tsx:20 | the number of leading cells is between 0 and 6 |
| MonthView.MonthGrid | src/components/CalendarViews/MonthView/MonthView.tsx:23-43 | the grid has exactly 42 cells |
| MonthView.DaysInMonthRead | src/components/CalendarViews/MonthView/MonthView.tsx:19 | day 0 of the next month is the last day of this month, so its date is the Gregorian length of the month |
| MonthView.FirstDayRead | src/components/CalendarViews/MonthView/MonthView.tsx:20 | the weekday of the 1st of the month is the number of leading cells |
| MonthView.DaysInPrevMonthRead | src/components/CalendarViews/MonthView/MonthView.tsx:26 | day 0 of this month is the length of the previous month, with January reaching back to December of the year before |
| MonthView.PushLeading | src/components/CalendarViews/MonthView/MonthView.tsx:27-30 | the first loop pushes exactly the grid's leading cells, in grid order |
| MonthView.PushCurrent | src/components/CalendarViews/MonthView/MonthView.tsx:33-36 | the second loop extends them to the grid's leading cells followed by every day of the month |
| MonthView.PushTrailing | src/components/CalendarViews/MonthView/MonthView.tsx:39-43 | the third loop completes the whole 42-cell grid |
| MonthView.ReadMonth | src/components/CalendarViews/MonthView/MonthView.tsx:19-26 | the three values read are the month's length, the 1st's weekday, and the last day of the previous month |
| MonthView.GridCells | src/components/CalendarViews/MonthView/MonthView.tsx:19-43 | the three loops together build exactly the grid of the given year and month |
| MonthView.CalendarDays | src/components/CalendarViews/MonthView/MonthView.tsx:17-43 | as written, the grid is that of the month read from the view date, in the year the Date constructor makes of the view date's year |
| MonthView.CalendarDaysOfViewedYear | src/components/CalendarViews/MonthView/MonthView.tsx:17-43 | the grid of the view date's own year and month |
| MonthView.GridDaysConsecutive | src/components/CalendarViews/MonthView/MonthView.tsx:27-43 | every cell is at midnight, cell k falls on weekday k mod 7 (so cell 0 is a Sunday), and each cell is the day after the one before, across month and year ends |
| MonthView.GridLeadingCells | src/components/CalendarViews/MonthView/MonthView.tsx:20-30 | the leading cells are not in the current month and are the previous month's last days, ascending and ending on its last day |
| MonthView.GridCurrentCells | src/components/CalendarViews/MonthView/MonthView.tsx:33-36 | a cell flagged current is in the viewed year and month, and its date is its position after the leading cells |
| MonthView.GridCoversMonth | src/components/CalendarViews/MonthView/MonthView.tsx:33-36 | every day of the month has its cell, flagged current |
| MonthView.GridTrailingCells | src/components/CalendarViews/MonthView/MonthView.tsx:39-43 | there are at least 5 trailing cells, none flagged current, and they are the next month's days from the 1st on |
| MonthView.TwoDigitYearGridIsWrongCentury | src/components/CalendarViews/MonthView/MonthView.tsx:17-20 | for a view date in the years 0 to 99, every current-month cell of the grid as written is in year 1900 plus the viewed year |
| MonthView.ViewedYearGridHoldsViewDate | src/components/CalendarViews/MonthView/MonthView.tsx:17-43 | the corrected grid holds the view date's own day in a current-month cell, at position leading cells + date - 1 |
| CalendarBox.VisibleEvents | src/components/CalendarViews/MonthView/CalendarBox.tsx:25 | at most two events are visible: all of them when there are at most two, and always a prefix of the list in input order |
| CalendarBox.VisibleAndRemainingSplit | src/components/CalendarViews/MonthView/CalendarBox.tsx:25-26 | the visible count plus the remaining count is the number of events; the visible events followed by the rest are the list; and either two are visible or none remain |
| CalendarBox.ShowsMoreIffOverTwo | src/components/CalendarViews/MonthView/CalendarBox.tsx:53 | the "+ N more" row appears exactly when there are more than two events, and then two are visible |
| CalendarBox.CellStyleOf | src/components/CalendarViews/MonthView/CalendarBox.tsx:32-37 | the out-of-month style applies exactly when the cell is outside the month; the selected style exactly for an in-month selected cell; the today style exactly for an in-month unselected cell that is today |
| CalendarBox.StyleClassesDistinct | src/components/CalendarViews/MonthView/CalendarBox.tsx:32-37 | the four styles have four different class texts |
| CalendarBox.SelectedBeatsToday | src/components/CalendarViews/MonthView/CalendarBox.tsx:34-36 | an in-month cell that is both selected and today gets the selected style |
| CalendarBox.ClickedCellIsGridDay | src/components/CalendarViews/MonthView/CalendarBox.tsx:31 | a click passes the cell's own date, the midnight of the grid day at its position |
| WeekView.StartOfWeek | src/components/CalendarViews/WeekView.tsx:13-14 | the start of the week is the view date moved back by its weekday: a Sunday, with the same time of day |
| WeekView.WeekOf | src/components/CalendarViews/WeekView.tsx:17-22 | the strip has exactly 7 dates |
| WeekView.WeekEntryPushed | src/components/CalendarViews/WeekView.tsx:19-20 | the date built on each pass through the loop is the strip's entry i |
| WeekView.WeekDays | src/components/CalendarViews/WeekView.tsx:13-22 | the loop builds exactly the week strip of the view date |
| WeekView.WeekEntries | src/components/CalendarViews/WeekView.tsx:18-21 | entry i is i days after the start of the week, falls on weekday i and keeps the view date's time of day, across month and year ends |
| WeekView.WeekHoldsViewDate | src/components/CalendarViews/WeekView.tsx:13-22 | the entry at the view date's weekday is the view date itself, and it is the only entry on that day |
| WeekView.DateClasses | src/components/CalendarViews/WeekView.tsx:24-29 | the classes start with the border classes; the selected classes follow when the date is selected; otherwise the today classes follow when it is today; otherwise nothing follows |
| WeekView.SelectedWinsOverToday | src/components/CalendarViews/WeekView.tsx:26-27 | a date that is both selected and today gets the selected classes |
| HourLabels.Hours | src/components/CalendarViews/DayView.tsx:6 | exactly 24 hours, 0 to 23 in order |
| HourLabels.HourLabel | src/components/CalendarViews/DayView/DayView.tsx:165-171 | the 12-hour clock label of an hour; HourLabels.HourLabelIsClockFace, HourLabels.HourLabelSuffix and HourLabels.HourLabelInjective state it |
| HourLabels.HourRowLabels | src/components/CalendarViews/DayView.tsx:19-28 | one label per hour row, in row order |
| HourLabels.HourLabelIsClockFace | src/components/CalendarViews/WeekView.tsx:79-85 | each label is the 12-hour clock number (12 for hours 0 and 12) followed by " AM" before noon and " PM" from noon |
| HourLabels.HourLabelSuffix | src/components/CalendarViews/DayView/DayView.tsx:165-171 | each label ends in " AM" exactly for the hours before noon, and in " PM" otherwise |
| HourLabels.ClockHourCases | src/components/CalendarViews/DayView.tsx:22-28 | the clock number is 12 for hours 0 and 12, h for hours 1 to 11, and h-12 for hours 13 to 23 |
| HourLabels.HourLabelInjective | src/components/CalendarViews/DayView/DayView.tsx:156-175 | the 24 hour rows have 24 different labels |
| SimpleDayView.ClickHour | src/components/CalendarViews/DayView.tsx:32-36 | a row click selects the view date with its hour set to the row's hour; the view date and view type are unchanged |
| SimpleDayView.ClickKeepsDayAndMinutes | src/components/CalendarViews/DayView.tsx:33-35 | the date selected by a click is on the same calendar day, at the row's hour, with the same minutes, seconds and milliseconds |
| SimpleDayView.RowsSelectDistinctHours | src/components/CalendarViews/DayView.tsx:19-35 | clicks on two different rows select two different instants |
| DayColumn.Round | src/components/CalendarViews/DayView/DayView.tsx:88 | `Math.round` gives the integer nearest to its argument, with halves rounded up |
| DayColumn.RoundUnique | src/components/CalendarViews/DayView/DayView.tsx:88 | only one integer meets that rounding condition |
| DayColumn.QuarterOf | src/components/CalendarViews/DayView/DayView.tsx:88 | the snapped minutes are a multiple of 15 and within 7 minutes of the unsnapped minutes |
| DayColumn.QuarterIsNearest | src/components/CalendarViews/DayView/DayView.tsx:88 | every other multiple of 15 is more than 7 minutes away |
| DayColumn.SnapMinutes | src/components/CalendarViews/DayView/DayView.tsx:86-88 | the click offset snapped to the nearest quarter hour; DayColumn.SnapInsideRow and DayColumn.QuarterIsNearest state it |
| DayColumn.ClickedDate | src/components/CalendarViews/DayView/DayView.tsx:90-91 | the view date with the row hour and snapped minutes; DayColumn.ClickedDateFields and DayColumn.SnappedSixtyRollsOver state it |
| DayColumn.PlaceholderTop | src/components/CalendarViews/DayView/DayView.tsx:96 | the placeholder top in pixels; DayColumn.TopOfMinute and DayColumn.PlaceholderMatchesEventBox state it |
| DayColumn.SnapInsideRow | src/components/CalendarViews/DayView/DayView.tsx:86-88 | a click inside a row gives unsnapped minutes in 0..59 and snapped minutes in {0, 15, 30, 45, 60} |
| DayColumn.ClickedDateFields | src/components/CalendarViews/DayView/DayView.tsx:90-91 | the clicked date is on the view date's day, at the clicked hour and minutes, with seconds and milliseconds set to 0 |
| DayColumn.SnappedSixtyRollsOver | src/components/CalendarViews/DayView/DayView.tsx:88-91 | a snapped 60 gives the next hour at :00, and in the 23:00 row it gives midnight of the next day |
| DayColumn.TopOfMinute | src/components/CalendarViews/DayView/DayView.tsx:96 | the placeholder top is the clicked minute of the day, in hours, times the hour height |
| DayColumn.PlaceholderMatchesEventBox | src/components/CalendarViews/DayView/DayView.tsx:96 | the placeholder top equals the top an event box starting at the clicked date would get |
| DayColumn.ClickStaysNearRow | src/components/CalendarViews/DayView/DayView.tsx:82-96 | with the default height of 58, the placeholder lies between the top of the clicked row and the top of the next row |
| DayColumn.DayViewState.constructor | src/components/CalendarViews/DayView/DayView.tsx:17-26 | the form is closed, and there is no popover time and no placeholder |
| DayColumn.DayViewState.HandleCalendarClick | src/components/CalendarViews/DayView/DayView.tsx:57-113 | a click on an event changes nothing; any other click selects the snapped date and sets it as the popover time, places the dialog at (x+30, y-20), places the placeholder at the snapped time, and opens the form |
| DayColumn.DayViewState.CloseForm | src/components/CalendarViews/DayView/DayView.tsx:211 | the form closes and nothing else changes |
| DayColumn.DayViewState.ClearPlaceholder | src/components/CalendarViews/DayView/DayView.tsx:116-124 | once the form is closed, the placeholder is removed |
| DayEventBox.DayLimits | src/components/CalendarViews/DayView/DayEventBox.tsx:28-32 | the day starts at 00:00:00.000 of the view date and ends at 23:59:59.999 of the same day |
| DayEventBox.Boundaries | src/components/CalendarViews/DayView/DayEventBox.tsx:23-39 | the effective start is the later of the event's start and the day's start; the effective end is the earlier of the event's end and the day's end |
| DayEventBox.InsideDayUnchanged | src/components/CalendarViews/DayView/DayEventBox.tsx:35-36 | an event wholly inside the day keeps its own start and end |
| DayEventBox.OverlapClampedToDay | src/components/CalendarViews/DayView/DayEventBox.tsx:35-36 | when an event overlaps the day, both clamped times fall on that day |
| DayEventBox.Insert | src/components/CalendarViews/DayView/DayEventBox.tsx:42-46 | inserting adds exactly that one event to the list |
| DayEventBox.SortByStart | src/components/CalendarViews/DayView/DayEventBox.tsx:42-46 | the sort keeps the length and is a permutation of its input |
| DayEventBox.SortByStartSorted | src/components/CalendarViews/DayView/DayEventBox.tsx:42-46 | the sorted events are in non-decreasing order of start time |
| DayEventBox.SortByStartStable | src/components/CalendarViews/DayView/DayEventBox.tsx:42-46 | events with equal starts keep their input order |
| DayEventBox.MinuteOfDay | src/components/CalendarViews/DayView/DayEventBox.tsx:56-59 | hours times 60 plus minutes lies in 0..1439 |
| DayEventBox.TopPixels | src/components/CalendarViews/DayView/DayEventBox.tsx:62 | the top is the start's minute of the day, in hours, times the hour height, and for a positive height it lies in [0, 24 hour heights) |
| DayEventBox.HeightPixels | src/components/CalendarViews/DayView/DayEventBox.tsx:63-65 | the height is the larger of 24 pixels and the hours-and-minutes duration times the hour height: it is at least both, and equal to one of them |
| DayEventBox.Layout | src/components/CalendarViews/DayView/DayEventBox.tsx:49-74 | a box carries its event, the clamped start and end, and the top and height of those clamped times |
| DayEventBox.DurationInMinutes | src/components/CalendarViews/DayView/DayEventBox.tsx:63-64 | the duration in hours, times 60, is the difference of the two minutes of the day, so seconds and milliseconds are ignored |
| DayEventBox.EmptyDurationIsFloor | src/components/CalendarViews/DayView/DayEventBox.tsx:63-65 | a box whose clamped duration is zero or negative is exactly 24 pixels high |
| DayEventBox.HeightFloor | src/components/CalendarViews/DayView/DayEventBox.tsx:65 | an end at or before the start, by minute of the day, gives the 24-pixel floor |
| DayEventBox.ClampedEndCountsAs2359 | src/components/CalendarViews/DayView/DayEventBox.tsx:32-59 | an event ending after the day is clamped to the day's end, which counts as minute 23:59 |
| DayEventBox.EventsWithPositions | src/components/CalendarViews/DayView/DayEventBox.tsx:21-75 | one box per event; box i lays out the i-th event of the sorted copy |
| DayEventBox.PositionsArePermutedSortedAndStable | src/components/CalendarViews/DayView/DayEventBox.tsx:42-74 | the boxes' events are the input events each exactly once, sorted by start, with equal starts in input order, and every box is at least 24 pixels high |
| EventTimes.SetHoursValue | src/components/CalendarViews/EditEventsheet.tsx:55 | the result is valid exactly when the date and the hour are both valid |
| EventTimes.SetMinutesValue | src/components/CalendarViews/EditEventsheet.tsx:56 | the result is valid exactly when the date and the minutes are both valid |
| EventTimes.SetHoursThenMinutes | src/components/CalendarViews/EditEventsheet.tsx:55-56 | `setHours(h)` followed by `setMinutes(m)` is the same as setting both hours and minutes at once on the original day, keeping its seconds and milliseconds |
| EventTimes.ConvertTimeToDate | src/components/CalendarViews/EditEventsheet.tsx:52-58 | the copy is the original date moved to the hours and minutes read before and after the colon; it is invalid when the date or either number is |
| EventTimes.WithTimeOfDayFields | src/components/CalendarViews/AddEventDialog.tsx:114-120 | hours 0 to 23 and minutes 0 to 59 stay on the same day with those fields, and keep the seconds and milliseconds |
| EventTimes.NoColonIsInvalid | src/components/CalendarViews/EditEventsheet.tsx:53-56 | a text without a colon has no minutes, so the converted date is invalid |
| EventTimes.FormatTime | src/components/CalendarViews/EditEventsheet.tsx:60-69 | "00:00" for an invalid date, else two-digit hours and minutes; EventTimes.FormatThenConvert states that reading the text back gives the same hour and minute |
| EventTimes.ReadTwoDigitTime | src/components/CalendarViews/EditEventsheet.tsx:53-56 | a two-digit "HH:MM" text reads back as its hours and minutes |
| EventTimes.ConvertShownTime | src/components/CalendarViews/EditEventsheet.tsx:52-58 | choosing "HH:MM" for hours 0 to 23 and minutes 0 to 59 moves a valid date to that hour and minute of its own day |
| EventTimes.FormatThenConvert | src/components/CalendarViews/EditEventsheet.tsx:60-69 | choosing the time a date is shown with reproduces its hour and minute on the target's day; an invalid date shows "00:00", which means midnight |
| EventTimes.NextHourIsOneHourLater | src/components/CalendarViews/AddEventDialog.tsx:60-61 | the hour after an instant is exactly 3 600 000 ms later: on the same day before 23:00, and on the next day from 23:00 |
| AddEventDialog.DialogStart | src/components/CalendarViews/DayView/DayView.tsx:216 | the dialog opens at the clicked time when there is one, and otherwise at the view date |
| AddEventDialog.InitialEnd | src/components/CalendarViews/AddEventDialog.tsx:60-61 | the start with its hour set one higher; AddEventDialog.InitialEndOneHourLater states that it is one hour after a valid start |
| AddEventDialog.InitialEndOneHourLater | src/components/CalendarViews/AddEventDialog.tsx:60-61 | the default end is valid exactly when the start is, and is one hour after it, rolling to the next day from 23:00 |
| AddEventDialog.AddEventForm.Payload | src/components/CalendarViews/AddEventDialog.tsx:105-109 | the payload carries the form's start and end unchanged |
| AddEventDialog.AddEventForm.constructor | src/components/CalendarViews/AddEventDialog.tsx:92-102 | empty texts, the default colour and the "Never" recurrence, the given start, and the hour after it as the end |
| AddEventDialog.AddEventForm.ChangeStart | src/components/CalendarViews/AddEventDialog.tsx:179-186 | only the start changes, to the chosen time of its own day; the end is not pushed |
| AddEventDialog.AddEventForm.ChangeEnd | src/components/CalendarViews/AddEventDialog.tsx:225-232 | only the end changes, to the chosen time of its own day |
| AddEventDialog.AddEventForm.ChangeName | src/components/CalendarViews/AddEventDialog.tsx:157-161 | only the name changes |
| AddEventDialog.AddEventForm.ChangeLocation | src/components/CalendarViews/AddEventDialog.tsx:275-279 | only the location changes |
| AddEventDialog.AddEventForm.ChangeDescription | src/components/CalendarViews/AddEventDialog.tsx:345-349 | only the description changes |
| AddEventDialog.AddEventForm.ChooseColor | src/components/CalendarViews/AddEventDialog.tsx:288-308 | only the colour changes, to the chosen swatch |
| AddEventDialog.AddEventForm.ChooseRecurrence | src/components/CalendarViews/AddEventDialog.tsx:360-393 | only the recurrence changes, and it is one of the five options |
| AddEventDialog.AddEventForm.Submit | src/components/CalendarViews/AddEventDialog.tsx:103-111 | the request sent is the form's payload, with its times unchanged |
| EditEventSheet.RecurrenceOrNever | src/components/CalendarViews/EditEventsheet.tsx:138 | the event's recurrence when it has one, and "Never" otherwise |
| EditEventSheet.OrElse | src/components/CalendarViews/EditEventsheet.tsx:148-164 | a non-empty text is kept, and an empty one falls back |
| EditEventSheet.PushedEnd | src/components/CalendarViews/EditEventsheet.tsx:244-259 | when the new start reaches the end, the end becomes one hour after the start; otherwise the end is kept; either way a valid start lies before a valid end |
| EditEventSheet.PushedEndDay | src/components/CalendarViews/EditEventsheet.tsx:244-259 | a pushed end is on the start's day, or on the next day from 23:00 |
| EditEventSheet.EditEventForm.constructor | src/components/CalendarViews/EditEventsheet.tsx:128-139 | with no event: id 0, empty texts, the default colour, "now" for both times and "Never"; with an event: its fields, with a missing recurrence read as "Never" |
| EditEventSheet.EditEventForm.SyncFromEvent | src/components/CalendarViews/EditEventsheet.tsx:146-166 | a given event's texts, times and recurrence are copied in, with empty colour and recurrence falling back to the defaults; the id is kept; with no event nothing changes |
| EditEventSheet.EditEventForm.ChangeStart | src/components/CalendarViews/EditEventsheet.tsx:237-259 | the start moves to the chosen time of its own day; the end is pushed when the start reached it; afterwards a valid start is before a valid end; nothing else changes |
| EditEventSheet.EditEventForm.ChangeEnd | src/components/CalendarViews/EditEventsheet.tsx:297-304 | only the end changes, to the chosen time of its own day |
| EditEventSheet.EditEventForm.ChangeName | src/components/CalendarViews/EditEventsheet.tsx:215-217 | only the name changes |
| EditEventSheet.EditEventForm.ChangeLocation | src/components/CalendarViews/EditEventsheet.tsx:356-358 | only the location changes |
| EditEventSheet.EditEventForm.ChangeDescription | src/components/CalendarViews/EditEventsheet.tsx:414-416 | only the description changes |
| EditEventSheet.EditEventForm.ChooseColor | src/components/CalendarViews/EditEventsheet.tsx:376-393 | only the colour changes, to the chosen swatch |
| EditEventSheet.EditEventForm.ChooseRecurrence | src/components/CalendarViews/EditEventsheet.tsx:435-457 | only the recurrence changes, and it is one of Never, Daily, Weekly, Monthly and Yearly |
| EditEventSheet.EditEventForm.Submit | src/components/CalendarViews/EditEventsheet.tsx:140-143 | nothing is sent without an event; otherwise the form values are sent |
| EditEventSheet.Merge | src/components/CalendarViews/EditEventsheet.tsx:105-106 | the merged event takes the edit's id, texts, colour and times, and keeps its own recurrence |
| EditEventSheet.MapEdit | src/components/CalendarViews/EditEventsheet.tsx:104-108 | same length; each event with the edited id is merged, and every other event is kept as it is |
| EditEventSheet.ApplyEdit | src/components/CalendarViews/EditEventsheet.tsx:100-110 | the optimistic cache update; EditEventSheet.ApplyEditKeepsList and EditEventSheet.MapEditIdempotent state it |
| EditEventSheet.ApplyEditKeepsList | src/components/CalendarViews/EditEventsheet.tsx:100-110 | the update keeps the length, the order and every id, changes only the matching events, and leaves a list without the id unchanged |
| EditEventSheet.MapEditIdempotent | src/components/CalendarViews/EditEventsheet.tsx:104-108 | applying the same edit twice gives the same list as applying it once |
| EditEventSheet.EventCache.constructor | src/components/CalendarViews/EditEventsheet.tsx:98-99 | the cache entry holds the given data |
| EditEventSheet.EventCache.OnMutate | src/components/CalendarViews/EditEventsheet.tsx:93-113 | the snapshot returned is the old entry, and the entry becomes the updated list, or [] when it was absent |
| EditEventSheet.EventCache.OnError | src/components/CalendarViews/EditEventsheet.tsx:114-117 | a snapshot that exists is written back exactly; an absent one leaves the entry unchanged |
| EditEventSheet.EventCache.FailedEdit | src/components/CalendarViews/EditEventsheet.tsx:93-117 | after an update and its rollback, a list that was cached is back exactly, and an entry that was absent is left as [] |
| Pomodoro.WithSetting | src/components/Pomodoro/countdown-timer.tsx:81-86 | the chosen mode's length becomes the value, and the other modes keep theirs |
| Pomodoro.SettingsStayInRange | src/components/Pomodoro/countdown-timer.tsx:260-305 | the defaults lie within the slider ranges, a slider move keeps them there, and so every full length is between one minute and one hour |
| Pomodoro.PomodoroTimer.constructor | src/components/Pomodoro/countdown-timer.tsx:29-39 | focus mode, lengths 25/5/15, 25 minutes left, not running, key 0 |
| Pomodoro.PomodoroTimer.Start | src/components/Pomodoro/countdown-timer.tsx:48-53 | the timer runs; the time left, the mode, the settings and the key are unchanged |
| Pomodoro.PomodoroTimer.Pause | src/components/Pomodoro/countdown-timer.tsx:55-60 | the timer stops; the time left, the mode, the settings and the key are unchanged |
| Pomodoro.PomodoroTimer.Reset | src/components/Pomodoro/countdown-timer.tsx:62-66 | stopped, with the full length of the current mode left and the key one higher |
| Pomodoro.PomodoroTimer.Mount | src/components/Pomodoro/countdown-timer.tsx:44-46 | the first render resets once |
| Pomodoro.PomodoroTimer.Complete | src/components/Pomodoro/countdown-timer.tsx:68-75 | the callback is called exactly when there is one; the timer is reset to the full length of the same mode |
| Pomodoro.PomodoroTimer.Tick | src/components/Pomodoro/countdown-timer.tsx:77-79 | the time left becomes the reported total, and nothing else changes |
| Pomodoro.PomodoroTimer.SetMode | src/components/Pomodoro/countdown-timer.tsx:44-46 | choosing the current mode changes nothing; choosing another mode switches to it and resets to its full length |
| Pomodoro.PomodoroTimer.UpdateSettings | src/components/Pomodoro/countdown-timer.tsx:81-86 | the settings change only in that mode's length, stay within the slider ranges, and the timer resets |
| Pomodoro.TwoDigitsLength | src/components/Pomodoro/countdown-timer.tsx:108-109 | a number below 100, padded, is two characters long |
| Pomodoro.Renderer | src/components/Pomodoro/countdown-timer.tsx:94-112 | "00:00" once completed, else padded minutes and seconds; Pomodoro.RendererReadsBack and Pomodoro.ZeroZeroText state it |
| Pomodoro.ShownTime | src/components/Pomodoro/countdown-timer.tsx:94-112 | the text as written, minutes within the hour; Pomodoro.FullHourShowsZero states where it goes wrong |
| Pomodoro.ShownTimeWholeMinutes | src/components/Pomodoro/countdown-timer.tsx:94-112 | the text with all whole minutes; Pomodoro.FullLengthShown and Pomodoro.ShownWholeMinutesReadBack state it |
| Pomodoro.RendererReadsBack | src/components/Pomodoro/countdown-timer.tsx:103-110 | for minutes and seconds below 100, the text has five characters with a colon in the middle, and reads back as those minutes and seconds |
| Pomodoro.ZeroZeroText | src/components/Pomodoro/countdown-timer.tsx:103-110 | zero minutes and zero seconds show "00:00", the same text as a completed timer |
| Pomodoro.FullHourShowsZero | src/components/Pomodoro/countdown-timer.tsx:94-112 | a 60-minute focus length, which the slider allows, shows "00:00" before it starts, the same text as zero time left |
| Pomodoro.ShownWholeMinutesReadBack | src/components/Pomodoro/countdown-timer.tsx:94-112 | with the whole minutes shown, any time under 100 minutes reads back as its whole minutes and its seconds |
| Pomodoro.WholeMinutesOfLength | src/components/Pomodoro/countdown-timer.tsx:64 | a length of 1 to 60 minutes, in milliseconds, holds that many whole minutes and no extra seconds |
| Pomodoro.FullLengthShown | src/components/Pomodoro/countdown-timer.tsx:94-112 | with the whole minutes shown, every full length the sliders allow reads back as its own minutes and zero seconds |

## Left out

- Network, authentication and the query client. The model covers neither the server requests nor `cancelQueries`, `invalidateQueries` or the toasts. The cache is a single entry: the per-month query keys are not separated.
- Time zones and daylight saving time: local time equals UTC. TimeClip (the limit of ±8.64e15 ms on time values) is not modelled: time values are unbounded.
- Locale formatting (`toLocaleTimeString`, `toLocaleDateString`) is host behaviour. The edit sheet's `formatTime` is modelled as `EventTimes.FormatTime`, the 24-hour "HH:MM" text its options ask for. The add dialog's 12-hour `formatTime`, the event boxes' time texts and the placeholder's time text are left out.
- `filterEventsForDate`, `filterEventsForMonth` and `getTimeOptionsStartingFrom` are imported by the views but are not defined in `src/utils/calendar.ts`. They are not part of this model: the event box and the month cell take the already filtered list.
- DayEventBox.Layout, DayEventBox.SortByStart, DayEventBox.Insert and DayEventBox.EventsWithPositions require valid event times. With an invalid time the source computes NaN pixels, and its comparator returns NaN, which leaves the sort order to the engine; the model represents neither.
- Floating point: pixel and percentage values are exact reals. The timer's progress ring (`Math.PI`) is left out.
- Clocks and timers: `new Date()` and `Date.now()` become the `now` parameter. The countdown widget's ticking reaches the model only through `Tick` and `Complete`. The 150 ms `setTimeout` before the placeholder is cleared becomes a separate `ClearPlaceholder` call.
- DOM work: the click-outside listener, `getBoundingClientRect` and the ancestor walk that detects a click on an existing event. That walk becomes the `onExistingEvent` parameter, and the row's top edge becomes a parameter.
- The hour height is never changed by the source (it stays 58), so DayViewState does not hold it as state.
- The pomodoro settings panel's open and closed toggle, and the tasks and notes panels, are presentation only.
- `src/components/Navbar/Navbar.tsx` only dispatches to the context's navigation methods, which are modelled. `src/components/CalendarBox.tsx` repeats the cell style priority of `MonthView/CalendarBox.tsx`, which is modelled.
- Recurrence is stored as a label; no recurring occurrences are expanded.
- The server record of `src/models/events.ts` names its times `start` and `end`, while every component reads `startTime` and `endTime`. The model's CalendarEvent uses the names the components read.
- EditEventSheet.Merge: the edit carries its recurrence under the key `recurrenceRule`, while the cached event keeps `recurrence_rule`. The merged event therefore keeps its old recurrence, and the model states exactly that.
- EditEventSheet.EditEventForm.SyncFromEvent does not set the id: the effect never writes it, so the id stays as the defaults set it.
- EditEventSheet.EditEventForm.ChangeEnd: an end chosen before the start is accepted. The end select does not push the start.
- Pomodoro.PomodoroTimer.Tick accepts any total: the widget is trusted to report a time between zero and the full length.
- Pomodoro.ShownTime: the minutes and seconds the countdown widget hands the renderer are taken from the widget's documented fields (whole minutes within the hour, seconds within the minute). The widget's code is not part of this model.

## Findings

| source | as written | input that shows it | evidently intended | confidence | as-written member | corrected member |
|---|---|---|---|---|---|---|
| src/components/CalendarViews/MonthView/MonthView.tsx:17-43 | the grid's dates are built with `new Date(year, month, day)`, which reads years 0 to 99 as 1900 to 1999 | a view date in March of year 50: every in-month cell of the grid is in March 1950 | the grid of the viewed month of the viewed year, holding the view date | not executed; follows the Date constructor's year rule in section 21.4.2.1 of ECMA-262 | MonthView.CalendarDays, MonthView.TwoDigitYearGridIsWrongCentury | MonthView.CalendarDaysOfViewedYear, MonthView.ViewedYearGridHoldsViewDate |
| src/components/Pomodoro/countdown-timer.tsx:94-112 | the renderer shows the widget's minutes within the hour, so a full hour left shows as "00:00" | a 60-minute focus length, the slider's maximum, before it starts: "00:00", the text of a completed timer | all the whole minutes left, so a 60-minute length shows "60:00" | not executed; rests on the countdown widget's documented minutes-within-the-hour field | Pomodoro.ShownTime, Pomodoro.FullHourShowsZero | Pomodoro.ShownTimeWholeMinutes, Pomodoro.FullLengthShown, Pomodoro.ShownWholeMinutesReadBack |
