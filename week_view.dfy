/**
 * The week view's strip of seven days, Sunday to Saturday, around the view
 * date, and the class of a date's circle.
 */
module WeekView {
  import opened EcmaDate
  import CalendarUtils

  /** `startOfWeek`: a copy of the view date moved back by its weekday with
      `setDate`. */
  function StartOfWeek(viewDate: int): (start: int)
    ensures Day(start) == Day(viewDate) - WeekDayOf(viewDate)
    ensures TimeWithinDay(start) == TimeWithinDay(viewDate)
    ensures WeekDayOf(start) == 0
  {
    SetDateShift(viewDate, DateFromTime(viewDate) - WeekDayOf(viewDate));
    WeekDayFromSunday(Day(viewDate), 0);
    SetDate(viewDate, DateFromTime(viewDate) - WeekDayOf(viewDate))
  }

  /** The week the strip should show: the seven days from the Sunday on or
      before the view date, each at the view date's time of day. */
  function WeekOf(viewDate: int): (week: seq<int>)
    ensures |week| == 7
  {
    seq(7, i => MakeDate(Day(viewDate) - WeekDayOf(viewDate) + i, TimeWithinDay(viewDate)))
  }

  /** What the loop pushes for counter i is entry i of the week. */
  lemma WeekEntryPushed(viewDate: int, start: int, i: int)
    requires 0 <= i < 7
    requires Day(start) == Day(viewDate) - WeekDayOf(viewDate)
    requires TimeWithinDay(start) == TimeWithinDay(viewDate)
    ensures SetDate(start, DateFromTime(start) + i) == WeekOf(viewDate)[i]
  {
    var date := SetDate(start, DateFromTime(start) + i);
    SetDateShift(start, DateFromTime(start) + i);
    DayTimeSplit(date);
  }

  /** The loop of the week view: each entry is a copy of `startOfWeek` with
      its date of the month advanced by i. */
  method WeekDays(viewDate: int) returns (weekDays: seq<int>)
    ensures weekDays == WeekOf(viewDate)
  {
    var startOfWeek := StartOfWeek(viewDate);
    weekDays := [];
    var i := 0;
    while i < 7
      invariant 0 <= i <= 7
      invariant weekDays == WeekOf(viewDate)[..i]
    {
      var date := SetDate(startOfWeek, DateFromTime(startOfWeek) + i);
      WeekEntryPushed(viewDate, startOfWeek, i);
      weekDays := weekDays + [date];
      i := i + 1;
    }
  }

  /** Entry i of the week is i days after the Sunday, on weekday i, at the
      view date's time of day, also across month and year ends. */
  lemma WeekEntries(viewDate: int, i: int)
    requires 0 <= i < 7
    ensures Day(WeekOf(viewDate)[i]) == Day(StartOfWeek(viewDate)) + i
    ensures WeekDayOf(WeekOf(viewDate)[i]) == i
    ensures TimeWithinDay(WeekOf(viewDate)[i]) == TimeWithinDay(viewDate)
  {
    MakeDateInDay(Day(viewDate) - WeekDayOf(viewDate) + i, TimeWithinDay(viewDate));
    WeekDayFromSunday(Day(viewDate), i);
  }

  /** The view date itself is the entry at its weekday, and at no other. */
  lemma WeekHoldsViewDate(viewDate: int, i: int)
    requires 0 <= i < 7
    ensures WeekOf(viewDate)[WeekDayOf(viewDate)] == viewDate
    ensures Day(WeekOf(viewDate)[i]) == Day(viewDate) <==> i == WeekDayOf(viewDate)
  {
    assert WeekOf(viewDate)[WeekDayOf(viewDate)] == MakeDate(Day(viewDate), TimeWithinDay(viewDate));
    DayTimeSplit(viewDate);
    WeekEntries(viewDate, i);
  }

  const BaseClasses: string := "border rounded-full "
  const SelectedClasses: string := "bg-green-100 border-sage"
  const TodayClasses: string := "bg-teal/50 border-gray-100"

  /** `getDateClasses`: the selected style wins over the today style, and a
      date that is neither gets the base classes alone. */
  function DateClasses(date: int, selectedDate: int, now: int): (classes: string)
    ensures |BaseClasses| <= |classes| && classes[..|BaseClasses|] == BaseClasses
    ensures CalendarUtils.IsSelected(date, selectedDate) ==> classes[|BaseClasses|..] == SelectedClasses
    ensures (!CalendarUtils.IsSelected(date, selectedDate) && CalendarUtils.IsToday(date, now))
      ==> classes[|BaseClasses|..] == TodayClasses
    ensures (!CalendarUtils.IsSelected(date, selectedDate) && !CalendarUtils.IsToday(date, now))
      ==> classes == BaseClasses
  {
    BaseClasses + (if CalendarUtils.IsSelected(date, selectedDate) then SelectedClasses
                   else if CalendarUtils.IsToday(date, now) then TodayClasses
                   else "")
  }

  /** A date of the selected day gets the selected style even when it is
      today. */
  lemma SelectedWinsOverToday(date: int, selectedDate: int, now: int)
    requires Day(date) == Day(selectedDate) && Day(date) == Day(now)
    ensures DateClasses(date, selectedDate, now) == BaseClasses + SelectedClasses
  {
    CalendarUtils.IsSelectedSameDay(date, selectedDate);
  }
}
