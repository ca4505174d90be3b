/**
 * The dialog that adds an event at a clicked time: the default end one hour
 * after the start, the form with its defaults and field changes, and the
 * payload it submits. Unlike the edit sheet, moving the start never moves
 * the end here.
 */
module AddEventDialog {
  import opened EcmaDate
  import opened Optional
  import opened Events
  import opened EventTimes

  /** The body the dialog submits. */
  datatype CreateRequest = CreateRequest(
    name: string,
    description: string,
    location: string,
    color: string,
    recurrenceRule: string,
    startTime: DateValue,
    endTime: DateValue,
    userId: string)

  /** The start the day view opens the dialog with: the clicked time when
      there is one (a Date object is truthy), else the view date. */
  function DialogStart(popoverTime: Option<int>, viewDate: int): (start: int)
    ensures popoverTime.Some? ==> start == popoverTime.value
    ensures popoverTime.None? ==> start == viewDate
  {
    if popoverTime.Some? then popoverTime.value else viewDate
  }

  /** `initialEnd`: a copy of the start with its hour set one higher. */
  function InitialEnd(initialStart: DateValue): DateValue
  {
    if initialStart.NaN? then NaN else Time(NextHour(initialStart.tv))
  }

  /** The default end is exactly one hour after a valid start, on the
      start's day unless the start is in the 23:00 hour, when it is on the
      next day; an invalid start gives an invalid end. */
  lemma InitialEndOneHourLater(initialStart: DateValue)
    ensures InitialEnd(initialStart).Time? <==> initialStart.Time?
    ensures initialStart.Time? ==> InitialEnd(initialStart).tv == initialStart.tv + MsPerHour
    ensures initialStart.Time? && HourFromTime(initialStart.tv) < 23
      ==> Day(InitialEnd(initialStart).tv) == Day(initialStart.tv)
    ensures initialStart.Time? && HourFromTime(initialStart.tv) == 23
      ==> Day(InitialEnd(initialStart).tv) == Day(initialStart.tv) + 1
  {
    if initialStart.Time? {
      NextHourIsOneHourLater(initialStart.tv);
    }
  }

  /** The form of the dialog. */
  class AddEventForm {
    var name: string
    var description: string
    var location: string
    var color: string
    var recurrenceRule: string
    var startTime: DateValue
    var endTime: DateValue
    var userId: string

    /** The payload `{ ...values, startTime, endTime }`: the form values
        with the two times written again, unchanged. */
    function Payload(): (p: CreateRequest)
      reads this
      ensures p.startTime == startTime && p.endTime == endTime
    {
      CreateRequest(name, description, location, color, recurrenceRule, startTime, endTime, userId)
    }

    /** The default values: empty texts, the default colour and
        recurrence, the given start and the hour after it. */
    constructor (initialStart: DateValue, user: Option<string>)
      ensures Payload() == CreateRequest("", "", "", DefaultColor, DefaultRecurrence,
                                         initialStart, InitialEnd(initialStart),
                                         if user.Some? then user.value else "")
    {
      name, description, location := "", "", "";
      color, recurrenceRule := DefaultColor, DefaultRecurrence;
      startTime := initialStart;
      endTime := InitialEnd(initialStart);
      userId := if user.Some? then user.value else "";
    }

    /** A time chosen in the start select moves the start only. */
    method ChangeStart(value: string)
      modifies this
      ensures Payload() == old(Payload()).(startTime := WithTimeOfDay(old(startTime), HoursOf(value), MinutesOf(value)))
    {
      var newDate := ConvertTimeToDate(value, startTime);
      startTime := newDate;
    }

    /** A time chosen in the end select moves the end only. */
    method ChangeEnd(value: string)
      modifies this
      ensures Payload() == old(Payload()).(endTime := WithTimeOfDay(old(endTime), HoursOf(value), MinutesOf(value)))
    {
      var newDate := ConvertTimeToDate(value, endTime);
      endTime := newDate;
    }

    /** Typing in the name, location or description input. */
    method ChangeName(value: string)
      modifies this
      ensures Payload() == old(Payload()).(name := value)
    {
      name := value;
    }

    method ChangeLocation(value: string)
      modifies this
      ensures Payload() == old(Payload()).(location := value)
    {
      location := value;
    }

    method ChangeDescription(value: string)
      modifies this
      ensures Payload() == old(Payload()).(description := value)
    {
      description := value;
    }

    /** A click on swatch i. */
    method ChooseColor(i: nat)
      requires i < |ColorOptions|
      modifies this
      ensures Payload() == old(Payload()).(color := ColorOptions[i])
    {
      color := ColorOptions[i];
    }

    /** A click on recurrence button i. */
    method ChooseRecurrence(i: nat)
      requires i < |RecurrenceOptions|
      modifies this
      ensures Payload() == old(Payload()).(recurrenceRule := RecurrenceOptions[i])
      ensures recurrenceRule in RecurrenceOptions
    {
      recurrenceRule := RecurrenceOptions[i];
    }

    /** Submit sends the payload. */
    method Submit() returns (request: CreateRequest)
      ensures request == Payload()
      ensures request.startTime == startTime && request.endTime == endTime
    {
      request := CreateRequest(name, description, location, color, recurrenceRule, startTime, endTime, userId);
      request := request.(startTime := startTime, endTime := endTime);
    }
  }
}
