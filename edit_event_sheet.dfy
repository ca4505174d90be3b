/**
 * The edit sheet of an existing event: its form (defaults, the sync from the
 * event being edited, the time selects with the start-to-end push, the
 * colour and recurrence choices, submit) and the optimistic update of the
 * cached event list with its rollback on error.
 */
module EditEventSheet {
  import opened EcmaDate
  import opened Optional
  import opened Events
  import opened EventTimes

  /** The body the sheet submits. Its recurrence rides under the key
      `recurrenceRule`, next to the user id. */
  datatype EditRequest = EditRequest(
    id: int,
    name: string,
    description: string,
    location: string,
    color: string,
    startTime: DateValue,
    endTime: DateValue,
    userId: string,
    recurrenceRule: string)

  /** `a ?? b` on a recurrence that may be absent. */
  function RecurrenceOrNever(r: Option<string>): (s: string)
    ensures r.Some? ==> s == r.value
    ensures r.None? ==> s == DefaultRecurrence
  {
    if r.Some? then r.value else DefaultRecurrence
  }

  /** `s || fallback`: the empty string is falsy. */
  function OrElse(s: string, fallback: string): (r: string)
    ensures s != [] ==> r == s
    ensures s == [] ==> r == fallback
  {
    if s == [] then fallback else s
  }

  /** `newDate >= currentEndTime` on two Date objects: both compare by
      their time values, and any comparison with NaN is false. */
  predicate StartReachesEnd(start: DateValue, end: DateValue)
  {
    start.Time? && end.Time? && start.tv >= end.tv
  }

  /** The end after the start moved to `newStart`: one hour after the new
      start when the start reached the old end, else the old end. */
  function PushedEnd(newStart: DateValue, end: DateValue): (r: DateValue)
    ensures StartReachesEnd(newStart, end) ==> r == Time(newStart.tv + MsPerHour)
    ensures !StartReachesEnd(newStart, end) ==> r == end
    ensures newStart.Time? && r.Time? ==> newStart.tv < r.tv
  {
    if StartReachesEnd(newStart, end) then
      NextHourIsOneHourLater(newStart.tv);
      Time(NextHour(newStart.tv))
    else end
  }

  /** A pushed end lands on the start's day, except from 23:xx, where it
      lands on the next day. */
  lemma PushedEndDay(newStart: int, end: DateValue)
    requires StartReachesEnd(Time(newStart), end)
    ensures HourFromTime(newStart) < 23 ==> Day(PushedEnd(Time(newStart), end).tv) == Day(newStart)
    ensures HourFromTime(newStart) == 23 ==> Day(PushedEnd(Time(newStart), end).tv) == Day(newStart) + 1
  {
    NextHourIsOneHourLater(newStart);
  }

  /** The form of the sheet. */
  class EditEventForm {
    var id: int
    var name: string
    var description: string
    var location: string
    var color: string
    var startTime: DateValue
    var endTime: DateValue
    var userId: string
    var recurrenceRule: string

    /** The form values, as submitted. */
    function Value(): EditRequest
      reads this
    {
      EditRequest(id, name, description, location, color, startTime, endTime, userId, recurrenceRule)
    }

    /** The default values: the event's own, each falling back with `??`
        when there is no event; `now` stands for `new Date()`. */
    constructor (event: Option<CalendarEvent>, user: Option<string>, now: int)
      ensures event.None? ==>
        Value() == EditRequest(0, "", "", "", DefaultColor, Time(now), Time(now),
                               if user.Some? then user.value else "", DefaultRecurrence)
      ensures event.Some? ==>
        var e := event.value;
        Value() == EditRequest(e.id, e.name, e.description, e.location, e.color, e.startTime, e.endTime,
                               if user.Some? then user.value else "", RecurrenceOrNever(e.recurrenceRule))
    {
      if event.Some? {
        var e := event.value;
        id, name, description, location, color := e.id, e.name, e.description, e.location, e.color;
        startTime, endTime := e.startTime, e.endTime;
        recurrenceRule := RecurrenceOrNever(e.recurrenceRule);
      } else {
        id, name, description, location, color := 0, "", "", "", DefaultColor;
        startTime, endTime := Time(now), Time(now);
        recurrenceRule := DefaultRecurrence;
      }
      userId := if user.Some? then user.value else "";
    }

    /** The effect that copies a newly given event into the fields. It
        leaves the id alone, treats an empty colour or recurrence as absent,
        and copies both times: a Date object is truthy even when invalid. */
    method SyncFromEvent(event: Option<CalendarEvent>, user: Option<string>)
      modifies this
      ensures event.None? ==> Value() == old(Value())
      ensures event.Some? ==>
        var e := event.value;
        var r := if e.recurrenceRule.Some? then e.recurrenceRule.value else "";
        Value() == EditRequest(old(id), e.name, e.description, e.location, OrElse(e.color, DefaultColor),
                               e.startTime, e.endTime, if user.Some? then OrElse(user.value, "") else "",
                               OrElse(r, DefaultRecurrence))
    {
      if event.Some? {
        var e := event.value;
        name := OrElse(e.name, "");
        description := OrElse(e.description, "");
        location := OrElse(e.location, "");
        color := OrElse(e.color, DefaultColor);
        startTime := e.startTime;
        endTime := e.endTime;
        var r := if e.recurrenceRule.Some? then e.recurrenceRule.value else "";
        recurrenceRule := OrElse(r, DefaultRecurrence);
        userId := if user.Some? then OrElse(user.value, "") else "";
      }
    }

    /** A time chosen in the start select: the start moves to that time of
        its own day, and an end it reaches is pushed to one hour after it.
        Afterwards a valid start lies before a valid end, whatever the
        times were before. */
    method ChangeStart(value: string)
      modifies this
      ensures startTime == WithTimeOfDay(old(startTime), HoursOf(value), MinutesOf(value))
      ensures endTime == PushedEnd(startTime, old(endTime))
      ensures startTime.Time? && endTime.Time? ==> startTime.tv < endTime.tv
      ensures id == old(id) && name == old(name) && description == old(description)
      ensures location == old(location) && color == old(color)
      ensures userId == old(userId) && recurrenceRule == old(recurrenceRule)
    {
      var newDate := ConvertTimeToDate(value, startTime);
      startTime := newDate;
      var currentEndTime := endTime;
      if StartReachesEnd(newDate, currentEndTime) {
        var newEndTime := Time(NextHour(newDate.tv));
        endTime := newEndTime;
      }
    }

    /** A time chosen in the end select moves the end only. */
    method ChangeEnd(value: string)
      modifies this
      ensures Value() == old(Value()).(endTime := WithTimeOfDay(old(endTime), HoursOf(value), MinutesOf(value)))
    {
      var newDate := ConvertTimeToDate(value, endTime);
      endTime := newDate;
    }

    /** Typing in the name, location or description input. */
    method ChangeName(value: string)
      modifies this
      ensures Value() == old(Value()).(name := value)
    {
      name := value;
    }

    method ChangeLocation(value: string)
      modifies this
      ensures Value() == old(Value()).(location := value)
    {
      location := value;
    }

    method ChangeDescription(value: string)
      modifies this
      ensures Value() == old(Value()).(description := value)
    {
      description := value;
    }

    /** A click on swatch i. */
    method ChooseColor(i: nat)
      requires i < |ColorOptions|
      modifies this
      ensures Value() == old(Value()).(color := ColorOptions[i])
    {
      color := ColorOptions[i];
    }

    /** A click on recurrence button i; the rule is then one of the five. */
    method ChooseRecurrence(i: nat)
      requires i < |RecurrenceOptions|
      modifies this
      ensures Value() == old(Value()).(recurrenceRule := RecurrenceOptions[i])
      ensures recurrenceRule in RecurrenceOptions
    {
      recurrenceRule := RecurrenceOptions[i];
    }

    /** Submit sends the form values, and nothing without an event. */
    method Submit(event: Option<CalendarEvent>) returns (request: Option<EditRequest>)
      ensures event.None? ==> request == None
      ensures event.Some? ==> request == Some(Value())
    {
      if event.None? {
        return None;
      }
      request := Some(Value());
    }
  }

  /** `{ ...ev, ...edit }`: the edit's keys overwrite the event's. The
      event keeps its `recurrence_rule`, which the edit does not carry
      under that key. */
  function Merge(ev: CalendarEvent, edit: EditRequest): (r: CalendarEvent)
    ensures r.id == edit.id && r.recurrenceRule == ev.recurrenceRule
    ensures r.name == edit.name && r.description == edit.description && r.location == edit.location
    ensures r.color == edit.color && r.startTime == edit.startTime && r.endTime == edit.endTime
  {
    ev.(id := edit.id, name := edit.name, description := edit.description, location := edit.location,
        color := edit.color, startTime := edit.startTime, endTime := edit.endTime)
  }

  /** The `map` over the cached list: merge the edit into each event with
      its id, keep every other event as it is. */
  function MapEdit(events: seq<CalendarEvent>, edit: EditRequest): (r: seq<CalendarEvent>)
    ensures |r| == |events|
    ensures forall i :: 0 <= i < |events| ==>
      r[i] == (if events[i].id == edit.id then Merge(events[i], edit) else events[i])
  {
    if events == [] then []
    else
      var head := if events[0].id == edit.id then Merge(events[0], edit) else events[0];
      [head] + MapEdit(events[1..], edit)
  }

  /** The optimistic update of the cache entry: an absent list becomes the
      empty list. */
  function ApplyEdit(cached: Option<seq<CalendarEvent>>, edit: EditRequest): seq<CalendarEvent>
  {
    if cached.None? then [] else MapEdit(cached.value, edit)
  }

  /** The update keeps every id and the order of the list, touches only the
      events with the edited id, and leaves a list without that id as it
      is. */
  lemma ApplyEditKeepsList(cached: seq<CalendarEvent>, edit: EditRequest)
    ensures |ApplyEdit(Some(cached), edit)| == |cached|
    ensures forall i :: 0 <= i < |cached| ==> ApplyEdit(Some(cached), edit)[i].id == cached[i].id
    ensures forall i :: 0 <= i < |cached| && cached[i].id != edit.id ==> ApplyEdit(Some(cached), edit)[i] == cached[i]
    ensures (forall i :: 0 <= i < |cached| ==> cached[i].id != edit.id) ==> ApplyEdit(Some(cached), edit) == cached
  {
  }

  /** Applying the same edit twice is applying it once. */
  lemma {:induction false} MapEditIdempotent(events: seq<CalendarEvent>, edit: EditRequest)
    ensures MapEdit(MapEdit(events, edit), edit) == MapEdit(events, edit)
  {
    if events != [] {
      MapEditIdempotent(events[1..], edit);
      var once := MapEdit(events, edit);
      assert once[1..] == MapEdit(events[1..], edit);
    }
  }

  /** The cache entry the sheet's query key names, as the query client
      holds it: absent, or a list of events. */
  class EventCache {
    var data: Option<seq<CalendarEvent>>

    constructor (data: Option<seq<CalendarEvent>>)
      ensures this.data == data
    {
      this.data := data;
    }

    /** `onMutate`: snapshot the entry, then write the optimistic list. */
    method OnMutate(edit: EditRequest) returns (previous: Option<seq<CalendarEvent>>)
      modifies this
      ensures previous == old(data)
      ensures data == Some(ApplyEdit(old(data), edit))
    {
      previous := data;
      data := Some(ApplyEdit(data, edit));
    }

    /** `onError`: put the snapshot back when there was one. An empty list
        is a snapshot too: arrays are truthy. */
    method OnError(previous: Option<seq<CalendarEvent>>)
      modifies this
      ensures previous.Some? ==> data == previous
      ensures previous.None? ==> data == old(data)
    {
      if previous.Some? {
        data := previous;
      }
    }

    /** A failed edit restores a list that was cached before, and leaves an
        entry that was absent as the empty list. */
    method FailedEdit(edit: EditRequest)
      modifies this
      ensures old(data).Some? ==> data == old(data)
      ensures old(data).None? ==> data == Some([])
    {
      var previous := OnMutate(edit);
      OnError(previous);
    }
  }
}
