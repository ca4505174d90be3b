/**
 * The event boxes of the day column: each event is clamped to the viewed
 * day, the events are sorted by start time on a copy, and each one gets a
 * `top` and a `height` in pixels. Pixels are exact reals.
 */
module DayEventBox {
  import opened EcmaDate
  import opened Events

  predicate HasTimes(e: CalendarEvent)
  {
    e.startTime.Time? && e.endTime.Time?
  }

  predicate AllHaveTimes(events: seq<CalendarEvent>)
  {
    forall e | e in events :: HasTimes(e)
  }

  function StartOf(e: CalendarEvent): int
    requires HasTimes(e)
  {
    e.startTime.tv
  }

  // ---------------------------------------------------------------------
  // The day's limits and the clamp

  /** `dayStart`: a copy of the view date set to 00:00:00.000. */
  function DayStart(viewDate: int): int
  {
    SetHoursAll(viewDate, 0, 0, 0, 0)
  }

  /** `dayEnd`: a copy of the view date set to 23:59:59.999. */
  function DayEnd(viewDate: int): int
  {
    SetHoursAll(viewDate, 23, 59, 59, 999)
  }

  /** The day runs from its midnight to the last millisecond before the
      next midnight, and both ends lie on the view date's day. */
  lemma DayLimits(viewDate: int)
    ensures DayStart(viewDate) == MakeDate(Day(viewDate), 0)
    ensures DayEnd(viewDate) == DayStart(viewDate) + MsPerDay - 1
    ensures Day(DayStart(viewDate)) == Day(viewDate) && TimeWithinDay(DayStart(viewDate)) == 0
    ensures Day(DayEnd(viewDate)) == Day(viewDate)
    ensures HourFromTime(DayEnd(viewDate)) == 23 && MinFromTime(DayEnd(viewDate)) == 59
  {
    TimeFieldsOfMakeTime(Day(viewDate), 23, 59, 59, 999);
    MidnightOf(Day(viewDate));
  }

  /** `getEventBoundariesForDay`: a start before the day's midnight moves up
      to it, and an end after 23:59:59.999 moves back to it. */
  function Boundaries(e: CalendarEvent, viewDate: int): (r: (int, int))
    requires HasTimes(e)
    ensures r.0 >= DayStart(viewDate) && r.0 >= e.startTime.tv
    ensures r.0 == DayStart(viewDate) || r.0 == e.startTime.tv
    ensures r.1 <= DayEnd(viewDate) && r.1 <= e.endTime.tv
    ensures r.1 == DayEnd(viewDate) || r.1 == e.endTime.tv
  {
    var dayStart := DayStart(viewDate);
    var dayEnd := DayEnd(viewDate);
    var effectiveStart := if e.startTime.tv < dayStart then dayStart else e.startTime.tv;
    var effectiveEnd := if e.endTime.tv > dayEnd then dayEnd else e.endTime.tv;
    (effectiveStart, effectiveEnd)
  }

  /** An event wholly inside the viewed day keeps its own times. */
  lemma InsideDayUnchanged(e: CalendarEvent, viewDate: int)
    requires HasTimes(e)
    requires DayStart(viewDate) <= e.startTime.tv && e.endTime.tv <= DayEnd(viewDate)
    ensures Boundaries(e, viewDate) == (e.startTime.tv, e.endTime.tv)
  {
  }

  /** An event that overlaps the viewed day is clamped onto that day. */
  lemma OverlapClampedToDay(e: CalendarEvent, viewDate: int)
    requires HasTimes(e)
    requires e.startTime.tv <= DayEnd(viewDate) && DayStart(viewDate) <= e.endTime.tv
    ensures Day(Boundaries(e, viewDate).0) == Day(viewDate)
    ensures Day(Boundaries(e, viewDate).1) == Day(viewDate)
  {
    DayLimits(viewDate);
    var r := Boundaries(e, viewDate);
    DayOfBetween(DayStart(viewDate), r.0, DayEnd(viewDate));
    DayOfBetween(DayStart(viewDate), r.1, DayEnd(viewDate));
  }

  lemma DayOfBetween(lo: int, t: int, hi: int)
    requires lo <= t <= hi
    requires TimeWithinDay(lo) == 0 && hi == lo + MsPerDay - 1
    ensures Day(t) == Day(lo)
  {
    DayTimeSplit(lo);
    MakeDateInDay(Day(lo), t - lo);
    assert t == MakeDate(Day(lo), t - lo);
  }

  // ---------------------------------------------------------------------
  // The stable sort by start time

  predicate SortedByStart(s: seq<CalendarEvent>)
    requires AllHaveTimes(s)
  {
    forall i, j :: 0 <= i < j < |s| ==> StartOf(s[i]) <= StartOf(s[j])
  }

  /** The events of s that start at time k, in the order of s. */
  function StartingAt(s: seq<CalendarEvent>, k: int): seq<CalendarEvent>
    requires AllHaveTimes(s)
  {
    if s == [] then []
    else (if StartOf(s[0]) == k then [s[0]] else []) + StartingAt(s[1..], k)
  }

  /** One insertion step: x goes before the first event that starts no
      earlier than it, so it stays ahead of the events that tie with it. */
  function Insert(x: CalendarEvent, sorted: seq<CalendarEvent>): (r: seq<CalendarEvent>)
    requires HasTimes(x) && AllHaveTimes(sorted)
    ensures |r| == |sorted| + 1
    ensures multiset(r) == multiset(sorted) + multiset{x}
    ensures AllHaveTimes(r)
  {
    if sorted == [] || StartOf(x) <= StartOf(sorted[0]) then [x] + sorted
    else
      assert sorted == [sorted[0]] + sorted[1..];
      [sorted[0]] + Insert(x, sorted[1..])
  }

  /** The comparator `a.startTime - b.startTime` under the stable
      `Array.prototype.sort`, applied to a copy of the events. */
  function SortByStart(events: seq<CalendarEvent>): (r: seq<CalendarEvent>)
    requires AllHaveTimes(events)
    ensures |r| == |events|
    ensures multiset(r) == multiset(events)
    ensures AllHaveTimes(r)
  {
    if events == [] then []
    else
      assert events == [events[0]] + events[1..];
      Insert(events[0], SortByStart(events[1..]))
  }

  /** Inserting x keeps every start at or after a bound that x and all of
      sorted respect. */
  lemma InsertAbove(x: CalendarEvent, sorted: seq<CalendarEvent>, b: int)
    requires HasTimes(x) && AllHaveTimes(sorted) && b <= StartOf(x)
    requires forall e | e in sorted :: b <= StartOf(e)
    ensures forall e | e in Insert(x, sorted) :: b <= StartOf(e)
  {
    forall e | e in Insert(x, sorted)
      ensures b <= StartOf(e)
    {
      assert e in multiset(Insert(x, sorted));
    }
  }

  /** An event no later than every event of a sorted sequence can head it. */
  lemma ConsSorted(h: CalendarEvent, rest: seq<CalendarEvent>)
    requires HasTimes(h) && AllHaveTimes(rest) && SortedByStart(rest)
    requires forall e | e in rest :: StartOf(h) <= StartOf(e)
    ensures AllHaveTimes([h] + rest) && SortedByStart([h] + rest)
  {
    var r := [h] + rest;
    forall i, j | 0 <= i < j < |r|
      ensures StartOf(r[i]) <= StartOf(r[j])
    {
      assert r[j] == rest[j - 1];
      if i == 0 {
        assert r[j] in rest;
      } else {
        assert r[i] == rest[i - 1];
      }
    }
  }

  lemma {:induction false} InsertSorted(x: CalendarEvent, sorted: seq<CalendarEvent>)
    requires HasTimes(x) && AllHaveTimes(sorted) && SortedByStart(sorted)
    ensures SortedByStart(Insert(x, sorted))
  {
    if sorted == [] || StartOf(x) <= StartOf(sorted[0]) {
      ConsSorted(x, sorted);
    } else {
      var tail := sorted[1..];
      InsertSorted(x, tail);
      forall e | e in tail
        ensures StartOf(sorted[0]) <= StartOf(e)
      {
        var j :| 0 <= j < |tail| && tail[j] == e;
        assert e == sorted[j + 1];
      }
      InsertAbove(x, tail, StartOf(sorted[0]));
      ConsSorted(sorted[0], Insert(x, tail));
    }
  }

  /** The output is in non-decreasing order of start time. */
  lemma {:induction false} SortByStartSorted(events: seq<CalendarEvent>)
    requires AllHaveTimes(events)
    ensures SortedByStart(SortByStart(events))
  {
    if events != [] {
      SortByStartSorted(events[1..]);
      InsertSorted(events[0], SortByStart(events[1..]));
    }
  }

  /** StartingAt reads a sequence from its head. */
  lemma StartingAtCons(h: CalendarEvent, s: seq<CalendarEvent>, k: int)
    requires HasTimes(h) && AllHaveTimes(s) && AllHaveTimes([h] + s)
    ensures StartingAt([h] + s, k) == (if StartOf(h) == k then [h] else []) + StartingAt(s, k)
  {
    assert ([h] + s)[1..] == s;
  }

  lemma {:induction false} InsertStartingAt(x: CalendarEvent, sorted: seq<CalendarEvent>, k: int)
    requires HasTimes(x) && AllHaveTimes(sorted)
    ensures StartingAt(Insert(x, sorted), k)
      == (if StartOf(x) == k then [x] else []) + StartingAt(sorted, k)
  {
    if sorted == [] || StartOf(x) <= StartOf(sorted[0]) {
      StartingAtCons(x, sorted, k);
    } else {
      var s0 := sorted[0];
      var tail := sorted[1..];
      var rest := Insert(x, tail);
      InsertStartingAt(x, tail, k);
      assert Insert(x, sorted) == [s0] + rest;
      StartingAtCons(s0, rest, k);
      assert sorted == [s0] + tail;
      StartingAtCons(s0, tail, k);
      if StartOf(s0) == k {
        assert StartOf(x) != k;
        assert StartingAt(rest, k) == StartingAt(tail, k);
      } else {
        assert StartingAt(Insert(x, sorted), k) == StartingAt(rest, k);
        assert StartingAt(sorted, k) == StartingAt(tail, k);
      }
    }
  }

  /** Stability: the events that start at the same time come out in the
      order they came in, for every start time. */
  lemma {:induction false} SortByStartStable(events: seq<CalendarEvent>, k: int)
    requires AllHaveTimes(events)
    ensures StartingAt(SortByStart(events), k) == StartingAt(events, k)
  {
    if events != [] {
      SortByStartStable(events[1..], k);
      InsertStartingAt(events[0], SortByStart(events[1..]), k);
    }
  }

  // ---------------------------------------------------------------------
  // Positions

  datatype PositionedEvent = PositionedEvent(
    event: CalendarEvent,
    topPixels: real,
    heightPixels: real,
    startTime: int,
    endTime: int)

  /** The smallest height a box is drawn with. */
  const MinHeight: real := 24.0

  /** Hours and minutes of a time as a number of minutes since midnight;
      seconds and milliseconds are not read. */
  function MinuteOfDay(t: int): (m: int)
    ensures 0 <= m < 1440
  {
    HourFromTime(t) * 60 + MinFromTime(t)
  }

  function DurationHours(start: int, end: int): real
  {
    (HourFromTime(end) - HourFromTime(start)) as real
      + (MinFromTime(end) - MinFromTime(start)) as real / 60.0
  }

  /** `topPixels`: the start's hour and minute as a fraction of the hour
      rows; within the column for a positive row height. */
  function TopPixels(start: int, hourHeight: real): (top: real)
    ensures top * 60.0 == MinuteOfDay(start) as real * hourHeight
    ensures hourHeight > 0.0 ==> 0.0 <= top < 24.0 * hourHeight
  {
    var top := (HourFromTime(start) as real + MinFromTime(start) as real / 60.0) * hourHeight;
    ScaledMinuteInDay(top, MinuteOfDay(start) as real, hourHeight);
    top
  }

  /** `heightPixels`: the duration in hours times the row height, never
      less than the floor. */
  function HeightPixels(start: int, end: int, hourHeight: real): (height: real)
    ensures height >= MinHeight
    ensures height * 60.0 >= (MinuteOfDay(end) - MinuteOfDay(start)) as real * hourHeight
    ensures height == MinHeight || height * 60.0 == (MinuteOfDay(end) - MinuteOfDay(start)) as real * hourHeight
  {
    var durationHours := DurationHours(start, end);
    DurationInMinutes(start, end);
    if durationHours * hourHeight > MinHeight then durationHours * hourHeight else MinHeight
  }

  /** The box of one event: `top` from the clamped start's hour and minute,
      `height` from the hour-and-minute duration with a floor of 24 px. */
  function Layout(e: CalendarEvent, hourHeight: real, viewDate: int): (p: PositionedEvent)
    requires HasTimes(e)
    ensures p.event == e
    ensures (p.startTime, p.endTime) == Boundaries(e, viewDate)
    ensures p.topPixels == TopPixels(p.startTime, hourHeight)
    ensures p.heightPixels == HeightPixels(p.startTime, p.endTime, hourHeight)
  {
    var (effectiveStart, effectiveEnd) := Boundaries(e, viewDate);
    PositionedEvent(e, TopPixels(effectiveStart, hourHeight), HeightPixels(effectiveStart, effectiveEnd, hourHeight),
                    effectiveStart, effectiveEnd)
  }

  /** The duration counts whole minutes only. */
  lemma DurationInMinutes(start: int, end: int)
    ensures DurationHours(start, end) * 60.0 == (MinuteOfDay(end) - MinuteOfDay(start)) as real
  {
  }

  lemma ScaledMinuteInDay(top: real, m: real, hourHeight: real)
    requires 0.0 <= m < 1440.0
    requires top * 60.0 == m * hourHeight
    ensures hourHeight > 0.0 ==> 0.0 <= top < 24.0 * hourHeight
  {
    if hourHeight > 0.0 {
      assert 0.0 <= m * hourHeight;
      assert m * hourHeight < 1440.0 * hourHeight;
    }
  }

  /** An event that ends no later (in hours and minutes) than it starts is
      drawn exactly 24 px high. */
  lemma EmptyDurationIsFloor(e: CalendarEvent, hourHeight: real, viewDate: int)
    requires HasTimes(e) && hourHeight >= 0.0
    requires var b := Boundaries(e, viewDate); MinuteOfDay(b.1) <= MinuteOfDay(b.0)
    ensures Layout(e, hourHeight, viewDate).heightPixels == MinHeight
  {
    var b := Boundaries(e, viewDate);
    HeightFloor(b.0, b.1, hourHeight);
  }

  lemma HeightFloor(start: int, end: int, hourHeight: real)
    requires hourHeight >= 0.0 && MinuteOfDay(end) <= MinuteOfDay(start)
    ensures HeightPixels(start, end, hourHeight) == MinHeight
  {
    var d := DurationHours(start, end);
    DurationInMinutes(start, end);
    NonPositiveScaled(d, hourHeight);
  }

  lemma NonPositiveScaled(d: real, k: real)
    requires d * 60.0 <= 0.0 && k >= 0.0
    ensures d * k <= 0.0
  {
    assert d <= 0.0;
  }

  /** An event running past the day's end is measured to 23:59: its last
      59.999 seconds do not count. */
  lemma ClampedEndCountsAs2359(e: CalendarEvent, hourHeight: real, viewDate: int)
    requires HasTimes(e) && e.endTime.tv > DayEnd(viewDate)
    ensures Layout(e, hourHeight, viewDate).endTime == DayEnd(viewDate)
    ensures MinuteOfDay(Layout(e, hourHeight, viewDate).endTime) == 23 * 60 + 59
  {
    DayLimits(viewDate);
  }

  /** `eventsWithPositions`: the boxes of the sorted copy, one per event. */
  function EventsWithPositions(events: seq<CalendarEvent>, hourHeight: real, viewDate: int): (boxes: seq<PositionedEvent>)
    requires AllHaveTimes(events)
    ensures |boxes| == |events|
    ensures forall i :: 0 <= i < |boxes| ==> boxes[i] == Layout(SortByStart(events)[i], hourHeight, viewDate)
  {
    var sortedEvents := SortByStart(events);
    seq(|sortedEvents|, i requires 0 <= i < |sortedEvents| => Layout(sortedEvents[i], hourHeight, viewDate))
  }

  function EventsOf(boxes: seq<PositionedEvent>): seq<CalendarEvent>
  {
    seq(|boxes|, i requires 0 <= i < |boxes| => boxes[i].event)
  }

  /** Every event gets exactly one box, the boxes are in start order with
      ties in input order, and every box is at least 24 px high. */
  lemma PositionsArePermutedSortedAndStable(events: seq<CalendarEvent>, hourHeight: real, viewDate: int, k: int)
    requires AllHaveTimes(events)
    ensures multiset(EventsOf(EventsWithPositions(events, hourHeight, viewDate))) == multiset(events)
    ensures AllHaveTimes(EventsOf(EventsWithPositions(events, hourHeight, viewDate)))
    ensures SortedByStart(EventsOf(EventsWithPositions(events, hourHeight, viewDate)))
    ensures StartingAt(EventsOf(EventsWithPositions(events, hourHeight, viewDate)), k) == StartingAt(events, k)
    ensures forall b | b in EventsWithPositions(events, hourHeight, viewDate) :: b.heightPixels >= MinHeight
  {
    var boxes := EventsWithPositions(events, hourHeight, viewDate);
    assert EventsOf(boxes) == SortByStart(events);
    SortByStartSorted(events);
    SortByStartStable(events, k);
  }
}
