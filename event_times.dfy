/**
 * The time fields of the event forms: reading a chosen "HH:MM" option into
 * a copy of a date, showing a date's time as "HH:MM", and the hour after a
 * date, which both forms use as the default or pushed end.
 */
module EventTimes {
  import opened EcmaDate
  import opened Optional
  import opened JsText

  /** `date.setHours(hour)` on a Date object: an invalid date stays
      invalid, and an hour that is NaN makes the date invalid. */
  function SetHoursValue(d: DateValue, hour: Option<int>): (r: DateValue)
    ensures r.Time? <==> d.Time? && hour.Some?
  {
    if d.Time? && hour.Some? then Time(SetHours(d.tv, hour.value)) else NaN
  }

  /** `date.setMinutes(min)` on a Date object, with the same NaN rules. */
  function SetMinutesValue(d: DateValue, min: Option<int>): (r: DateValue)
    ensures r.Time? <==> d.Time? && min.Some?
  {
    if d.Time? && min.Some? then Time(SetMinutes(d.tv, min.value)) else NaN
  }

  /** Element i of a destructured array, or `undefined` past its end. */
  function PieceAt(parts: seq<string>, i: nat): Option<string>
  {
    if i < |parts| then Some(parts[i]) else None
  }

  /** `parseInt(piece, 10)`, where `parseInt(undefined)` is NaN. */
  function ParsePiece(piece: Option<string>): Option<int>
  {
    match piece
    case None => None
    case Some(s) => ParseInt(s)
  }

  /** The hours and minutes a time option names: the numbers before and
      after its first colon, None where `parseInt` gives NaN. */
  function HoursOf(time: string): Option<int>
  {
    ParsePiece(PieceAt(Split(time, ':'), 0))
  }

  function MinutesOf(time: string): Option<int>
  {
    ParsePiece(PieceAt(Split(time, ':'), 1))
  }

  /** What the edit means: the same day, the given hours and minutes, the
      seconds and milliseconds of the original; invalid if the date or
      either number is. Hours and minutes out of range carry over as
      MakeTime and MakeDate carry them. */
  function WithTimeOfDay(d: DateValue, hours: Option<int>, minutes: Option<int>): DateValue
  {
    if d.Time? && hours.Some? && minutes.Some? then
      Time(MakeDate(Day(d.tv), MakeTime(hours.value, minutes.value, SecFromTime(d.tv), MsFromTime(d.tv))))
    else NaN
  }

  /** `setHours(h)` then `setMinutes(m)` is one `setHours(h, m)`. */
  lemma SetHoursThenMinutes(t: int, h: int, m: int)
    ensures SetMinutes(SetHours(t, h), m) == MakeDate(Day(t), MakeTime(h, m, SecFromTime(t), MsFromTime(t)))
  {
    var t1 := SetHours(t, h);
    SetHoursFields(t, h);
    assert h == (h / 24) * 24 + h % 24;
    assert SetMinutes(t1, m) == (Day(t) + h / 24) * MsPerDay
      + MakeTime(h % 24, m, SecFromTime(t), MsFromTime(t));
  }

  /** `convertTimeToDate`: split the option at ':', copy the date, set the
      hours, then set the minutes. The original date is a value here, so
      it cannot change. */
  method ConvertTimeToDate(time: string, originalDate: DateValue) returns (date: DateValue)
    ensures date == WithTimeOfDay(originalDate, HoursOf(time), MinutesOf(time))
  {
    var parts := Split(time, ':');
    var hours := PieceAt(parts, 0);
    var minutes := PieceAt(parts, 1);
    date := originalDate;
    date := SetHoursValue(date, ParsePiece(hours));
    date := SetMinutesValue(date, ParsePiece(minutes));
    if date.Time? {
      SetHoursThenMinutes(originalDate.tv, ParsePiece(hours).value, ParsePiece(minutes).value);
    }
  }

  /** Hours 0..23 and minutes 0..59 land on the same calendar day, with
      those hours and minutes, and keep the seconds and milliseconds. */
  lemma WithTimeOfDayFields(t: int, h: int, m: int)
    requires 0 <= h < 24 && 0 <= m < 60
    ensures WithTimeOfDay(Time(t), Some(h), Some(m)).Time?
    ensures Day(WithTimeOfDay(Time(t), Some(h), Some(m)).tv) == Day(t)
    ensures HourFromTime(WithTimeOfDay(Time(t), Some(h), Some(m)).tv) == h
    ensures MinFromTime(WithTimeOfDay(Time(t), Some(h), Some(m)).tv) == m
    ensures SecFromTime(WithTimeOfDay(Time(t), Some(h), Some(m)).tv) == SecFromTime(t)
    ensures MsFromTime(WithTimeOfDay(Time(t), Some(h), Some(m)).tv) == MsFromTime(t)
  {
    TimeFieldsOfMakeTime(Day(t), h, m, SecFromTime(t), MsFromTime(t));
  }

  /** A text without a colon has no minutes, so the date becomes invalid. */
  lemma NoColonIsInvalid(time: string, d: DateValue)
    requires ':' !in time
    ensures MinutesOf(time) == None
    ensures WithTimeOfDay(d, HoursOf(time), MinutesOf(time)) == NaN
  {
    SplitWithout(time, ':');
  }

  /** Two digits, zero-padded. */
  function TwoDigits(n: nat): string
  {
    PadStart2(NatToString(n))
  }

  lemma TwoDigitsPlain(n: nat)
    ensures ':' !in TwoDigits(n)
  {
    var s := NatToString(n);
    var r := TwoDigits(n);
    forall i | 0 <= i < |r|
      ensures r[i] != ':'
    {
      if |s| < 2 && i >= 2 - |s| {
        assert r[i] == s[i - (2 - |s|)];
      }
    }
  }

  /** `formatTime` of the edit sheet: "00:00" for an invalid date, else
      the hours and minutes on the 24-hour clock, two digits each. */
  function FormatTime(d: DateValue): string
  {
    if d.NaN? then "00:00"
    else TwoDigits(HourFromTime(d.tv)) + ":" + TwoDigits(MinFromTime(d.tv))
  }

  /** Two colon-free pieces joined by a colon split back into the two, so
      the hours and minutes read are the numbers of the pieces. */
  lemma ReadPieces(a: string, b: string)
    requires ':' !in a && ':' !in b
    ensures HoursOf(a + ":" + b) == ParseInt(a)
    ensures MinutesOf(a + ":" + b) == ParseInt(b)
  {
    assert a + ":" + b == a + [':'] + b;
    SplitAtFirst(a, ':', b);
    SplitWithout(b, ':');
  }

  /** The text "HH:MM" reads back as its hours and minutes. */
  lemma ReadTwoDigitTime(h: nat, m: nat)
    ensures HoursOf(TwoDigits(h) + ":" + TwoDigits(m)) == Some(h)
    ensures MinutesOf(TwoDigits(h) + ":" + TwoDigits(m)) == Some(m)
  {
    TwoDigitsPlain(h);
    TwoDigitsPlain(m);
    ReadPieces(TwoDigits(h), TwoDigits(m));
    ParseIntPadded(h);
    ParseIntPadded(m);
  }

  /** Choosing "HH:MM" for hours 0..23 and minutes 0..59 moves a valid
      date to that hour and minute of its own day. */
  lemma ConvertShownTime(u: int, h: nat, m: nat)
    requires h < 24 && m < 60
    ensures var r := WithTimeOfDay(Time(u), HoursOf(TwoDigits(h) + ":" + TwoDigits(m)),
                                   MinutesOf(TwoDigits(h) + ":" + TwoDigits(m)));
      r.Time? && Day(r.tv) == Day(u) && HourFromTime(r.tv) == h && MinFromTime(r.tv) == m
      && SecFromTime(r.tv) == SecFromTime(u) && MsFromTime(r.tv) == MsFromTime(u)
  {
    ReadTwoDigitTime(h, m);
    WithTimeOfDayFields(u, h, m);
  }

  /** Choosing the time a date is shown with moves another valid date to
      that hour and minute of its own day, so choosing a date's own shown
      time gives it back up to its seconds. An invalid date shows "00:00",
      which moves a valid date to midnight. */
  lemma FormatThenConvert(d: DateValue, u: int)
    ensures var r := WithTimeOfDay(Time(u), HoursOf(FormatTime(d)), MinutesOf(FormatTime(d)));
      r.Time? && Day(r.tv) == Day(u)
      && HourFromTime(r.tv) == (if d.Time? then HourFromTime(d.tv) else 0)
      && MinFromTime(r.tv) == (if d.Time? then MinFromTime(d.tv) else 0)
      && SecFromTime(r.tv) == SecFromTime(u) && MsFromTime(r.tv) == MsFromTime(u)
  {
    if d.Time? {
      ConvertShownTime(u, HourFromTime(d.tv), MinFromTime(d.tv));
    } else {
      assert TwoDigits(0) == "00" by {
        assert NatToString(0) == "0";
      }
      assert FormatTime(d) == TwoDigits(0) + ":" + TwoDigits(0);
      ConvertShownTime(u, 0, 0);
    }
  }

  /** `d.setHours(d.getHours() + 1)`: the hour after a date. */
  function NextHour(t: int): int
  {
    SetHours(t, HourFromTime(t) + 1)
  }

  /** The hour after is exactly 3 600 000 ms later, so from 23:xx it is on
      the next day. */
  lemma NextHourIsOneHourLater(t: int)
    ensures NextHour(t) == t + MsPerHour
    ensures HourFromTime(t) == 23 ==> Day(NextHour(t)) == Day(t) + 1
    ensures HourFromTime(t) < 23 ==> Day(NextHour(t)) == Day(t)
  {
    TimeFieldsSplit(t);
    DayTimeSplit(t);
    SetHoursFields(t, HourFromTime(t) + 1);
  }
}
