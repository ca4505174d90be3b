/**
 * The 12-hour labels of the hour rows. Three views write the same rule
 * inline, so it is written once here: "12 AM" for hour 0, "h AM" before
 * noon, "12 PM" at noon and "(h - 12) PM" after.
 */
module HourLabels {
  import opened JsText

  /** The hour rows: 0 to 23 in order (`Array.from({ length: 24 }, (_, i) => i)`). */
  function Hours(): (hours: seq<int>)
    ensures |hours| == 24
    ensures forall i :: 0 <= i < 24 ==> hours[i] == i
  {
    seq(24, i => i)
  }

  function HourLabel(hour: int): string
  {
    if hour == 0 then "12 AM"
    else if hour < 12 then IntToString(hour) + " AM"
    else if hour == 12 then "12 PM"
    else IntToString(hour - 12) + " PM"
  }

  /** The labels of the 24 hour rows, one per row, in order. */
  function HourRowLabels(): (labels: seq<string>)
    ensures |labels| == |Hours()|
    ensures forall i :: 0 <= i < |labels| ==> labels[i] == HourLabel(Hours()[i])
  {
    seq(24, i => HourLabel(i))
  }

  /** The rule is the clock-face reading: the hour modulo 12, with 0 read
      as 12, then AM before noon and PM from noon. */
  lemma HourLabelIsClockFace(hour: int)
    requires 0 <= hour < 24
    ensures HourLabel(hour) == IntToString((hour + 11) % 12 + 1) + (if hour < 12 then " AM" else " PM")
  {
    if hour == 0 {
      assert IntToString(12) == "12" by {
        assert NatToString(12) == NatToString(1) + [DigitChar(2)];
      }
    } else if hour == 12 {
      assert IntToString(12) == "12" by {
        assert NatToString(12) == NatToString(1) + [DigitChar(2)];
      }
    }
  }

  /** The label's suffix tells morning from afternoon. */
  lemma HourLabelSuffix(hour: int)
    requires 0 <= hour < 24
    ensures |HourLabel(hour)| >= 4
    ensures HourLabel(hour)[|HourLabel(hour)| - 3..] == (if hour < 12 then " AM" else " PM")
  {
  }

  lemma ClockHourCases(hour: int)
    requires 0 <= hour < 24
    ensures (hour + 11) % 12 + 1 == (if hour % 12 == 0 then 12 else hour % 12)
    ensures hour < 12 ==> hour % 12 == hour
    ensures 12 <= hour ==> hour % 12 == hour - 12
  {
  }

  lemma SameSuffixLength(p1: string, s1: string, p2: string, s2: string)
    requires |s1| == |s2| && p1 + s1 == p2 + s2
    ensures p1 == p2 && s1 == s2
  {
    assert p1 == (p1 + s1)[..|p1|];
    assert p2 == (p2 + s2)[..|p2|];
    assert s1 == (p1 + s1)[|p1|..];
    assert s2 == (p2 + s2)[|p2|..];
  }

  /** Different hours of the day get different labels. */
  lemma HourLabelInjective(a: int, b: int)
    requires 0 <= a < 24 && 0 <= b < 24
    requires HourLabel(a) == HourLabel(b)
    ensures a == b
  {
    HourLabelIsClockFace(a);
    HourLabelIsClockFace(b);
    var na := (a + 11) % 12 + 1;
    var nb := (b + 11) % 12 + 1;
    var sa := if a < 12 then " AM" else " PM";
    var sb := if b < 12 then " AM" else " PM";
    SameSuffixLength(NatToString(na), sa, NatToString(nb), sb);
    DigitsValueOfNatToString(na);
    DigitsValueOfNatToString(nb);
    assert na == nb;
    assert (a < 12) == (b < 12);
    ClockHourCases(a);
    ClockHourCases(b);
  }
}
