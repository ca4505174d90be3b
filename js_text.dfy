/** An optional value, as `undefined` or `null` stand for a missing one. */
module Optional {
  datatype Option<T> = None | Some(value: T)
}

/**
 * The few string conversions of JavaScript the views use: number to decimal
 * text (template literals and `String(n)`), `padStart(2, "0")`, and
 * `parseInt(s, 10)`.
 */
module JsText {
  import opened Optional

  predicate IsDigit(c: char) { '0' <= c <= '9' }

  predicate AllDigits(s: string) { forall i :: 0 <= i < |s| ==> IsDigit(s[i]) }

  function DigitChar(d: int): (c: char)
    requires 0 <= d < 10
    ensures IsDigit(c) && c as int - '0' as int == d
  {
    (d + '0' as int) as char
  }

  /** Decimal text of a natural number, without leading zeros. */
  function NatToString(n: nat): (s: string)
    ensures 1 <= |s| && AllDigits(s)
    ensures |s| == 1 <==> n < 10
    decreases n
  {
    if n < 10 then [DigitChar(n)] else NatToString(n / 10) + [DigitChar(n % 10)]
  }

  /** `${i}` for an integer: a minus sign before the digits of a negative. */
  function IntToString(i: int): (s: string)
    ensures 1 <= |s|
    ensures 0 <= i ==> s == NatToString(i)
    ensures i < 0 ==> s == "-" + NatToString(-i)
  {
    if i < 0 then "-" + NatToString(-i) else NatToString(i)
  }

  /** `s.padStart(2, "0")`: zeros before a string shorter than two. */
  function PadStart2(s: string): (r: string)
    ensures |s| >= 2 ==> r == s
    ensures |s| < 2 ==> |r| == 2 && r[2 - |s|..] == s
    ensures forall i :: 0 <= i < |r| - |s| ==> r[i] == '0'
  {
    if |s| == 0 then "00" else if |s| == 1 then "0" + s else s
  }

  /** Value of a string of decimal digits. */
  function DigitsValue(s: string): nat
    requires AllDigits(s)
  {
    if s == [] then 0 else DigitsValue(s[..|s| - 1]) * 10 + (s[|s| - 1] as int - '0' as int)
  }

  /** The longest prefix of s made of decimal digits. */
  function LeadingDigits(s: string): (r: string)
    ensures AllDigits(r) && r <= s
    ensures |r| < |s| ==> !IsDigit(s[|r|])
  {
    if s == [] || !IsDigit(s[0]) then [] else [s[0]] + LeadingDigits(s[1..])
  }

  /** White space that `parseInt` skips (the StrWhiteSpaceChar set, without
      the Unicode space separators beyond NBSP). */
  predicate IsWhiteSpace(c: char)
  {
    c == ' ' || c == '\t' || c == '\n' || c == '\r' || c == '\U{000B}' || c == '\U{000C}'
    || c == '\U{00A0}' || c == '\U{FEFF}' || c == '\U{2028}' || c == '\U{2029}'
  }

  function TrimStart(s: string): (r: string)
    ensures |r| <= |s| && r == s[|s| - |r|..]
    ensures r != [] ==> !IsWhiteSpace(r[0])
  {
    if s != [] && IsWhiteSpace(s[0]) then TrimStart(s[1..]) else s
  }

  /** The longest run of leading digits as a number; None when there is
      none. */
  function ParseDigits(t: string): (r: Option<nat>)
    ensures r.None? <==> t == [] || !IsDigit(t[0])
  {
    var digits := LeadingDigits(t);
    if digits == [] then None else Some(DigitsValue(digits))
  }

  /** An optional sign, then digits. */
  function ParseSigned(t: string): Option<int>
  {
    if t != [] && t[0] == '-' then
      match ParseDigits(t[1..])
      case None => None
      case Some(v) => Some(-(v as int))
    else if t != [] && t[0] == '+' then
      match ParseDigits(t[1..])
      case None => None
      case Some(v) => Some(v)
    else
      match ParseDigits(t)
      case None => None
      case Some(v) => Some(v)
  }

  /** `parseInt(s, 10)`: leading white space skipped, an optional sign, then
      the longest run of digits; None stands for NaN (no digits). */
  function ParseInt(s: string): Option<int>
  {
    ParseSigned(TrimStart(s))
  }

  lemma {:induction false} DigitsValueOfNatToString(n: nat)
    ensures DigitsValue(NatToString(n)) == n
    decreases n
  {
    if n >= 10 {
      DigitsValueOfNatToString(n / 10);
      var s := NatToString(n);
      assert s[..|s| - 1] == NatToString(n / 10);
    }
  }

  lemma {:induction false} LeadingDigitsOfDigits(s: string)
    requires AllDigits(s)
    ensures LeadingDigits(s) == s
    decreases |s|
  {
    if s != [] {
      LeadingDigitsOfDigits(s[1..]);
    }
  }

  lemma {:induction false} DigitsValueLeadingZero(s: string)
    requires AllDigits(s)
    ensures AllDigits("0" + s) && DigitsValue("0" + s) == DigitsValue(s)
    decreases |s|
  {
    if s != [] {
      var z := "0" + s;
      assert z[..|z| - 1] == "0" + s[..|s| - 1];
      DigitsValueLeadingZero(s[..|s| - 1]);
    }
  }

  /** A non-empty run of digits parses to its value. */
  lemma ParseIntOfDigits(s: string)
    requires s != [] && AllDigits(s)
    ensures ParseInt(s) == Some(DigitsValue(s))
  {
    assert IsDigit(s[0]);
    assert TrimStart(s) == s by {
      assert !IsWhiteSpace(s[0]);
    }
    assert ParseDigits(s) == Some(DigitsValue(s)) by {
      LeadingDigitsOfDigits(s);
    }
    assert s[0] != '-' && s[0] != '+';
  }

  /** Text written by NatToString, zero-padded or not, reads back as the
      same number. */
  lemma ParseIntPadded(n: nat)
    ensures ParseInt(NatToString(n)) == Some(n)
    ensures ParseInt(PadStart2(NatToString(n))) == Some(n)
  {
    var s := NatToString(n);
    DigitsValueOfNatToString(n);
    ParseIntOfDigits(s);
    if |s| == 1 {
      DigitsValueLeadingZero(s);
      ParseIntOfDigits("0" + s);
    }
  }
  /** The text of an integer starts with a digit exactly when the integer
      is not negative. */
  lemma IntToStringHead(i: int)
    ensures IsDigit(IntToString(i)[0]) <==> 0 <= i
  {
    if 0 <= i {
      assert IsDigit(NatToString(i)[0]);
    }
  }

  /** Different naturals have different decimal texts. */
  lemma NatToStringInjective(a: nat, b: nat)
    requires NatToString(a) == NatToString(b)
    ensures a == b
  {
    DigitsValueOfNatToString(a);
    DigitsValueOfNatToString(b);
  }

  /** Different integers have different decimal texts. */
  lemma IntToStringInjective(a: int, b: int)
    requires IntToString(a) == IntToString(b)
    ensures a == b
  {
    IntToStringHead(a);
    IntToStringHead(b);
    if 0 <= a && 0 <= b {
      NatToStringInjective(a, b);
    } else if a < 0 && b < 0 {
      assert NatToString(-a) == IntToString(a)[1..];
      assert NatToString(-b) == IntToString(b)[1..];
      NatToStringInjective(-a, -b);
    }
  }

  /** Decimal text holds neither a space nor a comma. */
  lemma IntToStringPlain(i: int)
    ensures ' ' !in IntToString(i) && ',' !in IntToString(i)
  {
    var s := IntToString(i);
    forall k | 0 <= k < |s|
      ensures s[k] != ' ' && s[k] != ','
    {
      if i < 0 && k > 0 {
        assert s[k] == NatToString(-i)[k - 1];
      }
    }
  }

  /** Two texts that agree up to the first occurrence of a delimiter that
      neither prefix holds split into the same prefix and the same rest. */
  lemma SplitAtDelimiter(c: char, p1: string, s1: string, p2: string, s2: string)
    requires c !in p1 && c !in p2
    requires |s1| > 0 && s1[0] == c && |s2| > 0 && s2[0] == c
    requires p1 + s1 == p2 + s2
    ensures p1 == p2 && s1 == s2
  {
    assert (p1 + s1)[|p1|] == c;
    assert (p2 + s2)[|p2|] == c;
    assert |p1| == |p2|;
    assert p1 == (p1 + s1)[..|p1|];
    assert p2 == (p2 + s2)[..|p2|];
    assert s1 == (p1 + s1)[|p1|..];
    assert s2 == (p2 + s2)[|p2|..];
  }
  /** `s.split(c)` for a one-character separator: the pieces between the
      occurrences of c, in order; a text without c is one piece. */
  function Split(s: string, c: char): (parts: seq<string>)
    ensures |parts| >= 1
    decreases |s|
  {
    if |s| == 0 then [""]
    else if s[0] == c then [""] + Split(s[1..], c)
    else
      var rest := Split(s[1..], c);
      [[s[0]] + rest[0]] + rest[1..]
  }

  /** `parts.join(c)`. */
  function Join(parts: seq<string>, c: char): string
    requires |parts| >= 1
    decreases |parts|
  {
    if |parts| == 1 then parts[0] else parts[0] + [c] + Join(parts[1..], c)
  }

  /** Splitting loses nothing: joining the pieces back gives the text, and
      no piece holds the separator. */
  lemma {:induction false} SplitJoin(s: string, c: char)
    ensures Join(Split(s, c), c) == s
    ensures forall i :: 0 <= i < |Split(s, c)| ==> c !in Split(s, c)[i]
    decreases |s|
  {
    if |s| > 0 {
      SplitJoin(s[1..], c);
      var rest := Split(s[1..], c);
      if s[0] == c {
        assert Split(s, c)[1..] == rest;
        assert s == [c] + s[1..];
      } else {
        var parts := Split(s, c);
        assert parts[0] == [s[0]] + rest[0];
        assert parts[1..] == rest[1..];
        if |rest| == 1 {
          assert s == [s[0]] + s[1..];
        } else {
          assert Join(rest, c) == rest[0] + [c] + Join(rest[1..], c);
          assert Join(parts, c) == parts[0] + [c] + Join(rest[1..], c);
          assert s == [s[0]] + s[1..];
        }
      }
    }
  }

  /** A text without the separator is one piece. */
  lemma {:induction false} SplitWithout(a: string, c: char)
    requires c !in a
    ensures Split(a, c) == [a]
    decreases |a|
  {
    if |a| > 0 {
      SplitWithout(a[1..], c);
      assert a == [a[0]] + a[1..];
    }
  }

  /** Text before the first separator is the first piece, and the rest is
      split on its own. */
  lemma {:induction false} SplitAtFirst(a: string, c: char, b: string)
    requires c !in a
    ensures Split(a + [c] + b, c) == [a] + Split(b, c)
    decreases |a|
  {
    if |a| == 0 {
      assert a + [c] + b == [c] + b;
      assert ([c] + b)[1..] == b;
    } else {
      SplitAtFirst(a[1..], c, b);
      assert (a + [c] + b)[1..] == a[1..] + [c] + b;
      assert a == [a[0]] + a[1..];
    }
  }

  lemma ConcatAssoc(a: string, b: string, c: string)
    ensures (a + b) + c == a + (b + c)
  {
  }
  lemma Concat6Assoc(a: string, b: string, c: string, d: string, e: string, f: string)
    ensures a + b + c + d + e + f == a + (b + (c + (d + (e + f))))
  {
    ConcatAssoc(a, b, c);
    ConcatAssoc(a, b + c, d);
    ConcatAssoc(b, c, d);
    ConcatAssoc(a, b + (c + d), e);
    ConcatAssoc(c, d, e);
    ConcatAssoc(b, c + d, e);
    ConcatAssoc(a, b + (c + (d + e)), f);
    ConcatAssoc(d, e, f);
    ConcatAssoc(c, d + e, f);
    ConcatAssoc(b, c + (d + e), f);
  }
}
