/**
 * The `time_spent` field of a report: whole elapsed seconds split with `divmod` into hours,
 * minutes and seconds, and written `H:MM:SS`, or `MM:SS` when there are no hours.
 */
module Elapsed {
  import opened Wrappers

  predicate IsDigit(c: char) {
    '0' <= c <= '9'
  }

  predicate AllDigits(s: string) {
    forall i :: 0 <= i < |s| ==> IsDigit(s[i])
  }

  function DigitChar(d: nat): (c: char)
    requires d < 10
    ensures IsDigit(c)
  {
    ('0' as int + d) as char
  }

  function DigitValue(c: char): (d: nat)
    requires IsDigit(c)
    ensures d < 10
  {
    c as int - '0' as int
  }

  lemma DigitRoundTrip(d: nat)
    requires d < 10
    ensures DigitValue(DigitChar(d)) == d
  {
  }

  /** The number a string of decimal digits denotes. */
  function DigitsValue(s: string): nat
    requires AllDigits(s)
  {
    if s == [] then 0 else DigitsValue(s[..|s| - 1]) * 10 + DigitValue(s[|s| - 1])
  }

  /** `f"{n:d}"` for a non-negative `n`: its decimal digits, no leading zero. */
  function NatToString(n: nat): (s: string)
    ensures s != [] && AllDigits(s)
    ensures |s| > 1 ==> s[0] != '0'
  {
    if n < 10 then [DigitChar(n)] else NatToString(n / 10) + [DigitChar(n % 10)]
  }

  lemma {:induction false} NatToStringValue(n: nat)
    ensures DigitsValue(NatToString(n)) == n
  {
    var s := NatToString(n);
    if n < 10 {
      DigitRoundTrip(n);
    } else {
      NatToStringValue(n / 10);
      DigitRoundTrip(n % 10);
      assert s[..|s| - 1] == NatToString(n / 10);
    }
  }

  /** `f"{i:d}"`: a minus sign before the digits of a negative number. */
  function IntToString(i: int): (s: string)
    ensures s != []
  {
    if i < 0 then "-" + NatToString(-i) else NatToString(i)
  }

  /** Reads back what `IntToString` writes. */
  function ParseInt(s: string): Option<int> {
    if |s| > 1 && s[0] == '-' && AllDigits(s[1..]) then Some(-(DigitsValue(s[1..]) as int))
    else if s != [] && AllDigits(s) then Some(DigitsValue(s))
    else None
  }

  lemma ParseIntToString(i: int)
    ensures ParseInt(IntToString(i)) == Some(i)
  {
    if i < 0 {
      var d := NatToString(-i);
      var s := "-" + d;
      assert s[1..] == d;
      NatToStringValue(-i);
      assert ParseInt(s) == Some(-(DigitsValue(d) as int));
    } else {
      var s := NatToString(i);
      NatToStringValue(i);
      assert !(|s| > 1 && s[0] == '-');
    }
  }

  /** `f"{n:02d}"` for `n < 100`: two digits, with a leading zero below ten. */
  function Pad2(n: nat): (s: string)
    requires n < 100
    ensures |s| == 2 && AllDigits(s)
  {
    [DigitChar(n / 10), DigitChar(n % 10)]
  }

  lemma Pad2Value(n: nat)
    requires n < 100
    ensures DigitsValue(Pad2(n)) == n
  {
    var p := Pad2(n);
    DigitRoundTrip(n / 10);
    DigitRoundTrip(n % 10);
    assert p[..1] == [DigitChar(n / 10)];
    assert p[..1][..0] == [];
    assert DigitsValue(p[..1]) == n / 10;
    assert DigitsValue(p) == (n / 10) * 10 + n % 10;
  }

  datatype Clock = Clock(hours: int, minutes: nat, seconds: nat)

  /** `mins, secs = divmod(total, 60)` then `hours, mins = divmod(mins, 60)`. Python's `divmod`
      by a positive number floors, as Dafny's `/` and `%` do for a positive divisor. */
  function Divmod(total: int): (c: Clock)
    ensures c.minutes < 60 && c.seconds < 60
  {
    var mins, secs := total / 60, total % 60;
    Clock(mins / 60, mins % 60, secs)
  }

  /** The clock reading adds back up to the elapsed seconds. */
  lemma DivmodTotal(total: int)
    ensures var c := Divmod(total); c.hours * 3600 + c.minutes * 60 + c.seconds == total
  {
    var mins := total / 60;
    assert mins * 60 + total % 60 == total;
    assert (mins / 60) * 60 + mins % 60 == mins;
  }

  /** The `time_spent` string of `total` elapsed seconds. */
  function FormatElapsed(total: int): string {
    var c := Divmod(total);
    if c.hours != 0 then IntToString(c.hours) + ":" + Pad2(c.minutes) + ":" + Pad2(c.seconds)
    else Pad2(c.minutes) + ":" + Pad2(c.seconds)
  }

  /** `MM:SS`: two digits, a colon, two digits. */
  predicate IsMinSec(t: string) {
    |t| == 5 && AllDigits(t[..2]) && t[2] == ':' && AllDigits(t[3..])
  }

  /** Reads a `time_spent` string back into seconds. */
  function ParseElapsed(s: string): Option<int> {
    if |s| < 5 || !IsMinSec(s[|s| - 5..]) then None
    else
      var tail := s[|s| - 5..];
      var head := s[..|s| - 5];
      var minSec := DigitsValue(tail[..2]) * 60 + DigitsValue(tail[3..]);
      if head == [] then Some(minSec)
      else if head[|head| - 1] != ':' then None
      else match ParseInt(head[..|head| - 1])
        case None => None
        case Some(h) => Some(h * 3600 + minSec)
  }

  lemma MinSecParts(m: nat, s: nat)
    requires m < 60 && s < 60
    ensures var t := Pad2(m) + ":" + Pad2(s);
      IsMinSec(t) && t[..2] == Pad2(m) && t[3..] == Pad2(s)
  {
  }

  lemma CutLastFive(head: string, tail: string)
    requires |tail| == 5
    ensures (head + tail)[|head + tail| - 5..] == tail && (head + tail)[..|head + tail| - 5] == head
  {
  }

  lemma DropColon(h: string)
    ensures (h + ":")[|h + ":"| - 1] == ':' && (h + ":")[..|h + ":"| - 1] == h
  {
  }

  /** Reading the string back gives the elapsed seconds: the formatting loses nothing. */
  lemma ParseFormat(total: int)
    ensures ParseElapsed(FormatElapsed(total)) == Some(total)
  {
    var c := Divmod(total);
    var tail := Pad2(c.minutes) + ":" + Pad2(c.seconds);
    MinSecParts(c.minutes, c.seconds);
    Pad2Value(c.minutes);
    Pad2Value(c.seconds);
    DivmodTotal(total);
    if c.hours != 0 {
      var head := IntToString(c.hours) + ":";
      assert FormatElapsed(total) == head + tail;
      CutLastFive(head, tail);
      DropColon(IntToString(c.hours));
      ParseIntToString(c.hours);
    } else {
      CutLastFive([], tail);
      assert [] + tail == tail;
    }
  }

  /** Without hours the string is `MM:SS`; with hours it is the hours, a colon and `MM:SS`. In
      both, minutes and seconds are zero-padded to two digits. */
  lemma FormatShape(total: int)
    ensures var c := Divmod(total);
      var s := FormatElapsed(total);
      && |s| >= 5
      && IsMinSec(s[|s| - 5..])
      && s[|s| - 5..|s| - 3] == Pad2(c.minutes) && s[|s| - 2..] == Pad2(c.seconds)
      && (c.hours == 0 <==> |s| == 5)
      && (c.hours != 0 ==> s[..|s| - 5] == IntToString(c.hours) + ":")
  {
    var c := Divmod(total);
    var tail := Pad2(c.minutes) + ":" + Pad2(c.seconds);
    MinSecParts(c.minutes, c.seconds);
    if c.hours != 0 {
      CutLastFive(IntToString(c.hours) + ":", tail);
    } else {
      CutLastFive([], tail);
      assert [] + tail == tail;
    }
  }

  /** Under an hour, a non-negative time is `MM:SS` with the whole minutes and seconds. */
  lemma UnderAnHour(total: int)
    requires 0 <= total < 3600
    ensures var s := FormatElapsed(total);
      s == Pad2(total / 60) + ":" + Pad2(total % 60)
  {
  }
}
