/**
 * The handful of JavaScript string operations the screens rely on, written out:
 * `Number.prototype.toString()` on non-negative integers, `padStart(2, '0')`,
 * `String.prototype.trim()`, and a reader for the `"<lead>:<dd>"` clock strings
 * the timer prints (the reader is the partner the formatters are proved against).
 */
module Text {
  import opened Wrappers

  predicate IsDigit(c: char) {
    '0' <= c <= '9'
  }

  predicate AllDigits(s: string) {
    forall k :: 0 <= k < |s| ==> IsDigit(s[k])
  }

  function DigitValue(c: char): (d: nat)
    requires IsDigit(c)
    ensures d < 10
  {
    c as int - '0' as int
  }

  function DigitChar(d: nat): (c: char)
    requires d < 10
    ensures IsDigit(c) && DigitValue(c) == d
  {
    ('0' as int + d) as char
  }

  /**
   * Decimal rendering of a non-negative integer, as `n.toString()` gives it: no
   * leading zero, so it starts with '0' only for 0 itself.
   */
  function NatToString(n: nat): (s: string)
    ensures 1 <= |s| && AllDigits(s)
    ensures n < 10 <==> |s| == 1
    ensures s[0] == '0' <==> n == 0
  {
    if n < 10 then [DigitChar(n)] else NatToString(n / 10) + [DigitChar(n % 10)]
  }

  /** The value of a string of decimal digits (the empty string reads as 0). */
  function DigitsValue(s: string): nat
    requires AllDigits(s)
  {
    if s == [] then 0 else DigitsValue(s[..|s| - 1]) * 10 + DigitValue(s[|s| - 1])
  }

  /** Reading the decimal rendering back gives the number. */
  lemma {:induction false} DigitsValueOfNatToString(n: nat)
    ensures DigitsValue(NatToString(n)) == n
  {
    if n >= 10 {
      var s := NatToString(n);
      assert s[..|s| - 1] == NatToString(n / 10);
      DigitsValueOfNatToString(n / 10);
    }
  }

  /** A digit string with no leading zero (a lone "0" allowed): the shape `toString()` gives. */
  predicate Unpadded(s: string) {
    1 <= |s| && AllDigits(s) && (|s| > 1 ==> s[0] != '0')
  }

  /** Every unpadded digit string is the rendering of its own value. */
  lemma {:induction false} NatToStringOfDigits(s: string)
    requires Unpadded(s)
    ensures NatToString(DigitsValue(s)) == s
  {
    var d := DigitValue(s[|s| - 1]);
    assert DigitChar(d) == s[|s| - 1];
    var p := s[..|s| - 1];
    if |s| == 1 {
      assert p == [];
      assert DigitsValue(s) == d;
    } else {
      assert p[0] == s[0];
      NatToStringOfDigits(p);
      var v := DigitsValue(p);
      assert NatToString(v)[0] != '0';
      var n := v * 10 + d;
      assert n / 10 == v && n % 10 == d;
      assert NatToString(n) == p + [s[|s| - 1]];
    }
  }

  /** Distinct numbers render as distinct strings. */
  lemma NatToStringInjective(m: nat, n: nat)
    ensures NatToString(m) == NatToString(n) ==> m == n
  {
    DigitsValueOfNatToString(m);
    DigitsValueOfNatToString(n);
  }

  /** `s.padStart(2, '0')`: left-pads with zeros up to two characters. */
  function PadStart2(s: string): (r: string)
    ensures |s| >= 2 ==> r == s
    ensures |s| < 2 ==> |r| == 2 && r[2 - |s|..] == s
    ensures forall k :: 0 <= k < |r| - |s| ==> r[k] == '0'
    decreases 2 - |s|
  {
    if |s| >= 2 then s else PadStart2(['0'] + s)
  }

  /** A number below 100 written with exactly two digits, as the clocks show seconds and minutes. */
  function TwoDigits(n: nat): (r: string)
    requires n < 100
    ensures |r| == 2 && AllDigits(r) && DigitsValue(r) == n
  {
    var s := NatToString(n);
    DigitsValueOfNatToString(n);
    if n < 10 then
      assert PadStart2(s) == ['0'] + s;
      assert PadStart2(s)[..1] == ['0'];
      PadStart2(s)
    else
      assert n / 10 < 10;
      assert |NatToString(n / 10)| == 1;
      PadStart2(s)
  }

  lemma TwoDigitsValue(s: string)
    requires |s| == 2 && AllDigits(s)
    ensures DigitsValue(s) == DigitValue(s[0]) * 10 + DigitValue(s[1]) < 100
  {
    var p := s[..1];
    assert p[..0] == [] && p[0] == s[0];
    assert DigitsValue(p) == DigitValue(s[0]);
    assert s[..|s| - 1] == p;
  }

  /**
   * Reads a clock string `"<lead>:<dd>"`: one or more digits, a colon and exactly two
   * digits. Gives the two numbers, or None for any other shape.
   */
  function ReadClock(t: string): (r: Option<(nat, nat)>)
    ensures r.Some? ==> r.value.1 < 100
  {
    if |t| >= 4 && t[|t| - 3] == ':' && AllDigits(t[..|t| - 3]) && AllDigits(t[|t| - 2..]) then
      var tail := t[|t| - 2..];
      TwoDigitsValue(tail);
      Some((DigitsValue(t[..|t| - 3]), DigitsValue(tail)))
    else
      None
  }

  /** Reading splits a clock string exactly at the colon it was joined with. */
  lemma ReadClockOfParts(a: string, b: string)
    requires 1 <= |a| && AllDigits(a) && |b| == 2 && AllDigits(b)
    ensures ReadClock(a + ":" + b) == Some((DigitsValue(a), DigitsValue(b)))
  {
    var t := a + ":" + b;
    assert t[..|t| - 3] == a;
    assert t[|t| - 2..] == b;
    assert t[|t| - 3] == ':';
  }

  /** A clock printed from `lead` and a two-digit `tail` reads back as exactly those two numbers. */
  lemma ReadClockOfPrinted(lead: nat, tail: nat)
    requires tail < 100
    ensures ReadClock(NatToString(lead) + ":" + TwoDigits(tail)) == Some((lead, tail))
  {
    ReadClockOfParts(NatToString(lead), TwoDigits(tail));
    DigitsValueOfNatToString(lead);
  }

  /** The `<lead>` of a clock string carries no leading zero. */
  predicate LeadUnpadded(t: string) {
    |t| >= 4 && Unpadded(t[..|t| - 3])
  }

  /**
   * Two clock strings with unpadded leads that read back the same are the same
   * string: the reading plus the absence of leading zeros fixes the text.
   */
  lemma ClockTextDetermined(t: string, u: string)
    requires ReadClock(t).Some? && LeadUnpadded(t)
    requires ReadClock(u).Some? && LeadUnpadded(u)
    requires ReadClock(t) == ReadClock(u)
    ensures t == u
  {
    var a, b := t[..|t| - 3], u[..|u| - 3];
    NatToStringOfDigits(a);
    NatToStringOfDigits(b);
    assert a == b;
    var x, y := t[|t| - 2..], u[|u| - 2..];
    TwoDigitsValue(x);
    TwoDigitsValue(y);
    assert x[0] == y[0] && x[1] == y[1];
    assert x == y;
    assert t == a + ":" + x;
    assert u == b + ":" + y;
  }

  /** A clock printed from `lead` has an unpadded lead. */
  lemma PrintedLeadUnpadded(lead: nat, tail: string)
    requires |tail| == 2
    ensures LeadUnpadded(NatToString(lead) + ":" + tail)
  {
    var t := NatToString(lead) + ":" + tail;
    assert t[..|t| - 3] == NatToString(lead);
  }

  /** ECMAScript white space and line terminators: what `trim()` strips. */
  predicate IsSpace(c: char) {
    || c == '\t' || c == '\n' || c == '\U{000B}' || c == '\U{000C}' || c == '\r' || c == ' '
    || c == '\U{00A0}' || c == '\U{1680}' || ('\U{2000}' <= c <= '\U{200A}')
    || c == '\U{2028}' || c == '\U{2029}' || c == '\U{202F}' || c == '\U{205F}'
    || c == '\U{3000}' || c == '\U{FEFF}'
  }

  function TrimStart(s: string): (r: string)
    ensures |r| <= |s| && r == s[|s| - |r|..]
    ensures forall k :: 0 <= k < |s| - |r| ==> IsSpace(s[k])
    ensures r == [] || !IsSpace(r[0])
  {
    if s != [] && IsSpace(s[0]) then TrimStart(s[1..]) else s
  }

  function TrimEnd(s: string): (r: string)
    ensures |r| <= |s| && r == s[..|r|]
    ensures forall k :: |r| <= k < |s| ==> IsSpace(s[k])
    ensures r == [] || !IsSpace(r[|r| - 1])
  {
    if s != [] && IsSpace(s[|s| - 1]) then TrimEnd(s[..|s| - 1]) else s
  }

  /** `s[i..j]` is `s` with only white space cut from either end. */
  predicate OuterSpaces(s: string, i: int, j: int) {
    && 0 <= i <= j <= |s|
    && (forall k :: 0 <= k < i ==> IsSpace(s[k]))
    && (forall k :: j <= k < |s| ==> IsSpace(s[k]))
  }

  lemma SliceOfSuffix<T>(s: seq<T>, i: nat, n: nat)
    requires i + n <= |s|
    ensures s[i..][..n] == s[i..i + n]
  {
  }

  lemma TrimmedSlice(s: string, a: string, r: string)
    requires |a| <= |s| && a == s[|s| - |a|..] && forall k :: 0 <= k < |s| - |a| ==> IsSpace(s[k])
    requires |r| <= |a| && r == a[..|r|] && forall k :: |r| <= k < |a| ==> IsSpace(a[k])
    ensures OuterSpaces(s, |s| - |a|, |s| - |a| + |r|)
    ensures r == s[|s| - |a|..|s| - |a| + |r|]
  {
    var i := |s| - |a|;
    var j := i + |r|;
    SliceOfSuffix(s, i, |r|);
    forall k | j <= k < |s|
      ensures IsSpace(s[k])
    {
      assert s[k] == a[k - i];
    }
  }

  /**
   * `s.trim()`: drops white space at both ends. The result is empty exactly when the
   * whole string is white space, and otherwise neither starts nor ends with white space.
   */
  function Trim(s: string): (r: string)
    ensures |r| <= |s|
    ensures r == [] <==> forall k :: 0 <= k < |s| ==> IsSpace(s[k])
    ensures r != [] ==> !IsSpace(r[0]) && !IsSpace(r[|r| - 1])
    ensures exists i, j :: OuterSpaces(s, i, j) && r == s[i..j]
  {
    var a := TrimStart(s);
    var r := TrimEnd(a);
    TrimmedSlice(s, a, r);
    if r == [] then
      assert a == [];
      r
    else
      assert a != [] && r[0] == a[0];
      r
  }
}
