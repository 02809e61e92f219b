/**
 Python's `str(n)` and `int(s)` for integers written in base ten. The driver
 renders command arguments with `str` and reads status replies with `int`.
 */
module Decimal {
  import opened Wrappers
  import opened Strings

  predicate IsDigit(c: char) {
    '0' <= c <= '9'
  }

  predicate AllDigits(s: string) {
    forall i :: 0 <= i < |s| ==> IsDigit(s[i])
  }

  function DigitValue(c: char): (d: nat)
    requires IsDigit(c)
    ensures d < 10
  {
    (c as int) - ('0' as int)
  }

  function DigitChar(d: nat): (c: char)
    requires d < 10
    ensures IsDigit(c) && DigitValue(c) == d
  {
    (('0' as int) + d) as char
  }

  /** `str(n)` for a natural number: its decimal digits, without a leading zero. */
  function NatToString(n: nat): (s: string)
    ensures |s| > 0 && AllDigits(s)
    ensures |s| > 1 ==> s[0] != '0'
  {
    if n < 10 then [DigitChar(n)]
    else NatToString(n / 10) + [DigitChar(n % 10)]
  }

  /** `str(n)`: a minus sign for a negative number, then the digits of its magnitude. */
  function IntToString(n: int): (s: string)
    ensures |s| > 0
    ensures forall c :: c in s ==> IsDigit(c) || c == '-'
    ensures s[0] == '-' <==> n < 0
  {
    if n < 0 then "-" + NatToString(-n) else NatToString(n)
  }

  /** The number a string of digits denotes (0 for the empty string). */
  function DigitsValue(s: string): nat
    requires AllDigits(s)
  {
    if |s| == 0 then 0 else DigitsValue(s[..|s| - 1]) * 10 + DigitValue(s[|s| - 1])
  }

  /** Digits, possibly grouped by single underscores between them, as Python
      number literals allow: `1_000` but not `_1`, `1_` or `1__0`. */
  predicate DigitPart(s: string) {
    && |s| > 0 && IsDigit(s[0]) && IsDigit(s[|s| - 1])
    && (forall i :: 0 <= i < |s| ==> IsDigit(s[i]) || s[i] == '_')
    && !Contains(s, "__")
  }

  /** A digit part with its underscores dropped. */
  function Digits(s: string): (d: string)
    requires DigitPart(s)
    ensures |d| > 0 && AllDigits(d)
  {
    var d := RemoveAll(s, "_");
    assert forall i :: 0 <= i < |d| ==> d[i] in d;
    d
  }

  /** The text after one leading sign, if there is one. */
  function Unsigned(t: string): (u: string)
    ensures |u| <= |t|
    ensures |u| == |t| <==> |t| == 0 || (t[0] != '-' && t[0] != '+')
  {
    if |t| > 0 && (t[0] == '-' || t[0] == '+') then t[1..] else t
  }

  /** The texts `int` accepts: optional whitespace around an optional sign and a
      digit part. */
  predicate IsIntLiteral(s: string) {
    DigitPart(Unsigned(Strip(s)))
  }

  /** The value of a stripped literal: its digits, negated after a minus sign. */
  function SignedValue(t: string): (v: int)
    requires DigitPart(Unsigned(t))
    ensures v < 0 ==> t[0] == '-'
  {
    var magnitude: int := DigitsValue(Digits(Unsigned(t)));
    if t[0] == '-' then -magnitude else magnitude
  }

  /** `int(s)`, or None where `int` raises ValueError. */
  function ParseInt(s: string): (r: Option<int>)
    ensures r.Some? <==> IsIntLiteral(s)
  {
    if IsIntLiteral(s) then Some(SignedValue(Strip(s))) else None
  }

  lemma {:induction false} NatToStringRoundTrip(n: nat)
    ensures DigitsValue(NatToString(n)) == n
    decreases n
  {
    if n >= 10 {
      var s := NatToString(n);
      NatToStringRoundTrip(n / 10);
      assert s[..|s| - 1] == NatToString(n / 10);
    }
  }

  /** A plain run of digits is a digit part without underscores. */
  lemma PlainDigits(d: string)
    requires |d| > 0 && AllDigits(d)
    ensures DigitPart(d) && Digits(d) == d
  {
    RemoveAllAbsent(d, "_");
    Absent(d, "__");
  }

  /** `int` reads a plain run of digits. */
  lemma ParseUnsignedDigits(d: string)
    requires |d| > 0 && AllDigits(d)
    ensures ParseInt(d) == Some(DigitsValue(d))
  {
    PlainLiteral(d);
    PlainDigits(d);
  }

  /** A plain run of digits is already stripped and unsigned. */
  lemma PlainLiteral(d: string)
    requires |d| > 0 && AllDigits(d)
    ensures Strip(d) == d && Unsigned(d) == d
  {
    StripWithoutSpace(d);
    assert IsDigit(d[0]);
  }

  /** A minus sign and digits need no stripping, and lose the sign when unsigned. */
  lemma NegativeText(d: string)
    requires AllDigits(d)
    ensures Strip("-" + d) == "-" + d
    ensures Unsigned("-" + d) == d
  {
    var s := "-" + d;
    forall i | 0 <= i < |s|
      ensures !IsSpace(s[i])
    {
      if i > 0 {
        assert s[i] == d[i - 1];
      }
    }
    StripWithoutSpace(s);
    assert s[1..] == d;
  }

  /** The value of a minus sign followed by digits. */
  lemma NegativeValue(d: string)
    requires |d| > 0 && AllDigits(d)
    ensures DigitPart(Unsigned("-" + d))
    ensures SignedValue("-" + d) == -(DigitsValue(d) as int)
  {
    NegativeText(d);
    PlainDigits(d);
  }

  /** `int` reads a minus sign followed by a plain run of digits. */
  lemma ParseNegativeDigits(d: string)
    requires |d| > 0 && AllDigits(d)
    ensures ParseInt("-" + d) == Some(-(DigitsValue(d) as int))
  {
    NegativeText(d);
    NegativeValue(d);
  }

  lemma NegativeRoundTrip(n: int)
    requires n < 0
    ensures ParseInt(IntToString(n)) == Some(n)
  {
    var m: nat := -n;
    var d := NatToString(m);
    NatToStringRoundTrip(m);
    assert IntToString(n) == "-" + d;
    ParseNegativeDigits(d);
  }

  lemma NaturalRoundTrip(n: int)
    requires n >= 0
    ensures ParseInt(IntToString(n)) == Some(n)
  {
    ParseUnsignedDigits(NatToString(n));
    NatToStringRoundTrip(n);
  }

  /** Reading back what `str` wrote gives the number again. */
  lemma IntToStringRoundTrip(n: int)
    ensures ParseInt(IntToString(n)) == Some(n)
  {
    if n < 0 {
      NegativeRoundTrip(n);
    } else {
      NaturalRoundTrip(n);
    }
  }

  /** Different numbers are written differently. */
  lemma IntToStringInjective(m: int, n: int)
    requires IntToString(m) == IntToString(n)
    ensures m == n
  {
    IntToStringRoundTrip(m);
    IntToStringRoundTrip(n);
  }
}
