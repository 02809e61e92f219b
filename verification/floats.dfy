/**
 Which texts Python's `float` accepts. The value a text denotes is not modelled:
 the driver keeps position fields as numbers without further arithmetic, so only
 the ValueError `float` raises on any other text matters here.
 */
module Floats {
  import opened Strings
  import opened Decimal
  import opened Seqs

  function LowerChar(c: char): (l: char)
    ensures 'A' <= c <= 'Z' ==> 'a' <= l <= 'z'
    ensures !('A' <= c <= 'Z') ==> l == c
  {
    if 'A' <= c <= 'Z' then (c as int + 32) as char else c
  }

  /** `s.lower()` for ASCII text: the same length, letters folded. */
  function Lower(s: string): (l: string)
    ensures |l| == |s|
    ensures forall i :: 0 <= i < |s| ==> l[i] == LowerChar(s[i])
  {
    seq(|s|, i requires 0 <= i < |s| => LowerChar(s[i]))
  }

  /** Infinity and not-a-number, spelled in any case. */
  predicate IsSpecial(u: string) {
    var l := Lower(u);
    l == "inf" || l == "infinity" || l == "nan"
  }

  /** Digits with an optional decimal point: `1`, `1.`, `1.5` or `.5`. */
  predicate IsMantissa(m: string) {
    var p := Find(m, ".");
    if p == -1 then DigitPart(m)
    else
      && |m| > 1
      && (p == 0 || DigitPart(m[..p]))
      && (p == |m| - 1 || DigitPart(m[p + 1..]))
  }

  /** A mantissa, optionally followed by `e` or `E` and a signed digit part. */
  predicate IsNumeric(u: string) {
    var e := Find(Lower(u), "e");
    if e == -1 then IsMantissa(u)
    else IsMantissa(u[..e]) && DigitPart(Unsigned(u[e + 1..]))
  }

  /** The texts `float` accepts: optional whitespace around an optional sign and
      either a decimal number or one of the special values. */
  predicate IsFloatLiteral(s: string) {
    var u := Unsigned(Strip(s));
    IsSpecial(u) || IsNumeric(u)
  }

  /** `float` accepts every field. */
  predicate AllFloats(fields: seq<string>) {
    Every(IsFloatLiteral, fields)
  }

  lemma AllFloatsEach(fields: seq<string>)
    ensures AllFloats(fields) <==> forall i :: 0 <= i < |fields| ==> IsFloatLiteral(fields[i])
  {
    EveryEach(IsFloatLiteral, fields);
  }

  /** `float("")` raises: an empty field is never a number. */
  lemma EmptyIsNotFloat()
    ensures !IsFloatLiteral("")
  {
    assert Strip("") == "";
    assert Lower("") == "";
    FirstCharAbsent("", ".");
    FirstCharAbsent("", "e");
  }

  /** Text with no exponent mark has no `e` once lowered. */
  lemma NoExponentMark(s: string)
    requires forall i :: 0 <= i < |s| ==> s[i] != 'e' && s[i] != 'E'
    ensures Find(Lower(s), "e") == -1
  {
    forall j | 0 <= j < |s|
      ensures !OccursAt(Lower(s), "e", j)
    {
      assert Lower(s)[j] == LowerChar(s[j]);
    }
  }

  lemma PointMantissa(a: string, b: string)
    requires |a| > 0 && AllDigits(a) && |b| > 0 && AllDigits(b)
    ensures IsMantissa(a + "." + b)
  {
    var s := a + "." + b;
    FindFirstPoint(a, b);
    assert s[..|a|] == a && s[|a| + 1..] == b;
    PlainDigits(a);
    PlainDigits(b);
  }

  /** Digits with a point between them, as in `10.5`, are a float literal. */
  lemma PointNumberIsFloat(a: string, b: string)
    requires |a| > 0 && AllDigits(a) && |b| > 0 && AllDigits(b)
    ensures IsFloatLiteral(a + "." + b)
  {
    var s := a + "." + b;
    PointNumberChars(a, b);
    StripWithoutSpace(s);
    assert Unsigned(Strip(s)) == s;
    NoExponentMark(s);
    PointMantissa(a, b);
    assert IsNumeric(s);
  }

  lemma PointNumberChars(a: string, b: string)
    requires AllDigits(a) && AllDigits(b)
    ensures forall i :: 0 <= i < |a + "." + b| ==>
              var c := (a + "." + b)[i];
              !IsSpace(c) && c != 'e' && c != 'E' && c != '-' && c != '+'
  {
    var s := a + "." + b;
    forall i | 0 <= i < |s|
      ensures !IsSpace(s[i]) && s[i] != 'e' && s[i] != 'E' && s[i] != '-' && s[i] != '+'
    {
      if i < |a| {
        assert s[i] == a[i];
      } else if i > |a| {
        assert s[i] == b[i - |a| - 1];
      }
    }
  }

  /** The first point in `a + "." + b` is the one after the digits `a`. */
  lemma FindFirstPoint(a: string, b: string)
    requires AllDigits(a)
    ensures Find(a + "." + b, ".") == |a|
  {
    var s := a + "." + b;
    OccursBetween(a, ".", b);
    forall j | 0 <= j < |a|
      ensures !OccursAt(s, ".", j)
    {
      assert s[j] == a[j];
    }
  }
}
