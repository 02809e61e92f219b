/**
 The few Python `str` operations the driver relies on, with Python's semantics:
 `find`, `in`, `replace(pat, "")`, `split(sep)`, `sep.join(...)` and slicing with
 negative bounds. Strings are sequences of characters.
 */
module Strings {

  const Nul: char := '\0'

  /** `sub` occurs in `s` starting at index `j`. */
  predicate OccursAt(s: string, sub: string, j: int) {
    0 <= j && j + |sub| <= |s| && s[j..j + |sub|] == sub
  }

  lemma OccursAtTail(s: string, sub: string, j: int)
    requires |s| > 0 && 0 <= j
    ensures OccursAt(s[1..], sub, j) <==> OccursAt(s, sub, j + 1)
  {
    if j + |sub| <= |s| - 1 {
      assert s[1..][j..j + |sub|] == s[j + 1..j + 1 + |sub|];
    }
  }

  /** Python's `s.find(sub)`: the first index at which `sub` occurs, or -1. */
  function Find(s: string, sub: string): (r: int)
    ensures -1 <= r <= |s|
    ensures r >= 0 ==> OccursAt(s, sub, r)
    ensures r >= 0 ==> forall j :: 0 <= j < r ==> !OccursAt(s, sub, j)
    ensures r == -1 <==> forall j :: !OccursAt(s, sub, j)
    decreases |s|
  {
    if sub <= s then
      assert OccursAt(s, sub, 0);
      0
    else if |s| == 0 then
      assert forall j :: !OccursAt(s, sub, j);
      -1
    else
      var k := Find(s[1..], sub);
      assert forall j | 1 <= j :: OccursAt(s, sub, j) <==> OccursAt(s[1..], sub, j - 1) by {
        forall j | 1 <= j ensures OccursAt(s, sub, j) <==> OccursAt(s[1..], sub, j - 1) {
          OccursAtTail(s, sub, j - 1);
        }
      }
      assert !OccursAt(s, sub, 0);
      if k == -1 then -1 else k + 1
  }

  /** An occurrence with none before it is the one `find` reports. */
  lemma FindFirst(s: string, sub: string, k: int)
    requires OccursAt(s, sub, k)
    requires forall j :: 0 <= j < k ==> !OccursAt(s, sub, j)
    ensures Find(s, sub) == k
  {
  }

  /** Text appended after an occurrence does not move the first one. */
  lemma {:induction false} FindAppend(a: string, b: string, sub: string)
    requires Find(a, sub) >= 0
    ensures Find(a + b, sub) == Find(a, sub)
    decreases |a|
  {
    if sub <= a {
      assert sub <= a + b;
    } else {
      assert |a| > 0 && Find(a[1..], sub) >= 0;
      FindAppend(a[1..], b, sub);
      assert (a + b)[1..] == a[1..] + b;
      assert !(sub <= a + b) by {
        assert OccursAt(a[1..], sub, Find(a[1..], sub));
      }
    }
  }

  /** Python's `sub in s`, that is `s.find(sub) != -1`. */
  predicate Contains(s: string, sub: string) {
    Find(s, sub) != -1
  }

  /** A text occurs in any string built around it. */
  lemma OccursBetween(a: string, t: string, b: string)
    ensures OccursAt(a + t + b, t, |a|)
    ensures Contains(a + t + b, t)
  {
    assert (a + t + b)[|a|..|a| + |t|] == t;
    assert OccursAt(a + t + b, t, |a|);
  }

  /** A text whose first character never appears in `s` does not occur in `s`. */
  lemma FirstCharAbsent(s: string, t: string)
    requires |t| > 0 && t[0] !in s
    ensures forall j :: !OccursAt(s, t, j)
    ensures Find(s, t) == -1
  {
    forall j | 0 <= j && j + |t| <= |s|
      ensures !OccursAt(s, t, j)
    {
      assert s[j] in s;
      assert s[j..j + |t|][0] == s[j];
    }
  }

  /** A text longer than `s` does not occur in `s`. */
  lemma TooLong(s: string, t: string)
    requires |t| > |s|
    ensures Find(s, t) == -1
  {
  }

  /** A text that is too long, or whose first character is missing, does not occur. */
  lemma Absent(s: string, t: string)
    requires |t| > |s| || (|t| > 0 && t[0] !in s)
    ensures !Contains(s, t)
  {
    if |t| <= |s| {
      FirstCharAbsent(s, t);
    }
  }

  /** A text with a character that never appears in `s` does not occur in `s`. */
  lemma CharAbsent(s: string, t: string, m: nat)
    requires m < |t| && t[m] !in s
    ensures !Contains(s, t)
  {
    forall j | 0 <= j && j + |t| <= |s|
      ensures !OccursAt(s, t, j)
    {
      assert s[j + m] in s;
      assert s[j..j + |t|][m] == s[j + m];
    }
  }

  /** An occurrence of `t` in `p + q` lies inside `p` when the last character
      of `t` never appears in `q`. */
  lemma OccursInPrefix(p: string, q: string, t: string)
    requires |t| > 0 && t[|t| - 1] !in q
    requires Contains(p + q, t)
    ensures Contains(p, t)
  {
    var s := p + q;
    var j := Find(s, t);
    if j + |t| > |p| {
      assert false;
    }
    assert p[j..j + |t|] == s[j..j + |t|];
    assert OccursAt(p, t, j);
  }

  /** A character that does not start an occurrence of itself is another one. */
  lemma NotAtChar(s: string, c: char, j: nat)
    requires j < |s| && !OccursAt(s, [c], j)
    ensures s[j] != c
  {
    assert s[j..j + 1] == [s[j]];
  }

  /** Number of occurrences of the character `c` in `s`. */
  function Count(s: string, c: char): (n: nat)
    ensures n <= |s|
    ensures n == 0 <==> c !in s
  {
    if |s| == 0 then 0 else (if s[0] == c then 1 else 0) + Count(s[1..], c)
  }

  /** Python's `s.replace(pat, "")`: every occurrence of `pat`, found left to right
      without overlap, is deleted. An empty pattern leaves `s` as it is. */
  function RemoveAll(s: string, pat: string): (r: string)
    ensures |r| <= |s|
    ensures forall c :: c in r ==> c in s
    ensures |pat| == 1 ==> pat[0] !in r
    decreases |s|
  {
    if |pat| == 0 || |s| == 0 then s
    else if pat <= s then RemoveAll(s[|pat|..], pat)
    else [s[0]] + RemoveAll(s[1..], pat)
  }

  /** Python's `s.split(sep)` for a one-character separator: the pieces between
      consecutive separators, always at least one. */
  function Split(s: string, sep: char): (parts: seq<string>)
    ensures |parts| == Count(s, sep) + 1
    ensures forall i :: 0 <= i < |parts| ==> sep !in parts[i]
    decreases |s|
  {
    if |s| == 0 then [""]
    else
      var rest := Split(s[1..], sep);
      if s[0] == sep then [""] + rest
      else [[s[0]] + rest[0]] + rest[1..]
  }

  /** Python's `sep.join(parts)`. */
  function Join(parts: seq<string>, sep: char): string
    decreases |parts|
  {
    if |parts| == 0 then ""
    else if |parts| == 1 then parts[0]
    else parts[0] + [sep] + Join(parts[1..], sep)
  }

  /** The characters Python strips as whitespace, among those an ASCII decode
      can produce. */
  predicate IsSpace(c: char) {
    c == ' ' || (9 <= c as int <= 13) || (28 <= c as int <= 31)
  }

  /** `s.lstrip()`. */
  function TrimStart(s: string): (r: string)
    ensures |r| <= |s| && r == s[|s| - |r|..]
    ensures |r| > 0 ==> !IsSpace(r[0])
    ensures forall i :: 0 <= i < |s| - |r| ==> IsSpace(s[i])
    decreases |s|
  {
    if |s| > 0 && IsSpace(s[0]) then TrimStart(s[1..]) else s
  }

  /** `s.rstrip()`. */
  function TrimEnd(s: string): (r: string)
    ensures |r| <= |s| && r == s[..|r|]
    ensures |r| > 0 ==> !IsSpace(r[|r| - 1])
    ensures forall i :: |r| <= i < |s| ==> IsSpace(s[i])
    decreases |s|
  {
    if |s| > 0 && IsSpace(s[|s| - 1]) then TrimEnd(s[..|s| - 1]) else s
  }

  /** `s.strip()`, which `int` and `float` apply to their argument first. */
  function Strip(s: string): (r: string)
    ensures |r| <= |s|
    ensures |r| > 0 ==> !IsSpace(r[0]) && !IsSpace(r[|r| - 1])
  {
    TrimEnd(TrimStart(s))
  }

  /** Text without whitespace is its own stripped form. */
  lemma StripWithoutSpace(s: string)
    requires forall i :: 0 <= i < |s| ==> !IsSpace(s[i])
    ensures Strip(s) == s
  {
    assert TrimStart(s) == s;
  }

  /** Python's normalisation of a slice bound `i` for a string of length `n`:
      a negative bound counts from the end, and both kinds are clamped to `0..n`. */
  function SliceBound(i: int, n: nat): (k: nat)
    ensures k <= n
    ensures 0 <= i <= n ==> k == i
    ensures 0 <= n + i && i < 0 ==> k == n + i
    ensures n + i < 0 ==> k == 0
    ensures n < i ==> k == n
  {
    if i < 0 then (if i + n < 0 then 0 else i + n)
    else if i > n then n
    else i
  }

  /** Python's `s[i:]`. */
  function SliceFrom(s: string, i: int): (r: string)
    ensures |r| <= |s|
    ensures r == s[|s| - |r|..]
    ensures |r| == |s| - SliceBound(i, |s|)
  {
    s[SliceBound(i, |s|)..]
  }

  /** Python's `s[:i]`. */
  function SliceTo(s: string, i: int): (r: string)
    ensures |r| <= |s|
    ensures r == s[..|r|]
    ensures |r| == SliceBound(i, |s|)
  {
    s[..SliceBound(i, |s|)]
  }

  lemma {:induction false} SplitWithoutSeparator(a: string, sep: char)
    requires sep !in a
    ensures Split(a, sep) == [a]
    decreases |a|
  {
    if |a| > 0 {
      SplitWithoutSeparator(a[1..], sep);
      assert [a[0]] + a[1..] == a;
    }
  }

  /** Splitting at a separator preceded by separator-free text yields that text first. */
  lemma {:induction false} SplitAfterPiece(a: string, sep: char, b: string)
    requires sep !in a
    ensures Split(a + [sep] + b, sep) == [a] + Split(b, sep)
    decreases |a|
  {
    var s := a + [sep] + b;
    if |a| == 0 {
      assert s[1..] == b;
    } else {
      assert s[1..] == a[1..] + [sep] + b;
      SplitAfterPiece(a[1..], sep, b);
      assert [a[0]] + a[1..] == a;
    }
  }

  /** `(xs + [""])` joined, followed by `y`, is `(xs + [y])` joined. */
  lemma {:induction false} JoinLastPiece(xs: seq<string>, y: string, sep: char)
    ensures Join(xs + [""], sep) + y == Join(xs + [y], sep)
    decreases |xs|
  {
    if |xs| > 0 {
      JoinLastPiece(xs[1..], y, sep);
      assert (xs + [""])[1..] == xs[1..] + [""];
      assert (xs + [y])[1..] == xs[1..] + [y];
    }
  }

  /** `s.split(sep)` undoes `sep.join(parts)` when no part contains the separator. */
  lemma {:induction false} SplitJoin(parts: seq<string>, sep: char)
    requires |parts| > 0
    requires forall i :: 0 <= i < |parts| ==> sep !in parts[i]
    ensures Split(Join(parts, sep), sep) == parts
    decreases |parts|
  {
    if |parts| == 1 {
      SplitWithoutSeparator(parts[0], sep);
    } else {
      SplitJoin(parts[1..], sep);
      SplitAfterPiece(parts[0], sep, Join(parts[1..], sep));
      assert [parts[0]] + parts[1..] == parts;
    }
  }

  /** `sep.join(s.split(sep))` gives back `s`. */
  lemma {:induction false} JoinSplit(s: string, sep: char)
    ensures Join(Split(s, sep), sep) == s
    decreases |s|
  {
    if |s| > 0 {
      JoinSplit(s[1..], sep);
      var rest := Split(s[1..], sep);
      if s[0] == sep {
        assert Split(s, sep)[1..] == rest;
      } else {
        var parts := Split(s, sep);
        if |rest| == 1 {
          assert parts == [[s[0]] + rest[0]];
        } else {
          assert parts[1..] == rest[1..];
          assert Join(rest, sep) == rest[0] + [sep] + Join(rest[1..], sep);
        }
      }
    }
  }

  /** Deleting a pattern whose first character never appears changes nothing. */
  lemma {:induction false} RemoveAllAbsent(s: string, pat: string)
    requires |pat| > 0 && pat[0] !in s
    ensures RemoveAll(s, pat) == s
    decreases |s|
  {
    if |s| > 0 {
      assert !(pat <= s) by { assert s[0] != pat[0]; }
      assert s[0] in s;
      assert forall c :: c in s[1..] ==> c in s;
      RemoveAllAbsent(s[1..], pat);
      assert [s[0]] + s[1..] == s;
    }
  }

  /** A leading occurrence of the pattern is the first thing deleted. */
  lemma RemoveAllLeading(pat: string, rest: string)
    requires |pat| > 0
    ensures RemoveAll(pat + rest, pat) == RemoveAll(rest, pat)
  {
    assert pat <= pat + rest;
    assert (pat + rest)[|pat|..] == rest;
  }

  /** Deleting a single character distributes over concatenation. */
  lemma {:induction false} RemoveCharAppend(a: string, b: string, pat: string)
    requires |pat| == 1
    ensures RemoveAll(a + b, pat) == RemoveAll(a, pat) + RemoveAll(b, pat)
    decreases |a|
  {
    if |a| > 0 {
      var s := a + b;
      assert s[1..] == a[1..] + b;
      RemoveCharAppend(a[1..], b, pat);
      assert pat <= s <==> pat <= a;
    } else {
      assert a + b == b;
    }
  }
}
