/**
 * The handful of Python `str` operations the scripts rely on, over `seq<char>`:
 * `in` (substring test), `lower`, `strip`, `split`, `join`, slicing `s[:n]`,
 * `isdigit`, `isspace` and the ordering `<` that `sorted` uses on strings.
 */
module Strings {
  import opened Wrappers

  /** `c.isdigit()` for the ASCII digits. */
  predicate IsDigit(c: char) {
    '0' <= c <= '9'
  }

  /** `c.isspace()` for the ASCII white-space characters. */
  predicate IsSpace(c: char) {
    var n := c as int;
    n == 32 || 9 <= n <= 13 || 28 <= n <= 31
  }

  predicate AllSpace(s: string) {
    forall i :: 0 <= i < |s| ==> IsSpace(s[i])
  }

  function LowerChar(c: char): (r: char)
    ensures 'A' <= c <= 'Z' ==> 'a' <= r <= 'z'
    ensures !('A' <= c <= 'Z') ==> r == c
  {
    if 'A' <= c <= 'Z' then (c as int + 32) as char else c
  }

  /** `s.lower()` (ASCII letters only). */
  function Lower(s: string): (r: string)
    ensures |r| == |s|
    ensures forall i :: 0 <= i < |s| ==> r[i] == LowerChar(s[i])
  {
    if s == [] then [] else [LowerChar(s[0])] + Lower(s[1..])
  }

  /** `sub in s`: some slice of `s` equals `sub`. */
  predicate Contains(s: string, sub: string)
    decreases |s|
  {
    |sub| <= |s| && (s[..|sub|] == sub || Contains(s[1..], sub))
  }

  /** `sub` occurs in `s` starting at index `i`. */
  predicate OccursAt(s: string, sub: string, i: int) {
    0 <= i && i + |sub| <= |s| && s[i..i + |sub|] == sub
  }

  lemma {:induction false} ContainsIff(s: string, sub: string)
    ensures Contains(s, sub) <==> exists i :: OccursAt(s, sub, i)
    decreases |s|
  {
    if |sub| <= |s| && s[..|sub|] != sub {
      ContainsIff(s[1..], sub);
      if Contains(s, sub) {
        var i :| OccursAt(s[1..], sub, i);
        assert s[1..][i..i + |sub|] == s[i + 1..i + 1 + |sub|];
        assert OccursAt(s, sub, i + 1);
      }
      if exists i :: OccursAt(s, sub, i) {
        var i :| OccursAt(s, sub, i);
        assert i != 0;
        assert s[1..][i - 1..i - 1 + |sub|] == s[i..i + |sub|];
        assert OccursAt(s[1..], sub, i - 1);
      }
    } else if |sub| <= |s| {
      assert OccursAt(s, sub, 0);
    }
  }

  /** A string lacking one of the characters of `sub` does not contain `sub`. */
  lemma {:induction false} MissingChar(s: string, sub: string, c: char)
    requires c in sub && c !in s
    ensures !Contains(s, sub)
    decreases |s|
  {
    if |sub| <= |s| {
      assert c !in s[..|sub|];
      MissingChar(s[1..], sub, c);
    }
  }

  /** `s.startswith(p)`. */
  predicate StartsWith(s: string, p: string) {
    |p| <= |s| && s[..|p|] == p
  }

  /** The slice `s[:n]`, which stops at the end of a short string. */
  function Head(s: string, n: nat): (r: string)
    ensures |r| == if |s| <= n then |s| else n
    ensures StartsWith(s, r)
  {
    if |s| <= n then s else s[..n]
  }

  lemma HeadIsStartsWith(s: string, p: string)
    ensures Head(s, |p|) == p <==> StartsWith(s, p)
  {
  }

  function StripLeft(s: string): (r: string)
    ensures |r| <= |s| && r == s[|s| - |r|..]
    ensures AllSpace(s[..|s| - |r|])
    ensures r == [] || !IsSpace(r[0])
    decreases |s|
  {
    if s != [] && IsSpace(s[0]) then StripLeft(s[1..]) else s
  }

  function StripRight(s: string): (r: string)
    ensures |r| <= |s| && r == s[..|r|]
    ensures AllSpace(s[|r|..])
    ensures r == [] || !IsSpace(r[|r| - 1])
    decreases |s|
  {
    if s != [] && IsSpace(s[|s| - 1]) then
      var init := s[..|s| - 1];
      var r := StripRight(init);
      assert s[|r|..] == init[|r|..] + [s[|s| - 1]];
      r
    else s
  }

  /** `s` is `i` white-space characters, then `r`, then white space. */
  predicate SpaceAround(s: string, r: string, i: int) {
    0 <= i <= |s| - |r| && s[i..i + |r|] == r && AllSpace(s[..i]) && AllSpace(s[i + |r|..])
  }

  /** `s.strip()`: `s` is white space, then the result, then white space. */
  function Strip(s: string): (r: string)
    ensures r == [] || (!IsSpace(r[0]) && !IsSpace(r[|r| - 1]))
    ensures exists i :: SpaceAround(s, r, i)
  {
    var left := StripLeft(s);
    var r := StripRight(left);
    StripParts(s, left, r);
    r
  }

  /** The white space `strip` removes lies before and after the result. */
  lemma StripParts(s: string, left: string, r: string)
    requires |left| <= |s| && left == s[|s| - |left|..] && AllSpace(s[..|s| - |left|])
    requires |r| <= |left| && r == left[..|r|] && AllSpace(left[|r|..])
    ensures SpaceAround(s, r, |s| - |left|)
  {
    var i := |s| - |left|;
    assert s[i..i + |r|] == r;
    assert s[i + |r|..] == left[|r|..];
  }

  /** `strip` leaves alone a string that neither starts nor ends with white space. */
  lemma StripUnchanged(s: string)
    requires s == [] || (!IsSpace(s[0]) && !IsSpace(s[|s| - 1]))
    ensures Strip(s) == s
  {
  }

  /** Trailing white space does not survive `strip`. */
  lemma StripTrailingSpace(s: string, c: char)
    requires IsSpace(c) && s != [] && !IsSpace(s[0])
    ensures Strip(s + [c]) == Strip(s)
  {
    assert (s + [c])[..|s|] == s;
  }

  lemma OccursShift(s: string, sub: string, j: int)
    requires 1 <= j && s != []
    ensures OccursAt(s, sub, j) <==> OccursAt(s[1..], sub, j - 1)
  {
    var t := s[1..];
    assert |t| == |s| - 1;
    if j + |sub| <= |s| {
      assert t[j - 1..j - 1 + |sub|] == s[j..j + |sub|];
    }
  }

  /** Index of the leftmost occurrence of `sep` in `s`, as `str.find` finds it. */
  function Find(s: string, sep: string): (r: Option<nat>)
    ensures r.Some? ==> OccursAt(s, sep, r.value)
    ensures r.Some? ==> forall j :: 0 <= j < r.value ==> !OccursAt(s, sep, j)
    ensures r.None? ==> forall j :: !OccursAt(s, sep, j)
    decreases |s|
  {
    if |s| < |sep| then None
    else if s[..|sep|] == sep then Some(0)
    else
      match Find(s[1..], sep)
      case None =>
        assert forall j :: !OccursAt(s, sep, j) by {
          forall j | 1 <= j ensures !OccursAt(s, sep, j) {
            OccursShift(s, sep, j);
          }
        }
        None
      case Some(i) =>
        assert forall j :: 0 <= j < i + 1 ==> !OccursAt(s, sep, j) by {
          forall j | 1 <= j < i + 1 ensures !OccursAt(s, sep, j) {
            OccursShift(s, sep, j);
          }
        }
        OccursShift(s, sep, i + 1);
        Some(i + 1)
  }

  /** `s.split(sep)` for a non-empty separator. */
  function SplitOn(s: string, sep: string): (parts: seq<string>)
    requires |sep| > 0
    ensures |parts| >= 1
    decreases |s|
  {
    match Find(s, sep)
    case None => [s]
    case Some(i) => [s[..i]] + SplitOn(s[i + |sep|..], sep)
  }

  /** `sep.join(parts)`. */
  function Join(parts: seq<string>, sep: string): string
  {
    if |parts| == 0 then ""
    else if |parts| == 1 then parts[0]
    else parts[0] + sep + Join(parts[1..], sep)
  }

  /** Splitting and joining on the same separator gives back the string. */
  lemma {:induction false} JoinSplit(s: string, sep: string)
    requires |sep| > 0
    ensures Join(SplitOn(s, sep), sep) == s
    decreases |s|
  {
    match Find(s, sep)
    case None =>
    case Some(i) =>
      var rest := s[i + |sep|..];
      var parts := SplitOn(rest, sep);
      JoinSplit(rest, sep);
      assert SplitOn(s, sep) == [s[..i]] + parts;
      assert ([s[..i]] + parts)[1..] == parts;
      assert Join([s[..i]] + parts, sep) == s[..i] + sep + Join(parts, sep);
      assert s[i..i + |sep|] == sep;
      assert s == s[..i] + s[i..i + |sep|] + rest;
  }

  /** The first part of a split is the text before the first separator. */
  lemma SplitFirst(s: string, sep: string)
    requires |sep| > 0
    ensures SplitOn(s, sep)[0] == match Find(s, sep) case None => s case Some(i) => s[..i]
  {
  }

  /** Number of occurrences of the character `c` in `s`. */
  function Count(s: string, c: char): nat
  {
    if s == [] then 0 else (if s[0] == c then 1 else 0) + Count(s[1..], c)
  }

  lemma {:induction false} CountAppend(a: string, b: string, c: char)
    ensures Count(a + b, c) == Count(a, c) + Count(b, c)
    decreases |a|
  {
    if a != [] {
      assert (a + b)[0] == a[0];
      assert (a + b)[1..] == a[1..] + b;
      CountAppend(a[1..], b, c);
    } else {
      assert a + b == b;
    }
  }

  lemma {:induction false} CountZero(s: string, c: char)
    requires forall j :: 0 <= j < |s| ==> s[j] != c
    ensures Count(s, c) == 0
    decreases |s|
  {
    if s != [] {
      CountZero(s[1..], c);
    }
  }

  /** Splitting on one character gives one more part than there are occurrences. */
  lemma {:induction false} SplitCount(s: string, c: char)
    ensures |SplitOn(s, [c])| == Count(s, c) + 1
    decreases |s|
  {
    match Find(s, [c])
    case None =>
      forall j | 0 <= j < |s| ensures s[j] != c {
        assert !OccursAt(s, [c], j);
      }
      CountZero(s, c);
    case Some(i) =>
      var rest := s[i + 1..];
      SplitCount(rest, c);
      forall j | 0 <= j < i ensures s[..i][j] != c {
        assert !OccursAt(s, [c], j);
      }
      CountZero(s[..i], c);
      assert s == s[..i] + ([s[i]] + rest);
      CountAppend(s[..i], [s[i]] + rest, c);
      CountAppend([s[i]], rest, c);
  }

  /** With exactly one occurrence of `c`, the split is the text on either side of it. */
  lemma SplitAtSingle(s: string, c: char)
    requires Count(s, c) == 1
    ensures |SplitOn(s, [c])| == 2
    ensures s == SplitOn(s, [c])[0] + [c] + SplitOn(s, [c])[1]
  {
    SplitCount(s, c);
    JoinSplit(s, [c]);
    var parts := SplitOn(s, [c]);
    assert Join(parts[1..], [c]) == parts[1];
  }

  /** Splitting at the only occurrence of `c` gives the text on either side. */
  lemma SplitOnAround(a: string, c: char, b: string)
    requires forall j :: 0 <= j < |a| ==> a[j] != c
    requires forall j :: 0 <= j < |b| ==> b[j] != c
    ensures SplitOn(a + [c] + b, [c]) == [a, b]
  {
    var s := a + [c] + b;
    assert OccursAt(s, [c], |a|);
    forall j | 0 <= j < |a| ensures !OccursAt(s, [c], j) {
      assert s[j..j + 1][0] == a[j];
    }
    assert Find(s, [c]) == Some(|a|);
    forall j | 0 <= j < |b| ensures !OccursAt(b, [c], j) {
      assert b[j..j + 1][0] == b[j];
    }
    assert s[..|a|] == a && s[|a| + 1..] == b;
  }

  /** Text joined at the first `c` comes apart again there: the part before it holds no `c`. */
  lemma JoinedAtFirst(a: string, x: string, b: string, y: string, c: char)
    requires forall j :: 0 <= j < |a| ==> a[j] != c
    requires forall j :: 0 <= j < |b| ==> b[j] != c
    requires a + ([c] + x) == b + ([c] + y)
    ensures a == b && x == y
  {
    var s := a + ([c] + x);
    assert s[|a|] == c && s[|b|] == c;
    assert a == s[..|a|] && b == s[..|b|];
    assert x == s[|a| + 1..] && y == s[|b| + 1..];
  }

  /**
   * Splitting `a + sep + b` on `sep` gives `[a, b]` when some character of `sep`
   * occurs nowhere else in `sep` and in neither `a` nor `b`.
   */
  lemma SplitOnSeparator(a: string, sep: string, b: string, k: nat)
    requires k < |sep| && forall j :: 0 <= j < |sep| && j != k ==> sep[j] != sep[k]
    requires forall j :: 0 <= j < |a| ==> a[j] != sep[k]
    requires forall j :: 0 <= j < |b| ==> b[j] != sep[k]
    ensures SplitOn(a + sep + b, sep) == [a, b]
  {
    var s := a + sep + b;
    assert s[|a|..|a| + |sep|] == sep;
    assert OccursAt(s, sep, |a|);
    forall j | 0 <= j < |a| ensures !OccursAt(s, sep, j) {
      if j + |sep| <= |s| {
        assert s[j..j + |sep|][k] == s[j + k];
        if j + k < |a| {
          assert s[j + k] == a[j + k];
        } else {
          assert s[j + k] == sep[j + k - |a|];
        }
      }
    }
    assert Find(s, sep) == Some(|a|);
    forall j ensures !OccursAt(b, sep, j) {
      if 0 <= j && j + |sep| <= |b| {
        assert b[j..j + |sep|][k] == b[j + k];
      }
    }
    assert s[..|a|] == a && s[|a| + |sep|..] == b;
  }

  /** Python's `a < b` on strings: lexicographic by code point. */
  predicate LexLess(a: string, b: string)
    decreases |a|
  {
    if a == [] then b != []
    else if b == [] then false
    else a[0] < b[0] || (a[0] == b[0] && LexLess(a[1..], b[1..]))
  }

  lemma {:induction false} LexLessIrreflexive(a: string)
    ensures !LexLess(a, a)
    decreases |a|
  {
    if a != [] {
      LexLessIrreflexive(a[1..]);
    }
  }

  lemma {:induction false} LexLessTransitive(a: string, b: string, c: string)
    requires LexLess(a, b) && LexLess(b, c)
    ensures LexLess(a, c)
    decreases |a|
  {
    if a != [] && b != [] && c != [] && a[0] == b[0] == c[0] {
      LexLessTransitive(a[1..], b[1..], c[1..]);
    }
  }

  lemma {:induction false} LexLessTotal(a: string, b: string)
    requires a != b
    ensures LexLess(a, b) || LexLess(b, a)
    decreases |a|
  {
    if a != [] && b != [] && a[0] == b[0] {
      assert a == [a[0]] + a[1..] && b == [b[0]] + b[1..];
      LexLessTotal(a[1..], b[1..]);
    }
  }

  lemma {:induction false} LexLessAsymmetric(a: string, b: string)
    requires LexLess(a, b)
    ensures !LexLess(b, a)
    decreases |a|
  {
    if a != [] && b != [] && a[0] == b[0] {
      LexLessAsymmetric(a[1..], b[1..]);
    }
  }

  /** Strings with a common prefix compare as their remainders do. */
  lemma {:induction false} LexLessCommonPrefix(p: string, a: string, b: string)
    ensures LexLess(p + a, p + b) <==> LexLess(a, b)
    decreases |p|
  {
    if p != [] {
      assert (p + a)[0] == p[0] && (p + b)[0] == p[0];
      assert (p + a)[1..] == p[1..] + a;
      assert (p + b)[1..] == p[1..] + b;
      LexLessCommonPrefix(p[1..], a, b);
    } else {
      assert p + a == a && p + b == b;
    }
  }
}
