/**
 * Decimal numerals: `str(n)`, the zero-padded `f"{n:02}"` / `%m`-style
 * renderings, and `int(s)` for a run of ASCII digits.
 */
module Decimal {
  import opened Strings

  function DigitChar(d: nat): (c: char)
    requires d < 10
    ensures IsDigit(c)
  {
    ('0' as int + d) as char
  }

  function DigitValue(c: char): (d: nat)
    requires IsDigit(c)
    ensures d < 10 && DigitChar(d) == c
  {
    c as int - '0' as int
  }

  predicate AllDigits(s: string) {
    forall i :: 0 <= i < |s| ==> IsDigit(s[i])
  }

  /** `int(s)` for a string of digits (the empty string reads as 0). */
  function Value(s: string): nat
    requires AllDigits(s)
    decreases |s|
  {
    if s == [] then 0 else Value(s[..|s| - 1]) * 10 + DigitValue(s[|s| - 1])
  }

  /** `str(n)`: the shortest decimal numeral, no leading zero. */
  function Show(n: nat): (s: string)
    ensures AllDigits(s) && |s| >= 1
    ensures |s| == 1 <==> n < 10
    ensures |s| > 1 ==> s[0] != '0'
    decreases n
  {
    if n < 10 then [DigitChar(n)] else Show(n / 10) + [DigitChar(n % 10)]
  }

  /** Reading back a numeral gives the number. */
  lemma {:induction false} ValueOfShow(n: nat)
    ensures Value(Show(n)) == n
    decreases n
  {
    if n >= 10 {
      ValueOfShow(n / 10);
      var s := Show(n);
      assert s[..|s| - 1] == Show(n / 10);
    }
  }

  lemma ShowInjective(a: nat, b: nat)
    requires Show(a) == Show(b)
    ensures a == b
  {
    ValueOfShow(a);
    ValueOfShow(b);
  }

  /** Only zero is written with a leading zero. */
  lemma ShowLeading(n: nat)
    requires n >= 1
    ensures Show(n)[0] != '0'
  {
    if n < 10 {
      assert Show(n) == [DigitChar(n)];
    }
  }

  /** Numerals below 100 have at most two digits, years 1000-9999 exactly four. */
  lemma ShowWidth(n: nat)
    ensures n < 100 ==> |Show(n)| <= 2
    ensures 10 <= n < 100 ==> |Show(n)| == 2
    ensures 1000 <= n < 10000 ==> |Show(n)| == 4
  {
    if n >= 10 {
      ShowWidth(n / 10);
      if n >= 1000 {
        ShowWidth(n / 100);
      }
    }
  }

  function Zeros(k: nat): (s: string)
    ensures |s| == k && AllDigits(s)
    ensures forall i :: 0 <= i < k ==> s[i] == '0'
  {
    if k == 0 then [] else ['0'] + Zeros(k - 1)
  }

  /** `f"{n:0{width}}"`: `str(n)` with leading zeros up to `width` characters. */
  function Pad(n: nat, width: nat): (s: string)
    ensures AllDigits(s)
    ensures |s| == if |Show(n)| < width then width else |Show(n)|
  {
    var digits := Show(n);
    (if |digits| < width then Zeros(width - |digits|) else []) + digits
  }

  lemma {:induction false} ValueOfZeros(k: nat)
    ensures Value(Zeros(k)) == 0
    decreases k
  {
    if k > 0 {
      var z := Zeros(k);
      assert z[..k - 1] == Zeros(k - 1);
      ValueOfZeros(k - 1);
    }
  }

  /** Leading zeros do not change the value of a numeral. */
  lemma {:induction false} ValueLeadingZeros(k: nat, t: string)
    requires AllDigits(t)
    ensures AllDigits(Zeros(k) + t) && Value(Zeros(k) + t) == Value(t)
    decreases |t|
  {
    var z := Zeros(k);
    if t == [] {
      assert z + t == z;
      ValueOfZeros(k);
    } else {
      var u := z + t;
      assert u[..|u| - 1] == z + t[..|t| - 1];
      assert u[|u| - 1] == t[|t| - 1];
      ValueLeadingZeros(k, t[..|t| - 1]);
    }
  }

  /** A padded numeral reads back as the number. */
  lemma ValueOfPad(n: nat, width: nat)
    ensures Value(Pad(n, width)) == n
  {
    var digits := Show(n);
    ValueOfShow(n);
    if |digits| < width {
      ValueLeadingZeros(width - |digits|, digits);
    } else {
      assert Pad(n, width) == digits;
    }
  }

  /** The two characters of a two-digit padded numeral. */
  lemma PadTwo(n: nat)
    requires n < 100
    ensures Pad(n, 2) == [DigitChar(n / 10), DigitChar(n % 10)]
  {
    ShowWidth(n);
  }

  /** Number of leading ASCII digits of `s`. */
  function LeadingDigits(s: string): (n: nat)
    ensures n <= |s| && AllDigits(s[..n])
    ensures n == |s| || !IsDigit(s[n])
    decreases |s|
  {
    if s != [] && IsDigit(s[0]) then
      var k := LeadingDigits(s[1..]);
      assert s[..k + 1] == [s[0]] + s[1..][..k];
      k + 1
    else 0
  }

  /** A digit string followed by a non-digit is exactly the leading run. */
  lemma {:induction false} LeadingDigitsOf(t: string, rest: string)
    requires AllDigits(t)
    requires rest == [] || !IsDigit(rest[0])
    ensures LeadingDigits(t + rest) == |t|
    decreases |t|
  {
    if t != [] {
      assert (t + rest)[1..] == t[1..] + rest;
      LeadingDigitsOf(t[1..], rest);
    } else {
      assert t + rest == rest;
    }
  }
}
