/** Decimal rendering of integers as the core writes them into file and
    folder names: `str(n)`, `s.zfill(width)`, `f"{n:04d}"`, and `int(s)` on
    an all-digit string; plus Python's ordering of strings. */
module Decimal {

  predicate IsDigit(c: char)
  {
    '0' <= c <= '9'
  }

  predicate AllDigits(s: string)
  {
    forall i :: 0 <= i < |s| ==> IsDigit(s[i])
  }

  function DigitChar(d: nat): (c: char)
    requires d < 10
    ensures IsDigit(c)
  {
    ('0' as int + d) as char
  }

  function DigitValue(c: char): (d: nat)
    requires IsDigit(c)
    ensures d < 10 && DigitChar(d) == c
  {
    c as int - '0' as int
  }

  /** `str(n)` for a natural number: no leading zeros, at least one digit. */
  function NatToString(n: nat): (s: string)
    ensures |s| >= 1 && AllDigits(s)
    ensures |s| > 1 ==> s[0] != '0'
  {
    if n < 10 then [DigitChar(n)] else NatToString(n / 10) + [DigitChar(n % 10)]
  }

  /** `str(i)` for any integer. */
  function IntToString(i: int): (s: string)
    ensures |s| >= 1
    ensures i >= 0 ==> s == NatToString(i)
    ensures i < 0 ==> s[0] == '-' && s[1..] == NatToString(-i)
  {
    if i < 0 then "-" + NatToString(-i) else NatToString(i)
  }

  /** `str(i)` is made of digits and at most a leading minus sign. */
  lemma IntToStringChars(i: int, c: char)
    requires c in IntToString(i)
    ensures IsDigit(c) || c == '-'
  {
    var s := IntToString(i);
    var k :| 0 <= k < |s| && s[k] == c;
    if i < 0 && k > 0 {
      assert s[1..][k - 1] == c;
    }
  }

  /** Distinct integers print differently. */
  lemma IntToStringInjective(i: int, j: int)
    requires IntToString(i) == IntToString(j)
    ensures i == j
  {
    if i >= 0 && j >= 0 {
      ParseNatToString(i);
      ParseNatToString(j);
    } else if i < 0 && j < 0 {
      ParseNatToString(-i);
      ParseNatToString(-j);
    } else {
      assert false;
    }
  }

  /** `int(s)` for a string of decimal digits (leading zeros allowed). */
  function ParseDigits(s: string): nat
    requires AllDigits(s)
  {
    if s == [] then 0 else ParseDigits(s[..|s| - 1]) * 10 + DigitValue(s[|s| - 1])
  }

  /** `int(str(n)) == n`. */
  lemma {:induction false} ParseNatToString(n: nat)
    ensures ParseDigits(NatToString(n)) == n
  {
    if n >= 10 {
      var s := NatToString(n);
      assert s[..|s| - 1] == NatToString(n / 10);
      ParseNatToString(n / 10);
    }
  }

  function Zeros(k: nat): (z: string)
    ensures |z| == k && AllDigits(z)
    ensures forall i :: 0 <= i < k ==> z[i] == '0'
  {
    seq(k, i => '0')
  }

  /** Python's `s.zfill(width)`: pad with zeros on the left to `width`
      characters, after a leading sign if there is one. */
  function ZFill(s: string, width: int): (z: string)
    ensures |z| == (if |s| >= width then |s| else width)
    ensures |s| >= width ==> z == s
    ensures |s| < width && !(|s| > 0 && (s[0] == '+' || s[0] == '-')) ==> z[width - |s|..] == s
  {
    if |s| >= width then s
    else if |s| > 0 && (s[0] == '+' || s[0] == '-') then [s[0]] + Zeros(width - |s|) + s[1..]
    else Zeros(width - |s|) + s
  }

  /** Leading zeros do not change the value that `int()` reads. */
  lemma {:induction false} ParseLeadingZeros(k: nat, s: string)
    requires AllDigits(s)
    ensures ParseDigits(Zeros(k) + s) == ParseDigits(s)
  {
    if s == [] {
      ZerosParse(k);
      assert Zeros(k) + s == Zeros(k);
    } else {
      var t := Zeros(k) + s;
      assert t[..|t| - 1] == Zeros(k) + s[..|s| - 1];
      ParseLeadingZeros(k, s[..|s| - 1]);
    }
  }

  lemma {:induction false} ZerosParse(k: nat)
    ensures ParseDigits(Zeros(k)) == 0
  {
    if k > 0 {
      assert Zeros(k)[..k - 1] == Zeros(k - 1);
      ZerosParse(k - 1);
    }
  }

  /** A zero-padded number reads back as the number: `int(str(n).zfill(w)) == n`,
      and the padded text is all digits, so `str.isdigit` accepts it. */
  lemma ParseZFill(n: nat, width: int)
    ensures AllDigits(ZFill(NatToString(n), width))
    ensures ParseDigits(ZFill(NatToString(n), width)) == n
  {
    var s := NatToString(n);
    ParseNatToString(n);
    if |s| < width {
      ParseLeadingZeros(width - |s|, s);
    }
  }

  function Pow10(w: nat): (p: nat)
    ensures p >= 1
  {
    if w == 0 then 1 else 10 * Pow10(w - 1)
  }

  /** The last `w` decimal digits of `n`, most significant first. */
  function FixedDigits(n: nat, w: nat): (s: string)
    ensures |s| == w && AllDigits(s)
  {
    if w == 0 then [] else FixedDigits(n / 10, w - 1) + [DigitChar(n % 10)]
  }

  lemma {:induction false} ParseFixedDigits(n: nat, w: nat)
    requires n < Pow10(w)
    ensures ParseDigits(FixedDigits(n, w)) == n
  {
    if w > 0 {
      DivBound(n, w);
      ParseFixedDigits(n / 10, w - 1);
      var s := FixedDigits(n, w);
      assert s[..|s| - 1] == FixedDigits(n / 10, w - 1);
    }
  }

  lemma DivBound(n: nat, w: nat)
    requires w > 0 && n < Pow10(w)
    ensures n / 10 < Pow10(w - 1)
  {
  }

  lemma {:induction false} NatToStringIsFixed(n: nat)
    ensures n < Pow10(|NatToString(n)|)
    ensures NatToString(n) == FixedDigits(n, |NatToString(n)|)
  {
    if n >= 10 {
      NatToStringIsFixed(n / 10);
      var k := |NatToString(n / 10)|;
      assert n / 10 < Pow10(k);
      assert n / 10 + 1 <= Pow10(k);
      assert n < 10 * (n / 10 + 1);
    }
  }

  lemma {:induction false} FixedDigitsZero(k: nat)
    ensures FixedDigits(0, k) == Zeros(k)
  {
    if k > 0 {
      FixedDigitsZero(k - 1);
    }
  }

  lemma {:induction false} FixedDigitsPad(n: nat, d: nat, k: nat)
    requires n < Pow10(d)
    ensures FixedDigits(n, d + k) == Zeros(k) + FixedDigits(n, d)
  {
    if d == 0 {
      FixedDigitsZero(k);
    } else {
      DivBound(n, d);
      FixedDigitsPad(n / 10, d - 1, k);
      assert d + k - 1 == (d - 1) + k;
    }
  }

  /** A number of at most `width` digits, zero-filled to `width`, is its
      fixed-width decimal representation. */
  lemma PadIsFixed(n: nat, width: nat)
    requires |NatToString(n)| <= width
    ensures ZFill(NatToString(n), width) == FixedDigits(n, width)
  {
    var s := NatToString(n);
    NatToStringIsFixed(n);
    FixedDigitsPad(n, |s|, width - |s|);
    assert |s| + (width - |s|) == width;
  }

  /** Python's `<` on strings: code-point-wise, a proper prefix first. */
  predicate LexLess(a: string, b: string)
  {
    if |a| == 0 then |b| > 0
    else |b| > 0 && (a[0] < b[0] || (a[0] == b[0] && LexLess(a[1..], b[1..])))
  }

  lemma {:induction false} LexLessAppend(a: string, b: string, x: char, y: char)
    requires |a| == |b|
    ensures LexLess(a + [x], b + [y]) <==> LexLess(a, b) || (a == b && x < y)
  {
    if |a| > 0 {
      assert (a + [x])[1..] == a[1..] + [x];
      assert (b + [y])[1..] == b[1..] + [y];
      LexLessAppend(a[1..], b[1..], x, y);
      if a[0] == b[0] && a[1..] == b[1..] {
        assert a == [a[0]] + a[1..] && b == [b[0]] + b[1..];
      }
    }
  }

  lemma {:induction false} LexLessCommonPrefix(p: string, a: string, b: string)
    ensures LexLess(p + a, p + b) <==> LexLess(a, b)
  {
    if p != [] {
      assert (p + a)[1..] == p[1..] + a;
      assert (p + b)[1..] == p[1..] + b;
      LexLessCommonPrefix(p[1..], a, b);
    } else {
      assert p + a == a && p + b == b;
    }
  }

  lemma {:induction false} LexLessCommonSuffix(a: string, b: string, q: string)
    requires |a| == |b|
    ensures LexLess(a + q, b + q) <==> LexLess(a, b)
  {
    if |a| > 0 {
      assert (a + q)[1..] == a[1..] + q;
      assert (b + q)[1..] == b[1..] + q;
      LexLessCommonSuffix(a[1..], b[1..], q);
    } else {
      assert a + q == q && b + q == q;
      LexLessIrreflexive(q);
    }
  }

  lemma {:induction false} LexLessIrreflexive(a: string)
    ensures !LexLess(a, a)
  {
    if a != [] {
      LexLessIrreflexive(a[1..]);
    }
  }

  lemma DivModOrder(n: nat, m: nat)
    ensures n < m <==> n / 10 < m / 10 || (n / 10 == m / 10 && n % 10 < m % 10)
  {
  }

  /** Fixed-width decimal strings compare like the numbers they denote. */
  lemma {:induction false} FixedDigitsOrder(n: nat, m: nat, w: nat)
    requires n < Pow10(w) && m < Pow10(w)
    ensures LexLess(FixedDigits(n, w), FixedDigits(m, w)) <==> n < m
  {
    if w == 0 {
      LexLessIrreflexive([]);
    } else {
      DivBound(n, w);
      DivBound(m, w);
      FixedDigitsOrder(n / 10, m / 10, w - 1);
      LexLessAppend(FixedDigits(n / 10, w - 1), FixedDigits(m / 10, w - 1), DigitChar(n % 10), DigitChar(m % 10));
      ParseFixedDigits(n / 10, w - 1);
      ParseFixedDigits(m / 10, w - 1);
      DivModOrder(n, m);
    }
  }

  /** More digits only for larger numbers. */
  lemma {:induction false} DigitCountMonotone(a: nat, b: nat)
    requires a <= b
    ensures |NatToString(a)| <= |NatToString(b)|
  {
    if a >= 10 {
      DigitCountMonotone(a / 10, b / 10);
    }
  }

  /** Two numbers zero-filled to a common width that holds both compare as
      strings exactly as they compare as numbers. */
  lemma ZFillOrder(n: nat, m: nat, width: nat)
    requires |NatToString(n)| <= width && |NatToString(m)| <= width
    ensures LexLess(ZFill(NatToString(n), width), ZFill(NatToString(m), width)) <==> n < m
  {
    PadIsFixed(n, width);
    PadIsFixed(m, width);
    NatToStringIsFixed(n);
    NatToStringIsFixed(m);
    PowMonotone(|NatToString(n)|, width);
    PowMonotone(|NatToString(m)|, width);
    FixedDigitsOrder(n, m, width);
  }

  lemma {:induction false} PowMonotone(a: nat, b: nat)
    requires a <= b
    ensures Pow10(a) <= Pow10(b)
  {
    if a < b {
      PowMonotone(a, b - 1);
    }
  }
}
