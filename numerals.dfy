/**
 * Positional numerals as Python writes and reads them: `format(n, '0{w}b')` and
 * `format(n, '0{w}x')` (digits of `n`, zero-filled to at least `w` characters, never
 * truncated), `int(s, base)` on a string of digits, and `int(s)` / `str(n)` for decimal.
 */
module Numerals {
  import opened Opt

  function Pow(b: nat, k: nat): (r: nat)
    ensures b > 0 ==> r > 0
  {
    if k == 0 then 1 else b * Pow(b, k - 1)
  }

  /** The value of a digit character, '0'..'9' and lower-case 'a'..'f'; 16 marks a non-digit. */
  function DigitValue(c: char): (d: nat)
    ensures d <= 16
  {
    if '0' <= c <= '9' then c as nat - '0' as nat
    else if 'a' <= c <= 'f' then c as nat - 'a' as nat + 10
    else 16
  }

  /** The lower-case digit character for `d`, as Python's `b` and `x` formats print it. */
  function DigitChar(d: nat): (c: char)
    requires d < 16
    ensures DigitValue(c) == d
  {
    if d < 10 then ('0' as nat + d) as char else ('a' as nat + d - 10) as char
  }

  predicate IsNumeral(s: string, base: nat) {
    forall i :: 0 <= i < |s| ==> DigitValue(s[i]) < base
  }

  /** `int(s, base)` for a string of digits of that base, most significant first (0 for ""). */
  function Value(s: string, base: nat): nat
    requires IsNumeral(s, base)
  {
    if s == [] then 0 else Value(s[..|s| - 1], base) * base + DigitValue(s[|s| - 1])
  }

  /** The digits of `n` in `base`, most significant first, with no leading zero ("0" for zero). */
  function Digits(n: nat, base: nat): (r: string)
    requires 2 <= base <= 16
    ensures |r| > 0 && IsNumeral(r, base)
    ensures |r| > 1 ==> r[0] != '0'
    decreases n
  {
    if n < base then [DigitChar(n)]
    else
      DivLess(n, base);
      var high := Digits(n / base, base);
      assert |high| == 1 ==> high[0] != '0' by {
        if |high| == 1 { assert DigitValue(high[0]) == n / base; }
      }
      high + [DigitChar(n % base)]
  }

  lemma DivLess(n: nat, base: nat)
    requires 2 <= base && n >= 1
    ensures n / base < n
  {
    assert base * (n / base) <= n;
    assert 2 * (n / base) <= base * (n / base);
  }

  lemma DivMod(n: nat, base: nat, q: nat, r: nat)
    requires 2 <= base && q == n / base && r == n % base
    ensures q * base + r == n
  {
  }

  function Zeros(k: nat): (r: string)
    ensures |r| == k && IsNumeral(r, 2)
  {
    seq(k, _ => '0')
  }

  /** Zero-fill on the left to at least `w` characters, as Python's `0{w}` format width does. */
  function ZeroFill(s: string, w: nat): (r: string)
    ensures |r| == if |s| >= w then |s| else w
  {
    if |s| >= w then s else Zeros(w - |s|) + s
  }

  /** `format(n, '0{w}b')` for base 2 and `format(n, '0{w}x')` for base 16, for `n >= 0`. */
  function FormatNat(n: nat, base: nat, w: nat): string
    requires 2 <= base <= 16
  {
    ZeroFill(Digits(n, base), w)
  }

  /** `format(n, '0{w}b')` for any integer: a negative one gets a '-' sign inside the width. */
  function FormatBinary(n: int, w: nat): string {
    if n >= 0 then FormatNat(n, 2, w) else "-" + FormatNat(-n, 2, if w > 0 then w - 1 else 0)
  }

  lemma ValueSnoc(s: string, c: char, base: nat)
    requires IsNumeral(s, base) && DigitValue(c) < base
    ensures IsNumeral(s + [c], base)
    ensures Value(s + [c], base) == Value(s, base) * base + DigitValue(c)
  {
    assert (s + [c])[..|s|] == s;
  }

  /** Reading back the digits of `n` gives `n`. */
  lemma {:induction false} ValueOfDigits(n: nat, base: nat)
    requires 2 <= base <= 16
    ensures Value(Digits(n, base), base) == n
    decreases n
  {
    if n >= base {
      var q, r := n / base, n % base;
      var high := Digits(q, base);
      assert Digits(n, base) == high + [DigitChar(r)];
      DivLess(n, base);
      ValueOfDigits(q, base);
      ValueSnoc(high, DigitChar(r), base);
      DivMod(n, base, q, r);
    } else {
      assert Digits(n, base)[..0] == [];
    }
  }

  /** `int(a + b, base) == int(a, base) * base^len(b) + int(b, base)`. */
  lemma {:induction false} ValueAppend(a: string, b: string, base: nat)
    requires IsNumeral(a, base) && IsNumeral(b, base)
    ensures IsNumeral(a + b, base)
    ensures Value(a + b, base) == Value(a, base) * Pow(base, |b|) + Value(b, base)
    decreases |b|
  {
    if b == [] {
      assert a + b == a;
    } else {
      var b', c := b[..|b| - 1], b[|b| - 1];
      assert b == b' + [c];
      assert a + b == (a + b') + [c];
      ValueAppend(a, b', base);
      ValueSnoc(a + b', c, base);
      ValueSnoc(b', c, base);
      var va, vb, p, d := Value(a, base), Value(b', base), Pow(base, |b'|), DigitValue(c);
      var vab' := Value(a + b', base);
      assert Value(a + b, base) == vab' * base + d;
      assert Value(b, base) == vb * base + d;
      assert Pow(base, |b|) == base * p;
      Regroup(vab', va, p, vb, base, d);
    }
  }

  lemma Regroup(x: nat, va: nat, p: nat, vb: nat, base: nat, d: nat)
    requires x == va * p + vb
    ensures x * base + d == va * (base * p) + (vb * base + d)
  {
    calc {
      x * base + d;
      (va * p + vb) * base + d;
      va * p * base + vb * base + d;
      va * (base * p) + (vb * base + d);
    }
  }

  lemma {:induction false} ValueBound(s: string, base: nat)
    requires IsNumeral(s, base) && base >= 1
    ensures Value(s, base) < Pow(base, |s|)
    decreases |s|
  {
    if s != [] {
      var s' := s[..|s| - 1];
      ValueBound(s', base);
      var v, p, d := Value(s', base), Pow(base, |s'|), DigitValue(s[|s| - 1]);
      assert Value(s, base) == v * base + d;
      assert Pow(base, |s|) == base * p;
      BoundStep(v, p, d, base);
    }
  }

  lemma BoundStep(v: nat, p: nat, d: nat, base: nat)
    requires v < p && d < base
    ensures v * base + d < base * p
  {
    calc {
      v * base + d;
    < v * base + base;
      (v + 1) * base;
    <= { assert v + 1 <= p; }
      p * base;
    }
  }

  lemma {:induction false} PowMonotone(base: nat, i: nat, j: nat)
    requires base >= 1 && i <= j
    ensures Pow(base, i) <= Pow(base, j)
    decreases j
  {
    if i < j {
      PowMonotone(base, i, j - 1);
      assert Pow(base, j) == base * Pow(base, j - 1);
    }
  }

  /** `n` needs at most `w` digits exactly when `n < base^w`. */
  lemma {:induction false} DigitsLength(n: nat, base: nat, w: nat)
    requires 2 <= base <= 16 && w >= 1
    ensures |Digits(n, base)| <= w <==> n < Pow(base, w)
    decreases n
  {
    var d := Digits(n, base);
    if |d| <= w {
      ValueOfDigits(n, base);
      ValueBound(d, base);
      PowMonotone(base, |d|, w);
    } else {
      // n >= base, and its leading digit group n / base already needs w - 1 digits
      assert n >= base;
      if w == 1 {
        assert Pow(base, 1) == base;
      } else {
        var q := n / base;
        DivLess(n, base);
        DigitsLength(q, base, w - 1);
        assert d == Digits(q, base) + [DigitChar(n % base)];
        assert q >= Pow(base, w - 1);
        assert Pow(base, w) == base * Pow(base, w - 1);
        QuotientBound(n, base, q, Pow(base, w - 1));
      }
    }
  }

  lemma QuotientBound(n: nat, base: nat, q: nat, p: nat)
    requires 2 <= base && q == n / base && q >= p
    ensures n >= base * p
  {
    assert n >= base * q;
    assert base * q >= base * p;
  }

  /**
   * What Python's zero-filled format gives: a numeral whose value is `n`, at least `w`
   * characters long, and exactly `w` long if and only if `n < base^w` (otherwise the field
   * overflows and is printed in full).
   */
  lemma FormatNatValue(n: nat, base: nat, w: nat)
    requires 2 <= base <= 16 && w >= 1
    ensures IsNumeral(FormatNat(n, base, w), base)
    ensures Value(FormatNat(n, base, w), base) == n
    ensures |FormatNat(n, base, w)| >= w
    ensures |FormatNat(n, base, w)| == w <==> n < Pow(base, w)
  {
    var d := Digits(n, base);
    ValueOfDigits(n, base);
    DigitsLength(n, base, w);
    if |d| < w {
      var z := Zeros(w - |d|);
      assert IsNumeral(z, base);
      ValueAppend(z, d, base);
      ZerosValue(w - |d|, base);
    }
  }

  lemma {:induction false} ZerosValue(k: nat, base: nat)
    requires base >= 2
    ensures IsNumeral(Zeros(k), base) && Value(Zeros(k), base) == 0
  {
    if k > 0 {
      assert Zeros(k)[..k - 1] == Zeros(k - 1);
      ZerosValue(k - 1, base);
    }
  }

  predicate IsDecimal(s: string) {
    |s| > 0 && IsNumeral(s, 10)
  }

  /**
   * `int(s)` on an optionally '-'-signed string of ASCII decimal digits; `None` for every
   * other string (where Python raises ValueError, and for the forms this model leaves out).
   */
  function ParseInt(s: string): Option<int> {
    if |s| > 0 && s[0] == '-' then
      if IsDecimal(s[1..]) then Some(0 - Value(s[1..], 10)) else None
    else if IsDecimal(s) then Some(Value(s, 10))
    else None
  }

  /** `str(n)`. */
  function ShowInt(n: int): string {
    if n < 0 then "-" + Digits(-n, 10) else Digits(n, 10)
  }

  /** `int(str(n)) == n`. */
  lemma ParseShowInt(n: int)
    ensures ParseInt(ShowInt(n)) == Some(n)
  {
    var m: nat := if n < 0 then -n else n;
    var d := Digits(m, 10);
    assert IsDecimal(d);
    assert Value(d, 10) == m by {
      ValueOfDigits(m, 10);
    }
    if n < 0 {
      assert ShowInt(n) == "-" + d;
      assert ("-" + d)[1..] == d;
    } else {
      assert ShowInt(n) == d;
      assert DigitValue(d[0]) < 10;
    }
  }
}
