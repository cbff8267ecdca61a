/** Digit characters, their values and the positional value of a digit
    string: what `from_str_radix` reads and what a fixed-width rendering
    writes. Shared by the binary, hexadecimal and decimal formats. */
module Digits {

  /** An unsigned 8-bit value, the element type of every parser's output. */
  type Byte = b: int | 0 <= b < 256

  function Pow(base: nat, e: nat): (r: nat)
    ensures base >= 1 ==> r >= 1
  {
    if e == 0 then 1 else base * Pow(base, e - 1)
  }

  lemma {:induction false} PowMonotone(base: nat, e1: nat, e2: nat)
    requires base >= 1 && e1 <= e2
    ensures Pow(base, e1) <= Pow(base, e2)
  {
    if e1 < e2 {
      PowMonotone(base, e1, e2 - 1);
      var p := Pow(base, e2 - 1);
      MulMonotone(p, 1, base);
      assert Pow(base, e2) == base * p;
    }
  }

  predicate IsBit(c: char) { c == '0' || c == '1' }

  predicate IsDecDigit(c: char) { '0' <= c <= '9' }

  predicate IsHexDigit(c: char) { IsDecDigit(c) || 'a' <= c <= 'f' || 'A' <= c <= 'F' }

  /** The value `char::to_digit` gives a hexadecimal digit; letters of
      either case count from 10. */
  function DigitValue(c: char): (d: nat)
    requires IsHexDigit(c)
    ensures d < 16
    ensures d < 10 <==> IsDecDigit(c)
    ensures d < 2 <==> IsBit(c)
  {
    if IsDecDigit(c) then c as int - '0' as int
    else if 'a' <= c <= 'f' then c as int - 'a' as int + 10
    else c as int - 'A' as int + 10
  }

  /** Every character of s is a digit of the given base. */
  predicate AllDigits(s: string, base: nat) {
    forall i :: 0 <= i < |s| ==> IsHexDigit(s[i]) && DigitValue(s[i]) < base
  }

  /** The number a digit string denotes in the given base, most significant
      digit first: the value `from_str_radix` computes before its width check. */
  function ValueOf(s: string, base: nat): nat
    requires AllDigits(s, base)
    decreases |s|
  {
    if |s| == 0 then 0
    else base * ValueOf(s[..|s| - 1], base) + DigitValue(s[|s| - 1])
  }

  /** a * x <= a * y whenever x <= y, for naturals. */
  lemma MulMonotone(a: nat, x: nat, y: nat)
    requires x <= y
    ensures a * x <= a * y
  {
  }

  /** Multiplying by one more adds one more copy. */
  lemma MulSucc(a: nat, k: nat)
    ensures a * (k + 1) == a * k + a
  {
  }

  /** n digits of a base denote a number below base^n. */
  lemma {:induction false} ValueBound(s: string, base: nat)
    requires AllDigits(s, base)
    ensures ValueOf(s, base) < Pow(base, |s|)
    decreases |s|
  {
    if |s| > 0 {
      var p := s[..|s| - 1];
      var vp, d, pp := ValueOf(p, base), DigitValue(s[|s| - 1]), Pow(base, |p|);
      ValueBound(p, base);
      MulMonotone(base, vp + 1, pp);
      assert ValueOf(s, base) == base * vp + d;
      assert Pow(base, |s|) == base * pp;
      MulSucc(base, vp);
    }
  }

  lemma AllDigitsAppend(a: string, b: string, base: nat)
    requires AllDigits(a, base) && AllDigits(b, base)
    ensures AllDigits(a + b, base)
  {
    forall i | 0 <= i < |a + b|
      ensures IsHexDigit((a + b)[i]) && DigitValue((a + b)[i]) < base
    {
      if i < |a| { assert (a + b)[i] == a[i]; } else { assert (a + b)[i] == b[i - |a|]; }
    }
  }

  /** The arithmetic step of ValueAppend: appending digit d after a shift.
      Kept as a lemma so the solver sees the product without the context. */
  lemma ShiftStep(base: nat, va: nat, pb: nat, vb: nat, d: nat)
    ensures base * (va * pb + vb) + d == va * (base * pb) + (base * vb + d)
  {
  }

  /** Positional value of a concatenation: the left part is shifted by the
      width of the right part. */
  lemma {:induction false} ValueAppend(a: string, b: string, base: nat)
    requires AllDigits(a, base) && AllDigits(b, base)
    ensures AllDigits(a + b, base)
    ensures ValueOf(a + b, base) == ValueOf(a, base) * Pow(base, |b|) + ValueOf(b, base)
    decreases |b|
  {
    AllDigitsAppend(a, b, base);
    if |b| == 0 {
      assert a + b == a;
    } else {
      var b' := b[..|b| - 1];
      assert (a + b)[..|a + b| - 1] == a + b';
      ValueAppend(a, b', base);
      var va, vb', d, pb' := ValueOf(a, base), ValueOf(b', base), DigitValue(b[|b| - 1]), Pow(base, |b'|);
      assert ValueOf(a + b, base) == base * ValueOf(a + b', base) + d;
      ShiftStep(base, va, pb', vb', d);
    }
  }

  /** Every character of z is the digit zero. */
  predicate AllZeros(z: string) {
    forall i :: 0 <= i < |z| ==> z[i] == '0'
  }

  lemma {:induction false} ZerosValue(z: string, base: nat)
    requires AllZeros(z) && base >= 2
    ensures AllDigits(z, base) && ValueOf(z, base) == 0
    decreases |z|
  {
    if |z| > 0 {
      ZerosValue(z[..|z| - 1], base);
    }
  }

  /** Leading zero digits do not change the value of a digit string. */
  lemma LeadingZeros(z: string, s: string, base: nat)
    requires AllZeros(z) && AllDigits(s, base) && base >= 2
    ensures AllDigits(z + s, base)
    ensures ValueOf(z + s, base) == ValueOf(s, base)
  {
    ZerosValue(z, base);
    ValueAppend(z, s, base);
  }

  /** Dividing a number below b * p by b leaves a number below p. */
  lemma DivBelow(v: nat, b: nat, p: nat)
    requires b > 0 && v < b * p
    ensures v / b < p
  {
    if v / b >= p {
      MulMonotone(b, p, v / b);
    }
  }

  lemma DivMod(v: nat, b: nat)
    requires b > 0
    ensures v == b * (v / b) + v % b && v % b < b
  {
  }

  /** The lower-case character `to_digit` reads as d. */
  function DigitChar(d: nat): (c: char)
    requires d < 16
    ensures IsHexDigit(c) && DigitValue(c) == d
  {
    if d < 10 then ('0' as int + d) as char else ('a' as int + d - 10) as char
  }

  /** v written with exactly `width` digits of the base, most significant
      first and zero-padded on the left. */
  function Render(v: nat, base: nat, width: nat): (r: string)
    requires 2 <= base <= 16 && v < Pow(base, width)
    ensures |r| == width && AllDigits(r, base)
    decreases width
  {
    if width == 0 then ""
    else
      var q, m := v / base, v % base;
      DivMod(v, base);
      DivBelow(v, base, Pow(base, width - 1));
      var prefix := Render(q, base, width - 1);
      var c := DigitChar(m);
      AllDigitsAppend(prefix, [c], base);
      var r := prefix + [c];
      assert r[..|r| - 1] == prefix;
      r
  }

  /** Appending one digit multiplies by the base and adds the digit. */
  lemma ValueOfSnoc(p: string, c: char, base: nat)
    requires AllDigits(p, base) && IsHexDigit(c) && DigitValue(c) < base
    ensures AllDigits(p + [c], base)
    ensures ValueOf(p + [c], base) == base * ValueOf(p, base) + DigitValue(c)
  {
    AllDigitsAppend(p, [c], base);
    assert (p + [c])[..|p|] == p;
  }

  /** A single digit is worth its digit value. */
  lemma ValueOfOne(c: char, base: nat)
    requires IsHexDigit(c) && DigitValue(c) < base
    ensures AllDigits([c], base) && ValueOf([c], base) == DigitValue(c)
  {
    ValueOfSnoc([], c, base);
    assert [] + [c] == [c];
  }

  /** Two digits are worth base times the first plus the second. */
  lemma ValueOfTwo(c: char, d: char, base: nat)
    requires IsHexDigit(c) && DigitValue(c) < base && IsHexDigit(d) && DigitValue(d) < base
    ensures AllDigits([c, d], base) && ValueOf([c, d], base) == base * DigitValue(c) + DigitValue(d)
  {
    ValueOfOne(c, base);
    ValueOfSnoc([c], d, base);
    assert [c] + [d] == [c, d];
  }

  /** Reading back a rendered number gives the number. */
  lemma {:induction false} RenderValue(v: nat, base: nat, width: nat)
    requires 2 <= base <= 16 && v < Pow(base, width)
    ensures ValueOf(Render(v, base, width), base) == v
    decreases width
  {
    if width > 0 {
      var q, m := v / base, v % base;
      DivMod(v, base);
      DivBelow(v, base, Pow(base, width - 1));
      var prefix := Render(q, base, width - 1);
      var c := DigitChar(m);
      assert Render(v, base, width) == prefix + [c];
      ValueOfSnoc(prefix, c, base);
      RenderValue(q, base, width - 1);
      assert ValueOf(prefix + [c], base) == base * q + m == v;
    }
  }

  /** The converse of RenderValue for bits: a bit string is the rendering
      of its own value at its own width, leading zeros included. */
  lemma {:induction false} RenderOfBits(g: string)
    requires AllDigits(g, 2)
    ensures ValueOf(g, 2) < Pow(2, |g|) && Render(ValueOf(g, 2), 2, |g|) == g
    decreases |g|
  {
    ValueBound(g, 2);
    if |g| > 0 {
      var p, c := g[..|g| - 1], g[|g| - 1];
      assert AllDigits(p, 2);
      RenderOfBits(p);
      var v, vp, d := ValueOf(g, 2), ValueOf(p, 2), DigitValue(c);
      assert v == 2 * vp + d && d < 2;
      assert v / 2 == vp && v % 2 == d;
      assert DigitChar(d) == c;
      assert g == p + [c];
    }
  }

  /** Digits with the same values denote the same number. */
  lemma {:induction false} ValueOfSameDigits(a: string, b: string, base: nat)
    requires AllDigits(a, base) && AllDigits(b, base) && |a| == |b|
    requires forall i :: 0 <= i < |a| ==> DigitValue(a[i]) == DigitValue(b[i])
    ensures ValueOf(a, base) == ValueOf(b, base)
    decreases |a|
  {
    if |a| > 0 {
      ValueOfSameDigits(a[..|a| - 1], b[..|b| - 1], base);
    }
  }

}
