/** Big-endian numerals in any base. Hex digits, bytes, bits and 256-bit words are all digits. */
module Numerals {
  import opened PrimeField

  ghost predicate Digits(ds: seq<nat>, base: nat)
  {
    forall i :: 0 <= i < |ds| ==> ds[i] < base
  }

  function Value(ds: seq<nat>, base: nat): nat
  {
    if ds == [] then 0 else Value(ds[..|ds| - 1], base) * base + ds[|ds| - 1]
  }

  /** The last n digits of v. */
  function ToDigits(v: nat, base: nat, n: nat): (ds: seq<nat>)
    requires base > 0
    ensures |ds| == n
    decreases n
  {
    if n == 0 then [] else ToDigits(v / base, base, n - 1) + [v % base]
  }

  lemma {:induction false} PowPositive(b: int, n: nat)
    requires b > 0
    ensures Pow(b, n) > 0
  {
    if n > 0 {
      PowPositive(b, n - 1);
    }
  }

  lemma DivMod(n: nat, d: nat)
    requires d > 0
    ensures n == (n / d) * d + n % d && n % d < d
  {}

  lemma MulOrder(a: int, b: int, d: int)
    requires d > 0
    ensures a < b <==> a * d < b * d
  {
    assert (b - a) * d == b * d - a * d;
    MulAtLeast(b - a, d);
  }

  lemma {:induction false} PowMono(b: int, m: nat, n: nat)
    requires b > 0 && m <= n
    ensures Pow(b, m) <= Pow(b, n)
  {
    if m < n {
      PowMono(b, m, n - 1);
      PowPositive(b, n - 1);
      assert b * Pow(b, n - 1) >= Pow(b, n - 1);
    }
  }

  lemma {:induction false} ValueAppend(a: seq<nat>, b: seq<nat>, base: nat)
    ensures Value(a + b, base) == Value(a, base) * Pow(base, |b|) + Value(b, base)
  {
    if b == [] {
      assert a + b == a;
    } else {
      var b0, d := b[..|b| - 1], b[|b| - 1];
      ValueAppend(a, b0, base);
      assert (a + b)[..|a + b| - 1] == a + b0;
      Shift(Value(a, base), Pow(base, |b0|), Value(b0, base), base, d);
    }
  }

  lemma Shift(v: int, p: int, w: int, base: int, d: int)
    ensures (v * p + w) * base + d == v * (base * p) + (w * base + d)
  {}

  lemma {:induction false} ValueBound(ds: seq<nat>, base: nat)
    requires base > 0 && Digits(ds, base)
    ensures Value(ds, base) < Pow(base, |ds|)
  {
    if ds != [] {
      var init, d := ds[..|ds| - 1], ds[|ds| - 1];
      ValueBound(init, base);
      BoundStep(Value(init, base), Pow(base, |init|), base, d);
    }
  }

  lemma BoundStep(v: int, p: int, base: int, d: int)
    requires v < p && 0 <= d < base
    ensures v * base + d < base * p
  {
    assert (v + 1) * base <= p * base;
  }

  lemma DivModDigit(v: nat, base: nat, d: nat)
    requires d < base
    ensures (v * base + d) / base == v && (v * base + d) % base == d
  {
    var n := v * base + d;
    assert n == (n / base) * base + n % base;
    CongIntro(d, n % base, base, n / base - v);
    assert d == n % base + (n / base - v) * base;
    CongEqual(d, n % base, base);
    MulAtLeast(n / base - v, base);
  }

  /** Digits of a value are its digits. */
  lemma {:induction false} ToDigitsOfValue(ds: seq<nat>, base: nat)
    requires base > 0 && Digits(ds, base)
    ensures ToDigits(Value(ds, base), base, |ds|) == ds
  {
    if ds != [] {
      var init, d := ds[..|ds| - 1], ds[|ds| - 1];
      ToDigitsOfValue(init, base);
      DivModDigit(Value(init, base), base, d);
      assert ds == init + [d];
    }
  }

  lemma QuotientBound(v: nat, base: nat, q: int)
    requires base > 0 && v < base * q
    ensures 0 <= v / base < q
  {
    assert (v / base) * base <= v;
  }

  /** The value of its digits is the number, if they are enough. */
  lemma {:induction false} ValueOfToDigits(v: nat, base: nat, n: nat)
    requires base > 0 && v < Pow(base, n)
    ensures Digits(ToDigits(v, base, n), base) && Value(ToDigits(v, base, n), base) == v
    decreases n
  {
    if n > 0 {
      assert v == (v / base) * base + v % base;
      QuotientBound(v, base, Pow(base, n - 1));
      ValueOfToDigits(v / base, base, n - 1);
      var ds := ToDigits(v, base, n);
      assert ds[..|ds| - 1] == ToDigits(v / base, base, n - 1);
    }
  }

  /** Numerals of one length and value are equal. */
  lemma ValueInjective(a: seq<nat>, b: seq<nat>, base: nat)
    requires base > 0 && Digits(a, base) && Digits(b, base)
    requires |a| == |b| && Value(a, base) == Value(b, base)
    ensures a == b
  {
    ToDigitsOfValue(a, base);
    ToDigitsOfValue(b, base);
  }

  /** Each digit of base^g written out as g digits. */
  function Expand(ds: seq<nat>, base: nat, g: nat): (r: seq<nat>)
    requires base > 0
    ensures |r| == g * |ds|
  {
    if ds == [] then [] else Expand(ds[..|ds| - 1], base, g) + ToDigits(ds[|ds| - 1], base, g)
  }

  lemma {:induction false} ExpandValue(ds: seq<nat>, base: nat, g: nat)
    requires base > 0 && Pow(base, g) >= 0 && Digits(ds, Pow(base, g))
    ensures Digits(Expand(ds, base, g), base)
    ensures Value(Expand(ds, base, g), base) == Value(ds, Pow(base, g))
  {
    if ds != [] {
      var init, d := ds[..|ds| - 1], ds[|ds| - 1];
      ExpandValue(init, base, g);
      ValueOfToDigits(d, base, g);
      ValueAppend(Expand(init, base, g), ToDigits(d, base, g), base);
    }
  }
}
