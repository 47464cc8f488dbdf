/** `int(n / d)` as Python computes it: the quotient is rounded to a double, 53 significant bits,
    half to even, and then cut off. Exponents are unbounded here; amounts of money never get near
    the largest or the smallest double. */
module FloatDivision {
  import opened PrimeField
  import opened Numerals

  const MANTISSA := 0x20_0000_0000_0000      // 2^53
  const HALF_MANTISSA := 0x10_0000_0000_0000 // 2^52

  /** The integer nearest to n / d, the even one of two. */
  function RoundHalfEven(n: nat, d: nat): nat
    requires d > 0
  {
    var q, r := n / d, n % d;
    if 2 * r > d || (2 * r == d && q % 2 == 1) then q + 1 else q
  }

  /** The least power of two, from s on, by which n / d has to be multiplied to reach 2^52. */
  function Scale(n: nat, d: nat, s: nat): nat
    requires n > 0 && d > 0 && s > 0
    decreases HALF_MANTISSA * d - n * s
  {
    if n * s >= HALF_MANTISSA * d then s
    else
      ScaleGrows(n, s);
      Scale(n, d, 2 * s)
  }

  function IntOfQuotient(n: nat, d: nat): nat
    requires d > 0
    decreases n - MANTISSA * d
  {
    if n == 0 then 0
    else if n >= MANTISSA * d then 2 * IntOfQuotient(n, 2 * d)
    else
      var s := Scale(n, d, 1);
      ScaleMeaning(n, d, 1);
      RoundHalfEven(n * s, d) / s
  }

  lemma ScaleGrows(n: nat, s: nat)
    requires n > 0 && s > 0
    ensures n * (2 * s) == 2 * (n * s) && n * s > 0
  {}

  /** Rounding errs by at most one half. */
  lemma RoundedIsNearest(n: nat, d: nat)
    requires d > 0
    ensures 2 * n - d <= 2 * (RoundHalfEven(n, d) * d) <= 2 * n + d
  {
    assert n == (n / d) * d + n % d;
    assert (n / d + 1) * d == (n / d) * d + d;
  }

  /** Half-way quotients go to the even neighbour. */
  lemma TieIsEven(n: nat, d: nat)
    requires d > 0 && 2 * (n % d) == d
    ensures RoundHalfEven(n, d) % 2 == 0
  {}

  // ----- The scale

  predicate PowerOfTwo(s: nat, j: nat)
  {
    s == Pow(2, j)
  }

  lemma {:induction false} ScaleMeaning(n: nat, d: nat, s: nat)
    requires n > 0 && d > 0 && s > 0
    ensures Scale(n, d, s) >= s && n * Scale(n, d, s) >= HALF_MANTISSA * d
    ensures n * s < MANTISSA * d ==> n * Scale(n, d, s) < MANTISSA * d
    decreases HALF_MANTISSA * d - n * s
  {
    if n * s < HALF_MANTISSA * d {
      ScaleGrows(n, s);
      ScaleMeaning(n, d, 2 * s);
    }
  }

  lemma {:induction false} ScaleIsPower(n: nat, d: nat, s: nat, i: nat) returns (j: nat)
    requires n > 0 && d > 0 && s > 0 && PowerOfTwo(s, i)
    ensures PowerOfTwo(Scale(n, d, s), j) && j >= i
    decreases HALF_MANTISSA * d - n * s
  {
    if n * s < HALF_MANTISSA * d {
      ScaleGrows(n, s);
      j := ScaleIsPower(n, d, 2 * s, i + 1);
    } else {
      j := i;
    }
  }

  lemma EvenPower(j: nat)
    ensures Pow(2, j) >= 1
    ensures j > 0 ==> Pow(2, j) >= 2 && Pow(2, j) % 2 == 0
  {
    PowPositive(2, j);
    if j > 0 {
      PowPositive(2, j - 1);
    }
  }

  /** The scale is the only power of two that gives the quotient 53 bits. */
  lemma {:induction false} ScaleFrom(n: nat, d: nat, i: nat, j: nat)
    requires n > 0 && d > 0 && i <= j && Pow(2, i) > 0 && Pow(2, j) > 0
    requires HALF_MANTISSA * d <= n * Pow(2, j) < MANTISSA * d
    ensures Scale(n, d, Pow(2, i)) == Pow(2, j)
    decreases j - i
  {
    if i < j {
      PowMono(2, i + 1, j);
      MulOrder(Pow(2, j), Pow(2, i + 1), n);
      ScaleGrows(n, Pow(2, i));
      ScaleFrom(n, d, i + 1, j);
    }
  }

  // ----- Quotients below 2^53: when the result is one too many

  /** The quotient is within half a unit in the last place below the next integer, or, where there
      are no places after the point, nearer to it. */
  predicate RoundsUp(n: nat, d: nat)
    requires d > 0
  {
    n > 0 &&
      var s, r := Scale(n, d, 1), n % d;
      if s == 1 then 2 * r > d || (2 * r == d && (n / d) % 2 == 1) else 2 * (s * (d - r)) <= d
  }

  lemma RoundShifted(q: nat, n: nat, d: nat)
    requires d > 0 && q % 2 == 0
    ensures RoundHalfEven(q * d + n, d) == q + RoundHalfEven(n, d)
  {
    var a, b := n / d, n % d;
    assert q * d + n == (q + a) * d + b;
    DivModDigit(q + a, d, b);
  }

  lemma RemainderFits(r: nat, s: nat, d: nat, a: nat, b: nat)
    requires r < d && s > 0 && r * s == a * d + b
    ensures a < s
  {
    MulOrder(r, d, s);
    MulOrder(a, s, d);
  }

  lemma GapEquation(r: int, s: int, d: int, a: int, b: int)
    requires r * s == a * d + b
    ensures s * (d - r) == (s - a) * d - b
  {}

  lemma GapSize(k: int, d: int)
    requires d > 0
    ensures k == 1 ==> k * d == d
    ensures k >= 2 ==> k * d >= 2 * d
  {
    MulAtLeast(k - 1, d);
    assert k * d == (k - 1) * d + d;
  }

  /** How far r * s falls short of s * d, from its quotient and remainder. */
  lemma FractionGap(r: nat, s: nat, d: nat, a: nat, b: nat)
    requires r * s == a * d + b && b < d && a < s
    ensures 2 * (s * (d - r)) <= d <==> a == s - 1 && 2 * b >= d
  {
    GapEquation(r, s, d, a, b);
    GapSize(s - a, d);
  }

  /** The scaled fraction rounds to a whole exactly if it is within one half of it. */
  lemma FractionRoundsUp(r: nat, s: nat, d: nat)
    requires r < d && s >= 2 && s % 2 == 0
    ensures RoundHalfEven(r * s, d) <= s
    ensures RoundHalfEven(r * s, d) == s <==> 2 * (s * (d - r)) <= d
  {
    var n := r * s;
    var a, b := n / d, n % d;
    assert n == a * d + b;
    RemainderFits(r, s, d, a, b);
    FractionGap(r, s, d, a, b);
  }

  lemma CutOffScaled(q: nat, t: nat, s: nat)
    requires s > 0 && t <= s
    ensures (q * s + t) / s == if t == s then q + 1 else q
  {
    if t == s {
      assert q * s + t == (q + 1) * s + 0;
      DivModDigit(q + 1, s, 0);
    } else {
      DivModDigit(q, s, t);
    }
  }

  lemma Unscaled(n: nat, d: nat)
    requires d > 0
    ensures RoundHalfEven(n * 1, d) / 1 == RoundHalfEven(n, d)
  {}

  /** Below 2^53 the result is the floor of the quotient, or one more if it rounds up. */
  lemma IntOfSmallQuotient(n: nat, d: nat)
    requires d > 0 && n < MANTISSA * d
    ensures IntOfQuotient(n, d) == n / d + if RoundsUp(n, d) then 1 else 0
  {
    if n == 0 {
      DivModDigit(0, d, 0);
    } else {
      var s := Scale(n, d, 1);
      ScaleMeaning(n, d, 1);
      assert IntOfQuotient(n, d) == RoundHalfEven(n * s, d) / s;
      if s == 1 {
        Unscaled(n, d);
      } else {
        var j := ScaleIsPower(n, d, 1, 0);
        EvenPower(j);
        DivMod(n, d);
        ScaledQuotient(n, n / d, n % d, s, d);
      }
    }
  }

  lemma ScaledQuotient(n: nat, q: nat, r: nat, s: nat, d: nat)
    requires r < d && n == q * d + r && s >= 2 && s % 2 == 0
    ensures RoundHalfEven(n * s, d) / s == q + if 2 * (s * (d - r)) <= d then 1 else 0
  {
    assert n * s == (q * s) * d + r * s;
    EvenProduct(q, s);
    RoundShifted(q * s, r * s, d);
    FractionRoundsUp(r, s, d);
    CutOffScaled(q, RoundHalfEven(r * s, d), s);
  }

  lemma EvenProduct(q: nat, s: nat)
    requires s % 2 == 0
    ensures (q * s) % 2 == 0
  {
    assert q * s == (q * (s / 2)) * 2;
  }

  // ----- Whole quotients: when the result is exact

  /** k has at most 53 significant bits. */
  predicate Exact(k: nat)
  {
    k < MANTISSA || (k % 2 == 0 && Exact(k / 2))
  }

  lemma WholeDoesNotRoundUp(k: nat, d: nat)
    requires d > 0
    ensures (k * d) % d == 0 && (k * d) / d == k && !RoundsUp(k * d, d)
  {
    DivModDigit(k, d, 0);
    if k * d > 0 {
      ScaleMeaning(k * d, d, 1);
      var s := Scale(k * d, d, 1);
      assert s * d >= d;
    }
  }

  lemma EvenHalf(k: nat, d: nat)
    requires k % 2 == 0
    ensures k * d == (k / 2) * (2 * d)
  {}

  /** A whole quotient comes out as it is if and only if it is exactly a double. */
  lemma {:induction false} IntOfWholeQuotient(k: nat, d: nat)
    requires d > 0
    ensures IntOfQuotient(k * d, d) == k <==> Exact(k)
    decreases k
  {
    MulOrder(k, MANTISSA, d);
    if k < MANTISSA {
      IntOfSmallQuotient(k * d, d);
      WholeDoesNotRoundUp(k, d);
    } else {
      if k % 2 == 0 {
        EvenHalf(k, d);
        IntOfWholeQuotient(k / 2, 2 * d);
      }
    }
  }

  // ----- Large quotients: when the result reaches a power of two

  lemma TopQuotient(n: nat, d: nat, q: nat, r: nat)
    requires n == q * d + r && r < d && q < MANTISSA
    ensures 2 * n >= (2 * MANTISSA - 1) * d <==> q == MANTISSA - 1 && 2 * r >= d
    ensures q == MANTISSA - 1 ==> n >= HALF_MANTISSA * d
  {
    GapSize(MANTISSA - q, d);
    assert (MANTISSA - q) * d == MANTISSA * d - q * d;
  }

  lemma UnitScale(n: nat, d: nat)
    requires n > 0 && d > 0 && n >= HALF_MANTISSA * d
    ensures Scale(n, d, 1) == 1
  {}

  lemma SmallResult(n: nat, d: nat)
    requires d > 0 && n < MANTISSA * d
    ensures IntOfQuotient(n, d) <= MANTISSA
    ensures IntOfQuotient(n, d) == MANTISSA <==> 2 * n >= (2 * MANTISSA - 1) * d
  {
    IntOfSmallQuotient(n, d);
    QuotientBound(n, d, MANTISSA);
    var q, r := n / d, n % d;
    DivMod(n, d);
    TopQuotient(n, d, q, r);
    if q == MANTISSA - 1 {
      UnitScale(n, d);
      assert RoundsUp(n, d) <==> 2 * r >= d;
    }
  }

  /** The result is 2^53 * 2^j or more if and only if the quotient is at most half a unit in the
      last place below. */
  lemma {:induction false} ReachesPower(n: nat, d: nat, j: nat)
    requires d > 0
    ensures IntOfQuotient(n, d) >= MANTISSA * Pow(2, j) <==> 2 * n >= (2 * MANTISSA - 1) * (Pow(2, j) * d)
    decreases j
  {
    EvenPower(j);
    if n < MANTISSA * d {
      SmallResult(n, d);
      GapSize(Pow(2, j), d);
    } else if j == 0 {
      BigResult(n, d);
    } else {
      ReachesPower(n, 2 * d, j - 1);
      Regroup(Pow(2, j - 1), d);
      assert IntOfQuotient(n, d) == 2 * IntOfQuotient(n, 2 * d);
    }
  }

  lemma Regroup(p: int, d: int)
    ensures p * (2 * d) == (2 * p) * d
  {}

  lemma {:induction false} BigResult(n: nat, d: nat)
    requires d > 0 && n >= MANTISSA * d
    ensures IntOfQuotient(n, d) >= MANTISSA
    decreases n - MANTISSA * d
  {
    if n >= MANTISSA * (2 * d) {
      BigResult(n, 2 * d);
    } else {
      IntOfSmallQuotient(n, 2 * d);
      assert n >= HALF_MANTISSA * (2 * d) + 0;
      assert n / (2 * d) >= HALF_MANTISSA by {
        assert n == (n / (2 * d)) * (2 * d) + n % (2 * d);
        AtLeast(n / (2 * d), HALF_MANTISSA, 2 * d, n % (2 * d));
      }
    }
  }

  lemma AtLeast(q: int, h: int, d: int, r: int)
    requires 0 <= r < d && q * d + r >= h * d
    ensures q >= h
  {
    MulAtLeast(h - q, d);
    assert (h - q) * d == h * d - q * d;
  }
}
