/** Polynomials modulo a prime have no more roots than their degree; hence roots of unity exist
    for every divisor of p - 1. */
module FieldRoots {
  import opened PrimeField

  /** Value at x of the polynomial with these coefficients, constant term first. */
  function Eval(cs: seq<int>, x: int): int
  {
    if cs == [] then 0 else cs[0] + x * Eval(cs[1..], x)
  }

  /** The polynomial without its value at a, divided by x - a. */
  function Quotient(cs: seq<int>, a: int): (q: seq<int>)
    ensures |q| == if cs == [] then 0 else |cs| - 1
  {
    if |cs| <= 1 then [] else [Eval(cs[1..], a)] + Quotient(cs[1..], a)
  }

  lemma {:induction false} Division(cs: seq<int>, a: int, x: int)
    ensures Eval(cs, x) - Eval(cs, a) == (x - a) * Eval(Quotient(cs, a), x)
  {
    if |cs| == 1 {
      assert Eval(cs[1..], x) == Eval(cs[1..], a) == 0;
    } else if |cs| > 1 {
      var r, q := cs[1..], Quotient(cs[1..], a);
      Division(r, a, x);
      assert Quotient(cs, a)[1..] == q;
      DivisionStep(x, a, Eval(r, x), Eval(r, a), Eval(q, x));
    }
  }

  lemma DivisionStep(x: int, a: int, rx: int, ra: int, q: int)
    requires rx - ra == (x - a) * q
    ensures x * rx - a * ra == (x - a) * (ra + x * q)
  {
    calc {
      x * rx - a * ra;
      x * (rx - ra) + (x - a) * ra;
      x * ((x - a) * q) + (x - a) * ra;
      (x - a) * (ra + x * q);
    }
  }

  lemma {:induction false} QuotientLead(cs: seq<int>, a: int)
    requires |cs| >= 2
    ensures Quotient(cs, a)[|cs| - 2] == cs[|cs| - 1]
  {
    if |cs| == 2 {
      assert cs[1..] == [cs[1]];
      assert Eval(cs[1..][1..], a) == 0;
    } else {
      QuotientLead(cs[1..], a);
    }
  }

  /** A polynomial with as many consecutive roots as coefficients has leading coefficient 0. */
  lemma {:induction false} RootsBound(p: int, cs: seq<int>, lo: int, hi: int)
    requires Prime(p) && 0 <= lo && hi <= p && hi - lo >= |cs| >= 1
    requires forall y :: lo <= y < hi ==> Cong(Eval(cs, y), 0, p)
    ensures Cong(cs[|cs| - 1], 0, p)
    decreases |cs|
  {
    if |cs| == 1 {
      assert Eval(cs[1..], lo) == 0;
      assert Eval(cs, lo) == cs[0];
    } else {
      var q := Quotient(cs, lo);
      forall y | lo + 1 <= y < hi
        ensures Cong(Eval(q, y), 0, p)
      {
        OtherRoot(p, cs, lo, y);
      }
      RootsBound(p, q, lo + 1, hi);
      QuotientLead(cs, lo);
    }
  }

  lemma OtherRoot(p: int, cs: seq<int>, a: int, y: int)
    requires Prime(p) && 0 < y - a < p && Cong(Eval(cs, a), 0, p) && Cong(Eval(cs, y), 0, p)
    ensures Cong(Eval(Quotient(cs, a), y), 0, p)
  {
    Division(cs, a, y);
    CongScale(Eval(cs, a), -1, p);
    CongAdd(Eval(cs, y), 0, -1 * Eval(cs, a), 0, p);
    NotDivisible(y - a, p);
    Euclid(p, y - a, Eval(Quotient(cs, a), y));
  }

  function Monomial(n: nat): (cs: seq<int>)
    ensures |cs| == n + 1 && cs[n] == 1
  {
    if n == 0 then [1] else [0] + Monomial(n - 1)
  }

  lemma {:induction false} MonomialValue(n: nat, x: int)
    ensures Eval(Monomial(n), x) == Pow(x, n)
  {
    if n == 0 {
      assert Eval([1][1..], x) == 0;
    } else {
      assert Monomial(n)[1..] == Monomial(n - 1);
      MonomialValue(n - 1, x);
    }
  }

  /** An exponent below p - 1 does not send every residue to 1. */
  lemma NotAllOne(p: int, n: nat)
    requires Prime(p) && 1 <= n < p - 1
    ensures exists y :: 0 < y < p && !Cong(Pow(y, n), 1, p)
  {
    if forall y :: 0 < y < p ==> Cong(Pow(y, n), 1, p) {
      var cs := [-1] + Monomial(n - 1);
      forall y | 1 <= y < p
        ensures Cong(Eval(cs, y), 0, p)
      {
        assert cs[1..] == Monomial(n - 1);
        MonomialValue(n - 1, y);
        assert Eval(cs, y) == Pow(y, n) + -1;
        CongRefl(-1, p);
        CongAdd(Pow(y, n), 1, -1, -1, p);
      }
      RootsBound(p, cs, 1, p);
      NotDivisible(1, p);
      assert false;
    }
  }

  lemma ProductBounds(q: int, n: int)
    requires n > 1 && q * n > 0
    ensures 1 <= q < q * n
  {
    if q > 0 {
      assert q * (n - 1) >= 1;
    }
  }

  lemma Divisor(m: int, n: nat) returns (q: nat)
    requires m > 0 && n > 1 && m % n == 0
    ensures q * n == m && 1 <= q < m
  {
    var d := m / n;
    assert d * n == m;
    ProductBounds(d, n);
    q := d;
  }

  /** With q * n == p - 1, the n-th power of a q-th power is 1. */
  lemma PowerOfPower(p: int, y: int, q: nat, n: nat, w: int)
    requires Prime(p) && 0 < y < p && q * n == p - 1 && Cong(w, Pow(y, q), p)
    ensures Cong(Pow(w, n), 1, p)
  {
    CongPow(w, Pow(y, q), n, p);
    PowMul(y, q, n);
    Fermat(p, y);
    CongTrans(Pow(w, n), Pow(y, p - 1), 1, p);
  }

  /** If n > 1 divides p - 1, there is an n-th root of 1 other than 1. */
  lemma RootOfUnity(p: int, n: nat) returns (w: int)
    requires Prime(p) && n > 1 && (p - 1) % n == 0
    ensures 1 < w < p && Cong(Pow(w, n), 1, p)
  {
    var q := Divisor(p - 1, n);
    NotAllOne(p, q);
    var y :| 0 < y < p && !Cong(Pow(y, q), 1, p);
    w := Pow(y, q) % p;
    CongMod(Pow(y, q), p);
    CongSym(w, Pow(y, q), p);
    PowerOfPower(p, y, q, n, w);
    if w == 0 {
      PowZero(n);
      CongSym(0, 1, p);
      NotDivisible(1, p);
    }
  }
}
