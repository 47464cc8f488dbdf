/** The number theory behind MiMC: powers modulo a prime, up to Fermat's little theorem and
    the existence of e-th roots. */
module PrimeField {

  ghost predicate Prime(p: int)
  {
    2 <= p && forall d :: 2 <= d < p ==> p % d != 0
  }

  function Pow(x: int, n: nat): int
  {
    if n == 0 then 1 else x * Pow(x, n - 1)
  }

  // ----- Congruence

  ghost predicate Cong(a: int, b: int, p: int)
  {
    exists k :: a == b + k * p
  }

  lemma CongIntro(a: int, b: int, p: int, k: int)
    requires a == b + k * p
    ensures Cong(a, b, p)
  {}

  lemma CongMod(a: int, p: int)
    requires p > 0
    ensures Cong(a % p, a, p) && Cong(a, a % p, p)
  {
    assert a == a % p + (a / p) * p;
    CongIntro(a, a % p, p, a / p);
    assert a % p == a + (-(a / p)) * p;
    CongIntro(a % p, a, p, -(a / p));
  }

  lemma CongSym(a: int, b: int, p: int)
    requires Cong(a, b, p)
    ensures Cong(b, a, p)
  {
    var k :| a == b + k * p;
    assert b == a + (-k) * p;
  }

  lemma CongTrans(a: int, b: int, c: int, p: int)
    requires Cong(a, b, p) && Cong(b, c, p)
    ensures Cong(a, c, p)
  {
    var k :| a == b + k * p;
    var l :| b == c + l * p;
    assert a == c + (k + l) * p;
  }

  lemma CongAdd(a: int, b: int, c: int, d: int, p: int)
    requires Cong(a, b, p) && Cong(c, d, p)
    ensures Cong(a + c, b + d, p)
  {
    var k :| a == b + k * p;
    var l :| c == d + l * p;
    assert a + c == (b + d) + (k + l) * p;
  }

  lemma CongMul(a: int, b: int, c: int, d: int, p: int)
    requires Cong(a, b, p) && Cong(c, d, p)
    ensures Cong(a * c, b * d, p)
  {
    var k :| a == b + k * p;
    var l :| c == d + l * p;
    var m := b * l + k * d + k * l * p;
    assert (b + k * p) * (d + l * p) == b * d + m * p;
    CongIntro(a * c, b * d, p, m);
  }

  lemma CongRefl(a: int, p: int)
    ensures Cong(a, a, p)
  {
    CongIntro(a, a, p, 0);
  }

  lemma {:induction false} CongPow(a: int, b: int, n: nat, p: int)
    requires Cong(a, b, p)
    ensures Cong(Pow(a, n), Pow(b, n), p)
  {
    if n == 0 {
      CongRefl(1, p);
    } else {
      CongPow(a, b, n - 1, p);
      CongMul(a, b, Pow(a, n - 1), Pow(b, n - 1), p);
    }
  }

  /** Congruent residues are equal. */
  lemma CongEqual(a: int, b: int, p: int)
    requires 0 <= a < p && 0 <= b < p && Cong(a, b, p)
    ensures a == b
  {
    var k :| a == b + k * p;
    MulAtLeast(k, p);
  }

  lemma MulAtLeast(k: int, p: int)
    requires p > 0
    ensures k >= 1 ==> k * p >= p
    ensures k <= -1 ==> k * p <= -p
  {}

  lemma CongModEqual(a: int, b: int, p: int)
    requires p > 0 && Cong(a, b, p)
    ensures a % p == b % p
  {
    CongMod(a, p);
    CongMod(b, p);
    CongTrans(a % p, a, b, p);
    CongTrans(a % p, b, b % p, p);
    CongEqual(a % p, b % p, p);
  }

  // ----- Euclid's lemma

  /** A prime that divides a product and not the first factor divides the second. */
  lemma {:induction false} EuclidSmall(p: int, a: int, b: int)
    requires Prime(p) && 0 < a < p && Cong(a * b, 0, p)
    ensures Cong(b, 0, p)
    decreases a
  {
    if a > 1 {
      var q, r := p / a, p % a;
      assert p == q * a + r && 0 < r < a;
      CongScale(a * b, -q, p);
      CongIntro(p * b, 0, p, b);
      assert r * b == p * b + (-q) * (a * b) by {
        assert r == p - q * a;
        assert (p - q * a) * b == p * b - q * a * b;
      }
      CongAdd(p * b, 0, (-q) * (a * b), 0, p);
      EuclidSmall(p, r, b);
    } else {
      assert a * b == b;
    }
  }

  lemma CongScale(a: int, c: int, p: int)
    requires Cong(a, 0, p)
    ensures Cong(c * a, 0, p)
  {
    var k :| a == 0 + k * p;
    assert c * a == 0 + (c * k) * p;
  }

  lemma Euclid(p: int, a: int, b: int)
    requires Prime(p) && !Cong(a, 0, p) && Cong(a * b, 0, p)
    ensures Cong(b, 0, p)
  {
    var r := a % p;
    CongMod(a, p);
    assert r != 0;
    CongRefl(b, p);
    CongMul(r, a, b, b, p);
    CongTrans(r * b, a * b, 0, p);
    EuclidSmall(p, r, b);
  }

  // ----- Products of residues

  function Fact(n: nat): int
  {
    if n == 0 then 1 else n * Fact(n - 1)
  }

  /** Product of the members of s that lie in [0, n). */
  function Prod(s: set<int>, n: nat): int
  {
    if n == 0 then 1 else if n - 1 in s then (n - 1) * Prod(s, n - 1) else Prod(s, n - 1)
  }

  lemma {:induction false} ProdIgnore(s: set<int>, x: int, n: nat)
    requires x >= n
    ensures Prod(s + {x}, n) == Prod(s, n)
  {
    if n > 0 {
      ProdIgnore(s, x, n - 1);
    }
  }

  lemma {:induction false} ProdInsert(s: set<int>, x: int, n: nat)
    requires x !in s && 0 <= x < n
    ensures Prod(s + {x}, n) == x * Prod(s, n)
  {
    if x == n - 1 {
      ProdIgnore(s, x, n - 1);
    } else {
      ProdInsert(s, x, n - 1);
      if n - 1 in s {
        Swap(n - 1, x, Prod(s, n - 1));
      }
    }
  }

  lemma Swap(a: int, b: int, c: int)
    ensures a * (b * c) == b * (a * c)
  {}

  function Residues(n: nat): (s: set<int>)
    ensures forall x :: x in s <==> 0 < x < n
  {
    if n <= 1 then {} else Residues(n - 1) + {n - 1}
  }

  lemma {:induction false} ResiduesProd(n: nat, m: nat)
    requires 1 <= n <= m
    ensures |Residues(n)| == n - 1 && Prod(Residues(n), m) == Fact(n - 1)
  {
    if n == 1 {
      ProdEmpty(m);
    } else {
      ResiduesProd(n - 1, m);
      ProdInsert(Residues(n - 1), n - 1, m);
    }
  }

  lemma {:induction false} ProdEmpty(m: nat)
    ensures Prod({}, m) == 1
  {
    if m > 0 {
      ProdEmpty(m - 1);
    }
  }

  /** Multiplication by a, as a map on residues. */
  function Times(a: int, x: int, p: int): int
    requires p > 0
  {
    (a * x) % p
  }

  lemma NotDivisible(x: int, p: int)
    requires 0 < x < p
    ensures !Cong(x, 0, p)
  {
    if Cong(x, 0, p) {
      CongEqual(x, 0, p);
    }
  }

  lemma TimesNonzero(a: int, x: int, p: int)
    requires Prime(p) && 0 < a < p && 0 < x < p
    ensures 0 < Times(a, x, p) < p
  {
    CongMod(a * x, p);
    NotDivisible(x, p);
    if Times(a, x, p) == 0 {
      EuclidSmall(p, a, x);
    }
  }

  lemma TimesInjective(a: int, x: int, y: int, p: int)
    requires Prime(p) && 0 < a < p && 0 < x < p && 0 < y < p
    requires Times(a, x, p) == Times(a, y, p)
    ensures x == y
  {
    CongMod(a * x, p);
    CongMod(a * y, p);
    CongTrans(a * x, Times(a, x, p), a * y, p);
    var k :| a * x == a * y + k * p;
    assert a * (x - y) == 0 + k * p by {
      assert a * (x - y) == a * x - a * y;
    }
    EuclidSmall(p, a, x - y);
    var l :| x - y == 0 + l * p;
    CongIntro(x, y, p, l);
    CongEqual(x, y, p);
  }

  /** The residues below n, each multiplied by a. */
  function Image(a: int, n: nat, p: int): (s: set<int>)
    requires p > 0
    ensures forall z :: z in s ==> exists x :: 0 < x < n && z == Times(a, x, p)
  {
    if n <= 1 then {} else Image(a, n - 1, p) + {Times(a, n - 1, p)}
  }

  lemma ImageNew(a: int, n: nat, p: int)
    requires Prime(p) && 0 < a < p && 1 < n <= p
    ensures Times(a, n - 1, p) !in Image(a, n - 1, p)
  {
    if Times(a, n - 1, p) in Image(a, n - 1, p) {
      var x :| 0 < x < n - 1 && Times(a, n - 1, p) == Times(a, x, p);
      TimesInjective(a, n - 1, x, p);
    }
  }

  /** Multiplying every residue by a multiplies their product by a power of a. */
  lemma {:induction false} ImageProd(a: int, n: nat, p: int)
    requires Prime(p) && 0 < a < p && 1 <= n <= p
    ensures |Image(a, n, p)| == n - 1 && Image(a, n, p) <= Residues(p)
    ensures Cong(Prod(Image(a, n, p), p), Pow(a, n - 1) * Fact(n - 1), p)
  {
    if n == 1 {
      ProdEmpty(p);
      CongRefl(1, p);
    } else {
      var x, fx, before := n - 1, Times(a, n - 1, p), Image(a, n - 1, p);
      ImageProd(a, n - 1, p);
      ImageNew(a, n, p);
      TimesNonzero(a, x, p);
      ProdInsert(before, fx, p);
      CongMod(a * x, p);
      CongMul(fx, a * x, Prod(before, p), Pow(a, n - 2) * Fact(n - 2), p);
      Rearrange(a, x, Pow(a, n - 2), Fact(n - 2));
    }
  }

  lemma Rearrange(a: int, x: int, q: int, r: int)
    ensures (a * x) * (q * r) == (a * q) * (x * r)
  {}

  lemma {:induction false} FactNotDivisible(n: nat, p: int)
    requires Prime(p) && n < p
    ensures !Cong(Fact(n), 0, p)
  {
    if n == 0 {
      NotDivisible(1, p);
    } else {
      FactNotDivisible(n - 1, p);
      NotDivisible(n, p);
      if Cong(Fact(n), 0, p) {
        Euclid(p, n, Fact(n - 1));
      }
    }
  }

  lemma SubsetOfSameSize(a: set<int>, b: set<int>)
    requires a <= b && |a| == |b|
    ensures a == b
  {
    assert |b - a| == 0;
  }

  /** Fermat's little theorem. */
  lemma Fermat(p: int, a: int)
    requires Prime(p) && 0 < a < p
    ensures Cong(Pow(a, p - 1), 1, p)
  {
    ImageProd(a, p, p);
    ResiduesProd(p, p);
    SubsetOfSameSize(Image(a, p, p), Residues(p));
    FactNotDivisible(p - 1, p);
    Cancel(p, Pow(a, p - 1), Fact(p - 1));
  }

  lemma Cancel(p: int, e: int, q: int)
    requires Prime(p) && !Cong(q, 0, p) && Cong(q, e * q, p)
    ensures Cong(e, 1, p)
  {
    CongSym(q, e * q, p);
    var k :| e * q == q + k * p;
    assert q * (e - 1) == 0 + k * p by {
      assert q * (e - 1) == q * e - q;
    }
    Euclid(p, q, e - 1);
    var l :| e - 1 == 0 + l * p;
    CongIntro(e, 1, p, l);
  }

  // ----- Roots

  lemma {:induction false} PowAdd(x: int, m: nat, n: nat)
    ensures Pow(x, m + n) == Pow(x, m) * Pow(x, n)
  {
    if m > 0 {
      PowAdd(x, m - 1, n);
      assert x * (Pow(x, m - 1) * Pow(x, n)) == (x * Pow(x, m - 1)) * Pow(x, n);
    }
  }

  lemma {:induction false} PowMul(x: int, m: nat, n: nat)
    ensures m * n >= 0 && Pow(x, m * n) == Pow(Pow(x, m), n)
  {
    if n == 0 {
      assert m * n == 0;
    } else {
      PowMul(x, m, n - 1);
      assert m * n == m + m * (n - 1);
      PowAdd(x, m, m * (n - 1));
    }
  }

  lemma {:induction false} PowOne(n: nat)
    ensures Pow(1, n) == 1
  {
    if n > 0 {
      PowOne(n - 1);
    }
  }

  lemma PowZero(n: nat)
    requires n > 0
    ensures Pow(0, n) == 0
  {}

  /** Exponents that are 1 modulo p - 1 act as the identity modulo p. */
  lemma PowIdentity(p: int, x: int, k: nat)
    requires Prime(p) && 0 <= x < p
    ensures k * (p - 1) >= 0 && Cong(Pow(x, 1 + k * (p - 1)), x, p)
  {
    PowMul(x, p - 1, k);
    assert k * (p - 1) == (p - 1) * k;
    if x == 0 {
      PowZero(1 + k * (p - 1));
      CongRefl(0, p);
    } else {
      Fermat(p, x);
      CongPow(Pow(x, p - 1), 1, k, p);
      PowOne(k);
      PowAdd(x, 1, k * (p - 1));
      CongRefl(x, p);
      CongMul(x, x, Pow(Pow(x, p - 1), k), 1, p);
      assert Pow(x, 1) == x;
    }
  }
}
