/** The MiMC block cipher over a prime field, its use as a two-to-one compression function, and
    the Merkle-Damgard input hasher built on it. */
module MiMC {
  import opened PrimeField
  import opened FieldRoots
  import opened Outcomes

  /** `update` is the Keccak step from one round constant to the next, uninterpreted. */
  datatype Cipher = Cipher(prime: int, exponent: nat, numRounds: int, seed: int, update: int -> int)

  function Round(c: Cipher, message: int, key: int, rc: int): (r: int)
    requires c.prime > 0
    ensures 0 <= r < c.prime
  {
    Pow(message + key + rc, c.exponent) % c.prime
  }

  // ----- Round constants

  function Iterate(update: int -> int, seed: int, n: nat): int
  {
    if n == 0 then seed else update(Iterate(update, seed, n - 1))
  }

  /** 0, then the seed updated once, twice, ... */
  function Constants(c: Cipher, n: nat): (rcs: seq<int>)
    ensures |rcs| == n
  {
    seq(n, i requires 0 <= i < n => if i == 0 then 0 else Iterate(c.update, c.seed, i))
  }

  lemma ConstantsSnoc(c: Cipher, n: nat)
    ensures Constants(c, n + 1)[..n] == Constants(c, n)
    ensures Constants(c, n + 1)[n] == if n == 0 then 0 else Iterate(c.update, c.seed, n)
    ensures Constants(c, n + 1) == Constants(c, n) + [if n == 0 then 0 else Iterate(c.update, c.seed, n)]
  {}

  /** No constant in the first round, and from then on each is the update of the one before; the
      second is the update of the seed. */
  lemma ConstantsMeaning(c: Cipher, n: nat)
    ensures n >= 1 ==> Constants(c, n)[0] == 0
    ensures n >= 2 ==> Constants(c, n)[1] == c.update(c.seed)
    ensures forall i :: 2 <= i < n ==> Constants(c, n)[i] == c.update(Constants(c, n)[i - 1])
  {
    if n >= 2 {
      assert Iterate(c.update, c.seed, 1) == c.update(Iterate(c.update, c.seed, 0));
    }
  }

  /** None when the closing assertion fails, that is for fewer than one round. */
  method GenerateRoundConstants(c: Cipher) returns (r: Option<seq<int>>)
    ensures r == if c.numRounds >= 1 then Some(Constants(c, c.numRounds)) else None
    ensures r.Some? ==> |r.value| == c.numRounds && r.value[0] == 0
    ensures r.Some? && |r.value| >= 2 ==> r.value[1] == c.update(c.seed)
    ensures r.Some? ==> forall i :: 2 <= i < |r.value| ==> r.value[i] == c.update(r.value[i - 1])
  {
    var rc := c.seed;
    var rcs := [0];
    var i := 1;
    ConstantsSnoc(c, 0);
    while i < c.numRounds
      invariant 1 <= i && (i <= c.numRounds || i == 1)
      invariant rc == Iterate(c.update, c.seed, i - 1) && rcs == Constants(c, i)
    {
      rc := c.update(rc);
      rcs := rcs + [rc];
      ConstantsSnoc(c, i);
      i := i + 1;
    }
    if |rcs| != c.numRounds {
      return None;
    }
    ConstantsMeaning(c, c.numRounds);
    return Some(rcs);
  }

  // ----- Encryption

  /** Apply the rounds with these constants, in order. */
  function Rounds(c: Cipher, rcs: seq<int>, x: int, key: int): (r: int)
    requires c.prime > 0
    ensures 0 <= x < c.prime ==> 0 <= r < c.prime
  {
    if rcs == [] then x else Round(c, Rounds(c, rcs[..|rcs| - 1], x, key), key, rcs[|rcs| - 1])
  }

  function Encrypted(c: Cipher, rcs: seq<int>, message: int, ek: int): (r: int)
    requires c.prime > 0
    ensures 0 <= r < c.prime
  {
    var key := ek % c.prime;
    (Rounds(c, rcs, message % c.prime, key) + key) % c.prime
  }

  function NumConstants(c: Cipher): nat
  {
    if c.numRounds < 1 then 1 else c.numRounds
  }

  /** The constant stream computed inline is the precomputed list: encryption folds the round
      function over it and adds the key. */
  method Encrypt(c: Cipher, message: int, ek: int) returns (r: int)
    requires c.prime > 0
    ensures r == Encrypted(c, Constants(c, NumConstants(c)), message, ek)
  {
    var key := ek % c.prime;
    var roundConstant := c.seed;
    var result := Round(c, message % c.prime, key, 0);
    ghost var x := message % c.prime;
    var i := 0;
    ConstantsSnoc(c, 0);
    while i < c.numRounds - 1
      invariant 0 <= i && i + 1 <= NumConstants(c)
      invariant roundConstant == Iterate(c.update, c.seed, i)
      invariant result == Rounds(c, Constants(c, i + 1), x, key)
    {
      roundConstant := c.update(roundConstant);
      result := Round(c, result, key, roundConstant);
      ConstantsSnoc(c, i + 1);
      i := i + 1;
    }
    r := (result + key) % c.prime;
  }

  // ----- Decryption: rounds are invertible

  /** Raising to the power d undoes raising to the cipher's exponent. */
  ghost predicate Undoes(c: Cipher, d: nat)
  {
    exists k: nat :: UndoesWith(c, d, k)
  }

  predicate UndoesWith(c: Cipher, d: nat, k: nat)
  {
    c.exponent * d == 1 + k * (c.prime - 1)
  }

  function RootStep(r: int): nat
  {
    [0, 16, 8, 11, 4, 10, 14, 12, 2, 15, 5, 3, 7, 13, 6, 9, 1][if 0 <= r < 17 then r else 0]
  }

  /** If 17 does not divide p - 1 (so that gcd(17, p - 1) = 1), 17th roots exist. */
  lemma RootExponent(c: Cipher) returns (d: nat)
    requires c.prime >= 2 && c.exponent == 17 && (c.prime - 1) % 17 != 0
    ensures Undoes(c, d)
  {
    var q, r := (c.prime - 1) / 17, (c.prime - 1) % 17;
    var k := RootStep(r);
    RootStepWorks(r);
    var m := (1 + k * r) / 17;
    d := k * q + m;
    Distribute(k, q, r);
    assert UndoesWith(c, d, k);
  }

  lemma RootStepWorks(r: int)
    requires 0 < r < 17
    ensures (1 + RootStep(r) * r) % 17 == 0
  {}

  lemma Distribute(k: int, q: int, r: int)
    ensures k * (17 * q + r) == 17 * (k * q) + k * r
  {}

  function Unround(c: Cipher, d: nat, z: int, key: int, rc: int): (r: int)
    requires c.prime > 0
    ensures 0 <= r < c.prime
  {
    (Pow(z, d) - key - rc) % c.prime
  }

  lemma PowCycle(p: int, u: int, n: nat, k: nat)
    requires Prime(p) && n == 1 + k * (p - 1)
    ensures Cong(Pow(u, n), u, p)
  {
    CongMod(u, p);
    CongPow(u, u % p, n, p);
    PowIdentity(p, u % p, k);
    CongTrans(Pow(u, n), Pow(u % p, n), u % p, p);
    CongTrans(Pow(u, n), u % p, u, p);
  }

  /** Raising to the power a and then to the power b comes back to the start. */
  lemma PowBack(p: int, u: int, z: int, a: nat, b: nat, k: nat)
    requires Prime(p) && a * b == 1 + k * (p - 1)
    requires Cong(z, Pow(u, a), p)
    ensures Cong(Pow(z, b), u, p)
  {
    CongPow(z, Pow(u, a), b, p);
    PowMul(u, a, b);
    PowCycle(p, u, a * b, k);
    CongTrans(Pow(z, b), Pow(u, a * b), u, p);
  }

  lemma UnroundRound(c: Cipher, d: nat, m: int, key: int, rc: int)
    requires Prime(c.prime) && Undoes(c, d) && 0 <= m < c.prime
    ensures Unround(c, d, Round(c, m, key, rc), key, rc) == m
  {
    var p, u := c.prime, m + key + rc;
    var z := Round(c, m, key, rc);
    CongMod(Pow(u, c.exponent), p);
    var k: nat :| UndoesWith(c, d, k);
    PowBack(p, u, z, c.exponent, d, k);
    CongRefl(-key - rc, p);
    CongAdd(Pow(z, d), u, -key - rc, -key - rc, p);
    CongModEqual(Pow(z, d) - key - rc, m, p);
    CongMod(m, p);
    CongEqual(m % p, m, p);
  }

  lemma RoundUnround(c: Cipher, d: nat, z: int, key: int, rc: int)
    requires Prime(c.prime) && Undoes(c, d) && 0 <= z < c.prime
    ensures Round(c, Unround(c, d, z, key, rc), key, rc) == z
  {
    var p, w := c.prime, Unround(c, d, z, key, rc);
    CongMod(Pow(z, d) - key - rc, p);
    CongRefl(key + rc, p);
    CongAdd(w, Pow(z, d) - key - rc, key + rc, key + rc, p);
    var k: nat :| UndoesWith(c, d, k);
    PowBack(p, z, w + key + rc, d, c.exponent, k);
    CongModEqual(Pow(w + key + rc, c.exponent), z, p);
    CongMod(z, p);
    CongEqual(z % p, z, p);
  }

  function Unrounds(c: Cipher, d: nat, rcs: seq<int>, z: int, key: int): (r: int)
    requires c.prime > 0
    ensures 0 <= z < c.prime ==> 0 <= r < c.prime
  {
    if rcs == [] then z else Unrounds(c, d, rcs[..|rcs| - 1], Unround(c, d, z, key, rcs[|rcs| - 1]), key)
  }

  lemma {:induction false} RoundsInverse(c: Cipher, d: nat, rcs: seq<int>, x: int, key: int)
    requires Prime(c.prime) && Undoes(c, d) && 0 <= x < c.prime
    ensures Unrounds(c, d, rcs, Rounds(c, rcs, x, key), key) == x
    ensures Rounds(c, rcs, Unrounds(c, d, rcs, x, key), key) == x
    decreases |rcs|
  {
    if rcs != [] {
      var init, rc := rcs[..|rcs| - 1], rcs[|rcs| - 1];
      UnroundRound(c, d, Rounds(c, init, x, key), key, rc);
      RoundsInverse(c, d, init, x, key);
      RoundUnround(c, d, x, key, rc);
      RoundsInverse(c, d, init, Unround(c, d, x, key, rc), key);
    }
  }

  function Decrypted(c: Cipher, d: nat, rcs: seq<int>, z: int, ek: int): (r: int)
    requires c.prime > 0
    ensures 0 <= r < c.prime
  {
    var key := ek % c.prime;
    Unrounds(c, d, rcs, (z - key) % c.prime, key)
  }

  lemma ShiftBack(a: int, key: int, p: int)
    requires p > 0 && 0 <= a < p
    ensures ((a + key) % p - key) % p == a
    ensures ((a - key) % p + key) % p == a
  {
    CongMod(a + key, p);
    CongRefl(-key, p);
    CongAdd((a + key) % p, a + key, -key, -key, p);
    CongModEqual((a + key) % p - key, a, p);
    CongMod(a - key, p);
    CongRefl(key, p);
    CongAdd((a - key) % p, a - key, key, key, p);
    CongModEqual((a - key) % p + key, a, p);
    CongMod(a, p);
    CongEqual(a % p, a, p);
  }

  lemma DecryptInverse(c: Cipher, d: nat, rcs: seq<int>, x: int, ek: int)
    requires Prime(c.prime) && Undoes(c, d) && 0 <= x < c.prime
    ensures Decrypted(c, d, rcs, Encrypted(c, rcs, x, ek), ek) == x
    ensures Encrypted(c, rcs, Decrypted(c, d, rcs, x, ek), ek) == x
  {
    var p, key := c.prime, ek % c.prime;
    CongMod(x, p);
    CongEqual(x % p, x, p);
    RoundsInverse(c, d, rcs, x, key);
    ShiftBack(Rounds(c, rcs, x, key), key, p);
    var y := (x - key) % p;
    var m := Unrounds(c, d, rcs, y, key);
    CongMod(m, p);
    CongEqual(m % p, m, p);
    RoundsInverse(c, d, rcs, y, key);
    ShiftBack(x, key, p);
  }

  ghost predicate IsCiphertext(c: Cipher, rcs: seq<int>, z: int, ek: int)
    requires c.prime > 0
  {
    exists x :: 0 <= x < c.prime && Encrypted(c, rcs, x, ek) == z
  }

  /** Encryption is one-to-one and onto on [0, p). */
  ghost predicate Permutes(c: Cipher, rcs: seq<int>, ek: int)
    requires c.prime > 0
  {
    && (forall x, y :: 0 <= x < c.prime && 0 <= y < c.prime && Encrypted(c, rcs, x, ek) == Encrypted(c, rcs, y, ek) ==>
          x == y)
    && (forall z :: 0 <= z < c.prime ==> IsCiphertext(c, rcs, z, ek))
  }

  /** For every key, number of rounds and prime p with gcd(17, p - 1) = 1, encryption permutes
      [0, p): it is one-to-one and onto. */
  lemma EncryptIsPermutation(c: Cipher, rcs: seq<int>, ek: int)
    requires Prime(c.prime) && c.exponent == 17 && (c.prime - 1) % 17 != 0
    ensures Permutes(c, rcs, ek)
  {
    var d := RootExponent(c);
    forall x, y | 0 <= x < c.prime && 0 <= y < c.prime && Encrypted(c, rcs, x, ek) == Encrypted(c, rcs, y, ek)
      ensures x == y
    {
      DecryptInverse(c, d, rcs, x, ek);
      DecryptInverse(c, d, rcs, y, ek);
    }
    forall z | 0 <= z < c.prime
      ensures IsCiphertext(c, rcs, z, ek)
    {
      DecryptInverse(c, d, rcs, z, ek);
      assert Encrypted(c, rcs, Decrypted(c, d, rcs, z, ek), ek) == z;
    }
  }

  /** x - k, reduced, plus k is x again. */
  lemma Recentred(x: int, k: int, p: int)
    requires p > 0
    ensures Cong((x - k) % p + k, x, p)
  {
    CongMod(x - k, p);
    CongRefl(k, p);
    CongAdd((x - k) % p, x - k, k, k, p);
  }

  /** A message that the round sends to 1, for a given 17th root w of 1. */
  lemma RoundToOne(c: Cipher, w: int, key: int, rc: int)
    requires c.prime > 0 && Cong(Pow(w, c.exponent), 1, c.prime)
    ensures Round(c, (w - (key + rc)) % c.prime, key, rc) == 1 % c.prime
  {
    var p, m := c.prime, (w - (key + rc)) % c.prime;
    Recentred(w, key + rc, p);
    assert m + key + rc == m + (key + rc);
    CongPow(m + key + rc, w, c.exponent, p);
    CongTrans(Pow(m + key + rc, c.exponent), Pow(w, c.exponent), 1, p);
    CongModEqual(Pow(m + key + rc, c.exponent), 1, p);
  }

  /** If 17 divides p - 1, every round sends two different messages to one. */
  lemma RoundCollision(c: Cipher, key: int, rc: int) returns (x: int, y: int)
    requires Prime(c.prime) && c.exponent == 17 && (c.prime - 1) % 17 == 0
    ensures 0 <= x < c.prime && 0 <= y < c.prime && x != y && Round(c, x, key, rc) == Round(c, y, key, rc)
  {
    var p, k := c.prime, key + rc;
    var w := RootOfUnity(p, 17);
    x, y := (1 - k) % p, (w - k) % p;
    PowOne(17);
    CongRefl(1, p);
    RoundToOne(c, 1, key, rc);
    RoundToOne(c, w, key, rc);
    if x == y {
      Recentred(1, k, p);
      Recentred(w, k, p);
      CongSym(x + k, 1, p);
      CongTrans(1, x + k, w, p);
      CongEqual(1, w, p);
    }
  }

  lemma {:induction false} LaterRounds(c: Cipher, rcs: seq<int>, x: int, y: int, key: int)
    requires c.prime > 0 && rcs != [] && Round(c, x, key, rcs[0]) == Round(c, y, key, rcs[0])
    ensures Rounds(c, rcs, x, key) == Rounds(c, rcs, y, key)
    decreases |rcs|
  {
    if |rcs| > 1 {
      LaterRounds(c, rcs[..|rcs| - 1], x, y, key);
    }
  }

  /** So encryption then sends two different messages to one. */
  lemma EncryptCollision(c: Cipher, rcs: seq<int>, ek: int) returns (x: int, y: int)
    requires Prime(c.prime) && c.exponent == 17 && (c.prime - 1) % 17 == 0 && rcs != []
    ensures 0 <= x < c.prime && 0 <= y < c.prime && x != y && Encrypted(c, rcs, x, ek) == Encrypted(c, rcs, y, ek)
  {
    var p, key := c.prime, ek % c.prime;
    x, y := RoundCollision(c, key, rcs[0]);
    LaterRounds(c, rcs, x, y, key);
    CongMod(x, p);
    CongEqual(x % p, x, p);
    CongMod(y, p);
    CongEqual(y % p, y, p);
  }

  /** For every key, prime and positive number of rounds, encryption is a permutation of [0, p)
      if and only if gcd(17, p - 1) = 1. */
  lemma PermutesIff(c: Cipher, rcs: seq<int>, ek: int)
    requires Prime(c.prime) && c.exponent == 17 && rcs != []
    ensures Permutes(c, rcs, ek) <==> (c.prime - 1) % 17 != 0
  {
    if (c.prime - 1) % 17 != 0 {
      EncryptIsPermutation(c, rcs, ek);
    } else {
      var x, y := EncryptCollision(c, rcs, ek);
    }
  }

  const ALT_BN128_PRIME := 21888242871839275222246405745257275088548364400416034343698204186575808495617
  const BLS12_377_PRIME := 8444461749428370424248824938781546531375899335154063827935233455917409239041

  /** Both fields the client uses meet the condition on 17. */
  lemma DeployedPrimes()
    ensures (ALT_BN128_PRIME - 1) % 17 != 0 && (BLS12_377_PRIME - 1) % 17 != 0
  {}

  // ----- Compression and the input hasher

  /** Miyaguchi-Preneel on field elements. */
  function HashInt(c: Cipher, rcs: seq<int>, x: int, y: int): (r: int)
    requires c.prime > 0
    ensures 0 <= r < c.prime
  {
    (Encrypted(c, rcs, x, y) + x + y) % c.prime
  }

  /** Taking the two arguments off the hash and decrypting under the second gives the first: y is
      the key, x the message, and both are fed forward. */
  lemma HashIntOpens(c: Cipher, d: nat, rcs: seq<int>, x: int, y: int)
    requires Prime(c.prime) && Undoes(c, d) && 0 <= x < c.prime && 0 <= y < c.prime
    ensures Decrypted(c, d, rcs, (HashInt(c, rcs, x, y) - x - y) % c.prime, y) == x
  {
    var e, p := Encrypted(c, rcs, x, y), c.prime;
    assert HashInt(c, rcs, x, y) == (e + (x + y)) % p;
    ShiftBack(e, x + y, p);
    DecryptInverse(c, d, rcs, x, y);
  }

  /** One round without constants, as the smallest example: (x + y)^17 + x + 2y. */
  lemma HashIntOfOneRound(c: Cipher, x: int, y: int)
    requires c.prime > 0 && 0 <= x < c.prime && 0 <= y < c.prime
    ensures Cong(HashInt(c, [0], x, y), Pow(x + y, c.exponent) + x + 2 * y, c.prime)
  {
    var p, n := c.prime, Pow(x + y, c.exponent);
    CongMod(x, p);
    CongEqual(x % p, x, p);
    CongMod(y, p);
    CongEqual(y % p, y, p);
    assert Rounds(c, [0], x, y) == n % p by {
      assert [0][..0] == [];
      assert Rounds(c, [0], x, y) == Round(c, Rounds(c, [0][..0], x, y), y, 0);
    }
    var e := (n % p + y) % p;
    assert Encrypted(c, [0], x, y) == e;
    CongMod(n, p);
    CongRefl(y, p);
    CongAdd(n % p, n, y, y, p);
    CongMod(n % p + y, p);
    CongTrans(e, n % p + y, n + y, p);
    CongRefl(x + y, p);
    CongAdd(e, n + y, x + y, x + y, p);
    CongMod(e + x + y, p);
    CongTrans((e + x + y) % p, e + (x + y), (n + y) + (x + y), p);
  }

  /** Compress the values one after the other into the chaining value. */
  function Chain(c: Cipher, rcs: seq<int>, iv: int, values: seq<int>): (r: int)
    requires c.prime > 0
    ensures 0 <= iv < c.prime ==> 0 <= r < c.prime
  {
    if values == [] then iv else HashInt(c, rcs, Chain(c, rcs, iv, values[..|values| - 1]), values[|values| - 1])
  }

  function InputHash(c: Cipher, rcs: seq<int>, iv: int, values: seq<int>): (r: int)
    requires c.prime > 0
  {
    HashInt(c, rcs, Chain(c, rcs, iv % c.prime, values), |values|)
  }

  /** The values go in from the first to the last. */
  lemma {:induction false} ChainFront(c: Cipher, rcs: seq<int>, iv: int, v: int, values: seq<int>)
    requires c.prime > 0
    ensures Chain(c, rcs, iv, []) == iv
    ensures Chain(c, rcs, iv, [v] + values) == Chain(c, rcs, HashInt(c, rcs, iv, v), values)
    decreases |values|
  {
    if values == [] {
      assert [v] + values == [v] && [v][..0] == [];
      assert Chain(c, rcs, iv, [v]) == HashInt(c, rcs, Chain(c, rcs, iv, [v][..0]), v);
    } else {
      ChainFront(c, rcs, iv, v, values[..|values| - 1]);
      assert ([v] + values)[..|values|] == [v] + values[..|values| - 1];
    }
  }

  /** The hashes of the shortest lists: the reduced initial value, the values, then the length. */
  lemma InputHashOfShort(c: Cipher, rcs: seq<int>, iv: int, v: int, w: int)
    requires c.prime > 0
    ensures
      var h0 := iv % c.prime;
      var h1 := HashInt(c, rcs, h0, v);
      && InputHash(c, rcs, iv, []) == HashInt(c, rcs, h0, 0)
      && InputHash(c, rcs, iv, [v]) == HashInt(c, rcs, h1, 1)
      && InputHash(c, rcs, iv, [v, w]) == HashInt(c, rcs, HashInt(c, rcs, h1, w), 2)
  {
    var h0 := iv % c.prime;
    var h1 := HashInt(c, rcs, h0, v);
    ChainFront(c, rcs, h0, v, []);
    ChainFront(c, rcs, h0, v, [w]);
    ChainFront(c, rcs, h1, w, []);
    assert [v] + [] == [v] && [w] + [] == [w] && [v] + [w] == [v, w];
  }

  predicate InField(c: Cipher, values: seq<int>)
  {
    |values| < c.prime && forall i :: 0 <= i < |values| ==> 0 <= values[i] < c.prime
  }

  /** None is a failed range assertion in hash_int. */
  method HashIntChecked(c: Cipher, x: int, y: int) returns (r: Option<int>)
    requires c.prime > 0
    ensures r == if x < c.prime && y < c.prime then Some(HashInt(c, Constants(c, NumConstants(c)), x, y)) else None
  {
    if x >= c.prime || y >= c.prime {
      return None;
    }
    var e := Encrypt(c, x, y);
    return Some((e + x + y) % c.prime);
  }

  /** Fails exactly if a value, or the number of values, is not below the prime. */
  method Hash(c: Cipher, iv: int, values: seq<int>) returns (r: Option<int>)
    requires c.prime > 0
    ensures r.Some? <==> |values| < c.prime && forall i :: 0 <= i < |values| ==> values[i] < c.prime
    ensures r.Some? ==> r.value == InputHash(c, Constants(c, NumConstants(c)), iv, values)
  {
    var current := iv % c.prime;
    ghost var rcs := Constants(c, NumConstants(c));
    for i := 0 to |values|
      invariant current == Chain(c, rcs, iv % c.prime, values[..i])
      invariant forall j :: 0 <= j < i ==> values[j] < c.prime
    {
      var next := HashIntChecked(c, current, values[i]);
      if next.None? {
        return None;
      }
      assert values[..i + 1][..i] == values[..i];
      current := next.value;
    }
    assert values[..|values|] == values;
    r := HashIntChecked(c, current, |values|);
  }

  datatype Collision = Collision(x: int, y: int, x': int, y': int)

  predicate Collides(c: Cipher, rcs: seq<int>, k: Collision)
    requires c.prime > 0
  {
    && 0 <= k.x < c.prime && 0 <= k.y < c.prime && 0 <= k.x' < c.prime && 0 <= k.y' < c.prime
    && (k.x, k.y) != (k.x', k.y')
    && HashInt(c, rcs, k.x, k.y) == HashInt(c, rcs, k.x', k.y')
  }

  /** Two equally long chains with one result contain a collision of the compression function. */
  lemma {:induction false} ChainCollision(c: Cipher, rcs: seq<int>, iv: int, v: seq<int>, w: seq<int>)
    returns (k: Collision)
    requires c.prime > 0 && 0 <= iv < c.prime
    requires |v| == |w| && v != w && InField(c, v) && InField(c, w)
    ensures Chain(c, rcs, iv, v) == Chain(c, rcs, iv, w) ==> Collides(c, rcs, k)
    decreases |v|
  {
    var v0, w0 := v[..|v| - 1], w[..|w| - 1];
    var x, y, x', y' := Chain(c, rcs, iv, v0), v[|v| - 1], Chain(c, rcs, iv, w0), w[|w| - 1];
    if (x, y) != (x', y') {
      k := Collision(x, y, x', y');
    } else {
      assert v == v0 + [y] && w == w0 + [y'];
      k := ChainCollision(c, rcs, iv, v0, w0);
    }
  }

  /** If two different lists of field elements have the same hash, whether or not they are
      equally long, this finds a collision of the compression function. */
  lemma HasherCollision(c: Cipher, rcs: seq<int>, iv: int, v: seq<int>, w: seq<int>) returns (k: Collision)
    requires c.prime > 0 && v != w && InField(c, v) && InField(c, w)
    ensures InputHash(c, rcs, iv, v) == InputHash(c, rcs, iv, w) ==> Collides(c, rcs, k)
  {
    var iv' := iv % c.prime;
    var x, x' := Chain(c, rcs, iv', v), Chain(c, rcs, iv', w);
    if (x, |v|) != (x', |w|) {
      k := Collision(x, |v|, x', |w|);
    } else {
      k := ChainCollision(c, rcs, iv', v, w);
    }
  }
}
