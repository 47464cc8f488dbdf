/** The Merkle tree over MiMC, the client's tree hash: digests are reduced modulo the prime before
    they are hashed, so only digests that differ as field elements are bound by a root. */
module MimcTree {
  import opened Bytes
  import opened PrimeField
  import opened Numerals
  import opened Encodings
  import opened MerkleSpec
  import M = MiMC
  import T = MerkleTree

  const DIGEST_BYTES := 32

  // ----- Numbers as bytes

  /** v.to_bytes(n, 'big') */
  function ToBytes(v: nat, n: nat): (b: Bytes)
    ensures |b| == n
    decreases n
  {
    if n == 0 then [] else ToBytes(v / 256, n - 1) + [(v % 256) as byte]
  }

  /** int.from_bytes(b, 'big') */
  function FromBytes(b: Bytes): nat
  {
    Value(ByteDigits(b), 256)
  }

  lemma {:induction false} ToBytesDigits(v: nat, n: nat)
    ensures ByteDigits(ToBytes(v, n)) == ToDigits(v, 256, n)
    decreases n
  {
    if n > 0 {
      ToBytesDigits(v / 256, n - 1);
    }
  }

  lemma FromToBytes(v: nat, n: nat)
    requires v < Pow(256, n)
    ensures FromBytes(ToBytes(v, n)) == v
  {
    ToBytesDigits(v, n);
    ValueOfToDigits(v, 256, n);
  }

  /** The padding leaf is 32 bytes that denote zero. */
  lemma PaddingIsZero()
    ensures |ZERO_ENTRY| == 32 && FromBytes(ZERO_ENTRY) == 0
  {
    ZerosDenoteZero(ByteDigits(ZERO_ENTRY));
  }

  lemma {:induction false} ZerosDenoteZero(ds: seq<nat>)
    requires forall i :: 0 <= i < |ds| ==> ds[i] == 0
    ensures Value(ds, 256) == 0
  {
    if ds != [] {
      ZerosDenoteZero(ds[..|ds| - 1]);
    }
  }

  // ----- The tree hash

  ghost predicate FitsDigest(c: M.Cipher)
  {
    0 < c.prime <= Pow(256, DIGEST_BYTES)
  }

  /** The field element that a digest stands for. */
  function Element(c: M.Cipher, b: Bytes): (x: int)
    requires c.prime > 0
    ensures 0 <= x < c.prime
  {
    FromBytes(b) % c.prime
  }

  function MimcHash(c: M.Cipher, rcs: seq<int>): TreeHash
    requires c.prime > 0
  {
    (l, r) => ToBytes(M.HashInt(c, rcs, Element(c, l), Element(c, r)), DIGEST_BYTES)
  }

  /** The digest that is written for the same field element. */
  function Reduced(c: M.Cipher, b: Bytes): Bytes
    requires c.prime > 0
  {
    ToBytes(Element(c, b), DIGEST_BYTES)
  }

  function ReducedAll(c: M.Cipher, s: seq<Bytes>): (r: seq<Bytes>)
    requires c.prime > 0
    ensures |r| == |s| && forall i :: 0 <= i < |s| ==> r[i] == Reduced(c, s[i])
  {
    seq(|s|, i requires 0 <= i < |s| => Reduced(c, s[i]))
  }

  lemma ElementOfWritten(c: M.Cipher, x: int)
    requires FitsDigest(c) && 0 <= x < c.prime
    ensures Element(c, ToBytes(x, DIGEST_BYTES)) == x
  {
    FromToBytes(x, DIGEST_BYTES);
    CongMod(x, c.prime);
    CongEqual(x % c.prime, x, c.prime);
  }

  lemma ReducedTwice(c: M.Cipher, b: Bytes)
    requires FitsDigest(c)
    ensures Element(c, Reduced(c, b)) == Element(c, b) && Reduced(c, Reduced(c, b)) == Reduced(c, b)
  {
    ElementOfWritten(c, Element(c, b));
  }

  /** A digest in the form in which hashes are written. */
  predicate IsReduced(c: M.Cipher, b: Bytes)
    requires c.prime > 0
  {
    Reduced(c, b) == b
  }

  lemma MimcYields(c: M.Cipher, rcs: seq<int>, good: Digest -> bool)
    requires FitsDigest(c) && forall b :: good(b) <==> IsReduced(c, b)
    ensures Yields(MimcHash(c, rcs), good)
  {
    forall l, r
      ensures good(MimcHash(c, rcs)(l, r))
    {
      ElementOfWritten(c, M.HashInt(c, rcs, Element(c, l), Element(c, r)));
    }
  }

  lemma MimcIgnoresReduction(c: M.Cipher, rcs: seq<int>, l: Bytes, r: Bytes)
    requires FitsDigest(c)
    ensures MimcHash(c, rcs)(Reduced(c, l), Reduced(c, r)) == MimcHash(c, rcs)(l, r)
    ensures IsReduced(c, MimcHash(c, rcs)(l, r))
  {
    ReducedTwice(c, l);
    ReducedTwice(c, r);
    ElementOfWritten(c, M.HashInt(c, rcs, Element(c, l), Element(c, r)));
  }

  /** A collision of the tree hash on reduced digests is one of hash_int on field elements. */
  lemma FieldCollision(c: M.Cipher, rcs: seq<int>, k: Collision) returns (f: M.Collision)
    requires FitsDigest(c) && Collides(MimcHash(c, rcs), k)
    requires IsReduced(c, k.left) && IsReduced(c, k.right) && IsReduced(c, k.left') && IsReduced(c, k.right')
    ensures M.Collides(c, rcs, f)
  {
    f := M.Collision(Element(c, k.left), Element(c, k.right), Element(c, k.left'), Element(c, k.right'));
    ElementOfWritten(c, M.HashInt(c, rcs, f.x, f.y));
    ElementOfWritten(c, M.HashInt(c, rcs, f.x', f.y'));
  }

  // ----- Openings

  lemma {:induction false} FoldIgnoresReduction(c: M.Cipher, rcs: seq<int>, leaf: Bytes, path: seq<Bytes>, address: nat)
    requires FitsDigest(c) && path != []
    ensures FoldPath(MimcHash(c, rcs), leaf, path, address)
         == FoldPath(MimcHash(c, rcs), Reduced(c, leaf), ReducedAll(c, path), address)
    decreases |path|
  {
    var h := MimcHash(c, rcs);
    var parent := if address % 2 == 1 then h(path[0], leaf) else h(leaf, path[0]);
    MimcIgnoresReduction(c, rcs, path[0], leaf);
    MimcIgnoresReduction(c, rcs, leaf, path[0]);
    assert ReducedAll(c, path)[1..] == ReducedAll(c, path[1..]);
    if path[1..] != [] {
      FoldIgnoresReduction(c, rcs, parent, path[1..], address / 2);
    }
  }

  /** A second opening of an address against the root of a MiMC tree that differs in some field
      element yields a collision of hash_int. */
  lemma OpeningIsBindingInField(c: M.Cipher, rcs: seq<int>, leaves: seq<Bytes>, depth: nat, address: nat,
                                leaf': Bytes, path': seq<Bytes>) returns (f: M.Collision)
    requires FitsDigest(c) && depth > 0 && |leaves| <= Pow2(depth) && address < Pow2(depth) && |path'| == depth
    requires
      var h := MimcHash(c, rcs);
      || Reduced(c, leaf') != Reduced(c, Node(h, leaves, 0, address))
      || ReducedAll(c, path') != ReducedAll(c, SiblingPath(h, leaves, address, 0, depth))
    ensures
      var h := MimcHash(c, rcs);
      FoldPath(h, leaf', path', address) == RootOf(h, Padded(leaves, Pow2(depth)), depth) ==> M.Collides(c, rcs, f)
  {
    var h := MimcHash(c, rcs);
    var leaf, path := Node(h, leaves, 0, address), SiblingPath(h, leaves, address, 0, depth);
    f := M.Collision(0, 0, 0, 0);
    if FoldPath(h, leaf', path', address) == RootOf(h, Padded(leaves, Pow2(depth)), depth) {
      T.PathOpensRoot(h, leaves, address, depth);
      f := OpeningsCollide(c, rcs, leaf, path, leaf', path', address);
    }
  }

  lemma OpeningsCollide(c: M.Cipher, rcs: seq<int>, leaf: Bytes, path: seq<Bytes>, leaf': Bytes, path': seq<Bytes>,
                        address: nat)
    returns (f: M.Collision)
    requires FitsDigest(c) && path != [] && |path| == |path'|
    requires Reduced(c, leaf') != Reduced(c, leaf) || ReducedAll(c, path') != ReducedAll(c, path)
    requires FoldPath(MimcHash(c, rcs), leaf, path, address) == FoldPath(MimcHash(c, rcs), leaf', path', address)
    ensures M.Collides(c, rcs, f)
  {
    var h, good := MimcHash(c, rcs), b => IsReduced(c, b);
    FoldIgnoresReduction(c, rcs, leaf, path, address);
    FoldIgnoresReduction(c, rcs, leaf', path', address);
    var l, p, l', p' := Reduced(c, leaf), ReducedAll(c, path), Reduced(c, leaf'), ReducedAll(c, path');
    MimcYields(c, rcs, good);
    ReducedTwice(c, leaf);
    ReducedTwice(c, leaf');
    ReducedAllGood(c, path, good);
    ReducedAllGood(c, path', good);
    PathCollisionGood(h, l, p, l', p', address, good);
    f := FieldCollision(c, rcs, PathCollision(h, l, p, l', p', address));
  }

  lemma ReducedAllGood(c: M.Cipher, s: seq<Bytes>, good: Digest -> bool)
    requires FitsDigest(c) && forall b :: good(b) <==> IsReduced(c, b)
    ensures AllGood(ReducedAll(c, s), good)
  {
    forall i | 0 <= i < |s|
      ensures good(ReducedAll(c, s)[i])
    {
      ReducedTwice(c, s[i]);
    }
  }

  // ----- Roots

  /** The hash does not tell these leaves apart. */
  ghost predicate Alike(h: TreeHash, s: seq<Bytes>, t: seq<Bytes>)
  {
    |s| == |t| && forall i, j :: 0 <= i < |s| && 0 <= j < |s| ==> h(s[i], s[j]) == h(t[i], t[j])
  }

  lemma {:induction false} AlikeRoots(h: TreeHash, s: seq<Bytes>, t: seq<Bytes>, depth: nat)
    requires depth > 0 && |s| == |t| == Pow2(depth) && Alike(h, s, t)
    ensures RootOf(h, s, depth) == RootOf(h, t, depth)
    decreases depth
  {
    if depth == 1 {
      PairRoot(h, s);
      PairRoot(h, t);
    } else {
      var half := Pow2(depth - 1);
      AlikeRoots(h, s[..half], t[..half], depth - 1);
      AlikeRoots(h, s[half..], t[half..], depth - 1);
    }
  }

  lemma PairRoot(h: TreeHash, s: seq<Bytes>)
    requires |s| == Pow2(1)
    ensures |s| == 2 && RootOf(h, s, 1) == h(s[0], s[1])
  {
    assert Pow2(1) == 2 && Pow2(0) == 1;
    assert RootOf(h, s[..1], 0) == s[0] && RootOf(h, s[1..], 0) == s[1];
  }

  lemma RootIgnoresReduction(c: M.Cipher, rcs: seq<int>, s: seq<Bytes>, depth: nat)
    requires FitsDigest(c) && depth > 0 && |s| == Pow2(depth)
    ensures RootOf(MimcHash(c, rcs), ReducedAll(c, s), depth) == RootOf(MimcHash(c, rcs), s, depth)
  {
    var h, t := MimcHash(c, rcs), ReducedAll(c, s);
    forall i, j | 0 <= i < |s| && 0 <= j < |s|
      ensures h(s[i], s[j]) == h(t[i], t[j])
    {
      MimcIgnoresReduction(c, rcs, s[i], s[j]);
    }
    AlikeRoots(h, s, t, depth);
  }

  /** Two full leaf lists that differ in some field element and have one root yield a collision of
      hash_int. */
  lemma RootIsBindingInField(c: M.Cipher, rcs: seq<int>, a: seq<Bytes>, b: seq<Bytes>, depth: nat)
    returns (f: M.Collision)
    requires FitsDigest(c) && depth > 0 && |a| == |b| == Pow2(depth) && ReducedAll(c, a) != ReducedAll(c, b)
    ensures RootOf(MimcHash(c, rcs), a, depth) == RootOf(MimcHash(c, rcs), b, depth) ==> M.Collides(c, rcs, f)
  {
    var h, good := MimcHash(c, rcs), x => IsReduced(c, x);
    f := M.Collision(0, 0, 0, 0);
    if RootOf(h, a, depth) == RootOf(h, b, depth) {
      RootIgnoresReduction(c, rcs, a, depth);
      RootIgnoresReduction(c, rcs, b, depth);
      MimcYields(c, rcs, good);
      ReducedAllGood(c, a, good);
      ReducedAllGood(c, b, good);
      RootCollisionGood(h, ReducedAll(c, a), ReducedAll(c, b), depth, good);
      f := FieldCollision(c, rcs, RootCollision(h, ReducedAll(c, a), ReducedAll(c, b), depth));
    }
  }

  /** Digests that differ by the prime are hashed alike: byte-wise collisions are free. */
  lemma AddingPrimeCollides(c: M.Cipher, rcs: seq<int>, l: Bytes, l': Bytes, r: Bytes)
    requires c.prime > 0 && FromBytes(l') == FromBytes(l) + c.prime
    ensures Collides(MimcHash(c, rcs), Collision(l, r, l', r))
  {
    CongIntro(FromBytes(l'), FromBytes(l), c.prime, 1);
    CongModEqual(FromBytes(l'), FromBytes(l), c.prime);
  }
}
