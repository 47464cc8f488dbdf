/** Reference definitions for the client Merkle tree, and their laws.

    `Node(h, leaves, k, i)` is node `i` of height `k` (height 0 are the leaves) in the binary
    hash tree over `leaves`, padded on the right with ZERO_ENTRY. Nothing here knows about
    stored layers, default values or incremental updates. */
module MerkleSpec {
  import opened Bytes

  type Digest = Bytes
  type TreeHash = (Digest, Digest) -> Digest

  const ZERO_ENTRY: Digest := seq(32, _ => 0)

  function Pow2(n: nat): (r: nat)
    ensures r >= 1
  {
    if n == 0 then 1 else 2 * Pow2(n - 1)
  }

  /** Root of a full list of 2^depth leaves, by splitting it in two halves. */
  function RootOf(h: TreeHash, s: seq<Digest>, depth: nat): Digest
    requires |s| == Pow2(depth)
  {
    if depth == 0 then s[0]
    else
      var half := Pow2(depth - 1);
      h(RootOf(h, s[..half], depth - 1), RootOf(h, s[half..], depth - 1))
  }

  function Padded(leaves: seq<Digest>, size: nat): (r: seq<Digest>)
    requires |leaves| <= size
  {
    leaves + seq(size - |leaves|, _ => ZERO_ENTRY)
  }

  function Node(h: TreeHash, leaves: seq<Digest>, k: nat, i: nat): Digest
  {
    if k == 0 then (if i < |leaves| then leaves[i] else ZERO_ENTRY)
    else h(Node(h, leaves, k - 1, 2 * i), Node(h, leaves, k - 1, 2 * i + 1))
  }

  function Default(h: TreeHash, k: nat): Digest
  {
    if k == 0 then ZERO_ENTRY else h(Default(h, k - 1), Default(h, k - 1))
  }

  /** `Floor(n, k)` is floor(n / 2^k), computed by repeated halving. */
  function Floor(n: nat, k: nat): nat
  {
    if k == 0 then n else Floor(n, k - 1) / 2
  }

  /** `Ceil(n, k)` is ceil(n / 2^k), computed by repeated halving. */
  function Ceil(n: nat, k: nat): nat
  {
    if k == 0 then n else (Ceil(n, k - 1) + 1) / 2
  }

  /** Both halving functions mean what their names say. */
  lemma {:induction false} HalvingMeaning(n: nat, k: nat)
    ensures Floor(n, k) * Pow2(k) <= n < (Floor(n, k) + 1) * Pow2(k)
    ensures n <= Ceil(n, k) * Pow2(k) < n + Pow2(k)
  {
    if k > 0 {
      HalvingMeaning(n, k - 1);
      DoubleStep(n, Floor(n, k - 1), Ceil(n, k - 1), Pow2(k - 1));
    }
  }

  lemma DoubleStep(n: nat, f: nat, c: nat, p: nat)
    requires f * p <= n < (f + 1) * p
    requires n <= c * p < n + p
    ensures (f / 2) * (2 * p) <= n < (f / 2 + 1) * (2 * p)
    ensures n <= ((c + 1) / 2) * (2 * p) < n + 2 * p
  {
    var f2, c2 := f / 2, (c + 1) / 2;
    MulDouble(f2, p);
    MulDouble(f2 + 1, p);
    MulDouble(c2, p);
    MulMono(2 * f2, f, p);
    MulMono(f + 1, 2 * (f2 + 1), p);
    MulMono(c, 2 * c2, p);
    MulMono(2 * c2, c + 1, p);
    MulSucc(c, p);
  }

  lemma MulDouble(a: int, p: int)
    ensures a * (2 * p) == (2 * a) * p
  {}

  lemma MulSucc(a: int, p: int)
    ensures (a + 1) * p == a * p + p
  {}

  lemma MulMono(a: int, b: int, p: nat)
    requires a <= b
    ensures a * p <= b * p
  {}

  lemma {:induction false} CeilBounds(n: nat, m: nat, k: nat)
    requires n <= m
    ensures Floor(n, k) <= Ceil(n, k) <= Ceil(m, k)
    ensures n < m ==> Floor(n, k) < Ceil(m, k)
  {
    if k > 0 {
      CeilBounds(n, m, k - 1);
    }
  }

  lemma {:induction false} CeilFits(n: nat, depth: nat, k: nat)
    requires n <= Pow2(depth) && k <= depth
    ensures Ceil(n, k) <= Pow2(depth - k)
  {
    if k > 0 {
      CeilFits(n, depth, k - 1);
      assert Pow2(depth - (k - 1)) == 2 * Pow2(depth - k);
    }
  }

  /** Appending leaves changes no node whose subtree lies inside the old leaves. */
  lemma {:induction false} NodeStable(h: TreeHash, leaves: seq<Digest>, n: nat, k: nat, i: nat)
    requires n <= |leaves| && i < Floor(n, k)
    ensures Node(h, leaves[..n], k, i) == Node(h, leaves, k, i)
  {
    if k > 0 {
      NodeStable(h, leaves, n, k - 1, 2 * i);
      NodeStable(h, leaves, n, k - 1, 2 * i + 1);
    }
  }

  /** To the right of the leaves, every node is the default of its height. */
  lemma {:induction false} NodeBeyond(h: TreeHash, leaves: seq<Digest>, k: nat, i: nat)
    requires i >= Ceil(|leaves|, k)
    ensures Node(h, leaves, k, i) == Default(h, k)
  {
    if k > 0 {
      NodeBeyond(h, leaves, k - 1, 2 * i);
      NodeBeyond(h, leaves, k - 1, 2 * i + 1);
    }
  }

  /** The slice of the padded leaf list below node (k, i). */
  function Subtree(leaves: seq<Digest>, size: nat, k: nat, i: nat): (s: seq<Digest>)
    requires |leaves| <= size && (i + 1) * Pow2(k) <= size
    ensures |s| == Pow2(k)
  {
    SliceBounds(i, Pow2(k));
    Padded(leaves, size)[i * Pow2(k)..(i + 1) * Pow2(k)]
  }

  lemma SliceBounds(i: nat, p: nat)
    ensures 0 <= i * p && (i + 1) * p == i * p + p
  {}

  lemma DoubleBounds(i: nat, p: nat)
    ensures i * (2 * p) == (2 * i) * p && (i + 1) * (2 * p) == (2 * i + 2) * p
    ensures (2 * i + 1) * p == (2 * i) * p + p && (2 * i + 2) * p == (2 * i + 1) * p + p
    ensures 0 <= (2 * i) * p
  {}

  /** Node (k, i) is the plain recursive root of its own slice of the padded leaf list. */
  lemma {:induction false} NodeIsSubtreeRoot(h: TreeHash, leaves: seq<Digest>, size: nat, k: nat, i: nat)
    requires |leaves| <= size && (i + 1) * Pow2(k) <= size
    ensures Node(h, leaves, k, i) == RootOf(h, Subtree(leaves, size, k, i), k)
  {
    if k > 0 {
      DoubleBounds(i, Pow2(k - 1));
      NodeIsSubtreeRoot(h, leaves, size, k - 1, 2 * i);
      NodeIsSubtreeRoot(h, leaves, size, k - 1, 2 * i + 1);
      SubtreeHalves(leaves, size, k, i);
    } else {
      assert Subtree(leaves, size, 0, i)[0] == Padded(leaves, size)[i];
    }
  }

  lemma SubtreeHalves(leaves: seq<Digest>, size: nat, k: nat, i: nat)
    requires k > 0 && |leaves| <= size && (i + 1) * Pow2(k) <= size
    ensures (2 * i + 1) * Pow2(k - 1) <= (2 * i + 2) * Pow2(k - 1) <= size
    ensures Subtree(leaves, size, k, i)[..Pow2(k - 1)] == Subtree(leaves, size, k - 1, 2 * i)
    ensures Subtree(leaves, size, k, i)[Pow2(k - 1)..] == Subtree(leaves, size, k - 1, 2 * i + 1)
  {
    var p := Pow2(k - 1);
    DoubleBounds(i, p);
    var all := Padded(leaves, size);
    var a := i * Pow2(k);
    assert a == (2 * i) * p && a + p == (2 * i + 1) * p && a + 2 * p == (2 * i + 2) * p;
    assert Subtree(leaves, size, k, i) == all[a..a + 2 * p];
    assert Subtree(leaves, size, k - 1, 2 * i) == all[a..a + p];
    assert Subtree(leaves, size, k - 1, 2 * i + 1) == all[a + p..a + 2 * p];
  }

  lemma RootIsTopNode(h: TreeHash, leaves: seq<Digest>, depth: nat)
    requires |leaves| <= Pow2(depth)
    ensures Node(h, leaves, depth, 0) == RootOf(h, Padded(leaves, Pow2(depth)), depth)
  {
    NodeIsSubtreeRoot(h, leaves, Pow2(depth), depth, 0);
    assert Subtree(leaves, Pow2(depth), depth, 0) == Padded(leaves, Pow2(depth));
  }

  // ----- Authentication paths

  /** Hash `leaf` up along `path`; bit k of `address` says on which side path[k] goes. */
  function FoldPath(h: TreeHash, leaf: Digest, path: seq<Digest>, address: nat): Digest
    decreases |path|
  {
    if path == [] then leaf
    else
      var parent := if address % 2 == 1 then h(path[0], leaf) else h(leaf, path[0]);
      FoldPath(h, parent, path[1..], address / 2)
  }

  function Sibling(i: int): (r: int)
    ensures i >= 0 ==> r >= 0
  {
    if i % 2 == 1 then i - 1 else i + 1
  }

  /** The siblings met on the way up from node (k, address), `count` of them. */
  function SiblingPath(h: TreeHash, leaves: seq<Digest>, address: nat, k: nat, count: nat): (p: seq<Digest>)
    ensures |p| == count
    decreases count
  {
    if count == 0 then []
    else [Node(h, leaves, k, Sibling(address))] + SiblingPath(h, leaves, address / 2, k + 1, count - 1)
  }

  /** Completeness: folding a node along its siblings gives its ancestor. */
  lemma {:induction false} SiblingPathFolds(h: TreeHash, leaves: seq<Digest>, address: nat, k: nat, count: nat)
    ensures FoldPath(h, Node(h, leaves, k, address), SiblingPath(h, leaves, address, k, count), address)
         == Node(h, leaves, k + count, Floor(address, count))
    decreases count
  {
    if count > 0 {
      var path := SiblingPath(h, leaves, address, k, count);
      assert path[1..] == SiblingPath(h, leaves, address / 2, k + 1, count - 1);
      SiblingPathFolds(h, leaves, address / 2, k + 1, count - 1);
      FloorHead(address, count);
    }
  }

  lemma {:induction false} FloorHead(n: nat, k: nat)
    requires k > 0
    ensures Floor(n, k) == Floor(n / 2, k - 1)
  {
    if k > 1 {
      FloorHead(n, k - 1);
    }
  }

  lemma {:induction false} FloorOfAddress(address: nat, depth: nat)
    requires address < Pow2(depth)
    ensures Floor(address, depth) == 0
  {
    HalvingMeaning(address, depth);
    if Floor(address, depth) >= 1 {
      MulMono(1, Floor(address, depth), Pow2(depth));
    }
  }

  /** Two inputs on which the tree hash collides. */
  datatype Collision = Collision(left: Digest, right: Digest, left': Digest, right': Digest)

  predicate Collides(h: TreeHash, c: Collision)
  {
    (c.left, c.right) != (c.left', c.right') && h(c.left, c.right) == h(c.left', c.right')
  }

  /** Soundness: two different openings of one address to one root contain a hash collision,
      and this finds it. */
  function PathCollision(h: TreeHash, leaf: Digest, path: seq<Digest>, leaf': Digest, path': seq<Digest>,
                         address: nat): (c: Collision)
    requires |path| == |path'|
    requires (leaf, path) != (leaf', path')
    requires FoldPath(h, leaf, path, address) == FoldPath(h, leaf', path', address)
    ensures Collides(h, c)
    decreases |path|
  {
    assert path != [];
    var (l, r) := if address % 2 == 1 then (path[0], leaf) else (leaf, path[0]);
    var (l', r') := if address % 2 == 1 then (path'[0], leaf') else (leaf', path'[0]);
    if (l, r) != (l', r') && h(l, r) == h(l', r') then Collision(l, r, l', r')
    else
      assert path == [path[0]] + path[1..] && path' == [path'[0]] + path'[1..];
      PathCollision(h, h(l, r), path[1..], h(l', r'), path'[1..], address / 2)
  }

  /** Two trees of one leaf each have different roots if they differ. */
  lemma TwoLeaves(h: TreeHash, a: seq<Digest>, b: seq<Digest>, depth: nat)
    requires |a| == |b| == Pow2(depth) && a != b && RootOf(h, a, depth) == RootOf(h, b, depth)
    ensures depth > 0
  {}

  /** Two different full leaf lists with one root contain a hash collision, and this finds it. */
  function RootCollision(h: TreeHash, a: seq<Digest>, b: seq<Digest>, depth: nat): (c: Collision)
    requires |a| == |b| == Pow2(depth) && a != b && RootOf(h, a, depth) == RootOf(h, b, depth)
    ensures Collides(h, c)
    decreases depth
  {
    TwoLeaves(h, a, b, depth);
    var half := Pow2(depth - 1);
    var l, r := RootOf(h, a[..half], depth - 1), RootOf(h, a[half..], depth - 1);
    var l', r' := RootOf(h, b[..half], depth - 1), RootOf(h, b[half..], depth - 1);
    if (l, r) != (l', r') then Collision(l, r, l', r')
    else if a[..half] != b[..half] then RootCollision(h, a[..half], b[..half], depth - 1)
    else
      assert a == a[..half] + a[half..] && b == b[..half] + b[half..];
      RootCollision(h, a[half..], b[half..], depth - 1)
  }

  // ----- Collisions among well-formed digests

  /** The hash yields only digests of this form. */
  ghost predicate Yields(h: TreeHash, good: Digest -> bool)
  {
    forall l, r :: good(h(l, r))
  }

  ghost predicate AllGood(s: seq<Digest>, good: Digest -> bool)
  {
    forall i :: 0 <= i < |s| ==> good(s[i])
  }

  ghost predicate GoodCollision(c: Collision, good: Digest -> bool)
  {
    good(c.left) && good(c.right) && good(c.left') && good(c.right')
  }

  /** Openings of digests of one form collide in digests of that form. */
  lemma {:induction false} PathCollisionGood(h: TreeHash, leaf: Digest, path: seq<Digest>, leaf': Digest,
                                             path': seq<Digest>,
                                             address: nat, good: Digest -> bool)
    requires |path| == |path'| && (leaf, path) != (leaf', path')
    requires FoldPath(h, leaf, path, address) == FoldPath(h, leaf', path', address)
    requires Yields(h, good) && good(leaf) && good(leaf') && AllGood(path, good) && AllGood(path', good)
    ensures GoodCollision(PathCollision(h, leaf, path, leaf', path', address), good)
    decreases |path|
  {
    assert path != [];
    var (l, r) := if address % 2 == 1 then (path[0], leaf) else (leaf, path[0]);
    var (l', r') := if address % 2 == 1 then (path'[0], leaf') else (leaf', path'[0]);
    assert good(l) && good(r) && good(l') && good(r');
    if !((l, r) != (l', r') && h(l, r) == h(l', r')) {
      assert path == [path[0]] + path[1..] && path' == [path'[0]] + path'[1..];
      PathCollisionGood(h, h(l, r), path[1..], h(l', r'), path'[1..], address / 2, good);
    }
  }

  lemma RootGood(h: TreeHash, s: seq<Digest>, depth: nat, good: Digest -> bool)
    requires |s| == Pow2(depth) && Yields(h, good) && AllGood(s, good)
    ensures good(RootOf(h, s, depth))
  {}

  lemma {:induction false} RootCollisionGood(h: TreeHash, a: seq<Digest>, b: seq<Digest>, depth: nat,
                                             good: Digest -> bool)
    requires |a| == |b| == Pow2(depth) && a != b && RootOf(h, a, depth) == RootOf(h, b, depth)
    requires Yields(h, good) && AllGood(a, good) && AllGood(b, good)
    ensures GoodCollision(RootCollision(h, a, b, depth), good)
    decreases depth
  {
    TwoLeaves(h, a, b, depth);
    var half := Pow2(depth - 1);
    RootGood(h, a[..half], depth - 1, good);
    RootGood(h, a[half..], depth - 1, good);
    RootGood(h, b[..half], depth - 1, good);
    RootGood(h, b[half..], depth - 1, good);
    var l, r := RootOf(h, a[..half], depth - 1), RootOf(h, a[half..], depth - 1);
    var l', r' := RootOf(h, b[..half], depth - 1), RootOf(h, b[half..], depth - 1);
    if (l, r) == (l', r') {
      if a[..half] != b[..half] {
        RootCollisionGood(h, a[..half], b[..half], depth - 1, good);
      } else {
        assert a == a[..half] + a[half..] && b == b[..half] + b[half..];
        RootCollisionGood(h, a[half..], b[half..], depth - 1, good);
      }
    }
  }

  // ----- Cost of one incremental update

  /** Parents at height k that have a leaf in [old, n) below them. */
  function Width(old_: nat, n: nat, k: nat): int
  {
    Ceil(n, k) - Floor(old_, k)
  }

  function TotalWidth(old_: nat, n: nat, depth: nat): int
  {
    if depth == 0 then 0 else TotalWidth(old_, n, depth - 1) + Width(old_, n, depth)
  }

  /** Adding n - old leaves costs fewer than (n - old) + 2 * depth hashes. */
  lemma {:induction false} UpdateCostBound(old_: nat, n: nat, depth: nat)
    requires old_ < n
    ensures TotalWidth(old_, n, depth) + Width(old_, n, depth) <= (n - old_) + 2 * depth
    ensures TotalWidth(old_, n, depth) < (n - old_) + 2 * depth
  {
    CeilBounds(old_, n, depth);
    if depth > 0 {
      UpdateCostBound(old_, n, depth - 1);
      assert 2 * Width(old_, n, depth) <= Width(old_, n, depth - 1) + 2;
    }
  }
}
