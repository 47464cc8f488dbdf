/** The client's append-only Merkle tree: ragged layers stored from the root down, updated
    in place. Every method is tied to the reference definitions of MerkleSpec. */
module MerkleTree {
  import opened Bytes
  import opened MerkleSpec
  import opened Outcomes

  // ----- What the stored layers should hold

  /** Stored layer of height k: only nodes above some leaf, except that the root is always there. */
  function StoredLayer(h: TreeHash, leaves: seq<Digest>, depth: nat, k: nat): (s: seq<Digest>)
  {
    seq(if k == depth then 1 else Ceil(|leaves|, k), i requires 0 <= i => Node(h, leaves, k, i))
  }

  /** All stored layers, root first. A function of the leaf list alone. */
  function StoredLayers(h: TreeHash, leaves: seq<Digest>, depth: nat): (s: seq<seq<Digest>>)
    ensures |s| == depth + 1
  {
    seq(depth + 1, l requires 0 <= l <= depth => StoredLayer(h, leaves, depth, depth - l))
  }

  function DefaultValues(h: TreeHash, depth: nat): (s: seq<Digest>)
  {
    seq(depth + 1, l requires 0 <= l <= depth => Default(h, depth - l))
  }

  /** What the tree persists. */
  datatype TreeData = TreeData(depth: nat, defaultValues: seq<Digest>, layers: seq<seq<Digest>>)

  function DataOf(h: TreeHash, leaves: seq<Digest>, depth: nat): TreeData
  {
    TreeData(depth, DefaultValues(h, depth), StoredLayers(h, leaves, depth))
  }

  /** Node i of a layer; a negative i counts from the end of the stored layer, if it reaches. */
  function IndexedNode(h: TreeHash, leaves: seq<Digest>, depth: nat, k: nat, i: int): Option<Digest>
  {
    var size := |StoredLayer(h, leaves, depth, k)|;
    if i >= 0 then Some(Node(h, leaves, k, i))
    else if size + i >= 0 then Some(Node(h, leaves, k, size + i))
    else None
  }

  /** Leaf -1 is the last one, leaf -2 the one before, and so on; before the first there is none. */
  lemma NegativeIndex(h: TreeHash, leaves: seq<Digest>, depth: nat, j: nat)
    requires depth > 0 && j > 0
    ensures IndexedNode(h, leaves, depth, 0, -(j as int)) ==
      if j <= |leaves| then Some(leaves[|leaves| - j]) else None
  {}

  /** The siblings from any address, negative ones included. */
  function IndexedPath(h: TreeHash, leaves: seq<Digest>, depth: nat, address: int, k: nat,
                       count: nat): Option<seq<Digest>>
    decreases count
  {
    if count == 0 then Some([])
    else
      var node := IndexedNode(h, leaves, depth, k, Sibling(address));
      if node.None? then None
      else Prefixed([node.value], IndexedPath(h, leaves, depth, address / 2, k + 1, count - 1))
  }

  function Prefixed<T>(done: seq<T>, rest: Option<seq<T>>): Option<seq<T>>
  {
    if rest.None? then None else Some(done + rest.value)
  }

  lemma {:induction false} IndexedPathOfAddress(h: TreeHash, leaves: seq<Digest>, depth: nat, address: nat, k: nat,
                                                count: nat)
    ensures IndexedPath(h, leaves, depth, address, k, count) == Some(SiblingPath(h, leaves, address, k, count))
    decreases count
  {
    if count > 0 {
      IndexedPathOfAddress(h, leaves, depth, address / 2, k + 1, count - 1);
    }
  }

  /** The path from an address on, after some siblings, is the next sibling and the rest. */
  lemma PathSnoc(h: TreeHash, leaves: seq<Digest>, depth: nat, addr: int, k: nat, count: nat, done: seq<Digest>)
    requires count > 0
    ensures
      var node := IndexedNode(h, leaves, depth, k, Sibling(addr));
      Prefixed(done, IndexedPath(h, leaves, depth, addr, k, count)) ==
        if node.None? then None
        else Prefixed(done + [node.value], IndexedPath(h, leaves, depth, addr / 2, k + 1, count - 1))
  {
    var node := IndexedNode(h, leaves, depth, k, Sibling(addr));
    if node.Some? {
      PrefixedStep(done, node.value, IndexedPath(h, leaves, depth, addr / 2, k + 1, count - 1));
    }
  }

  lemma PrefixedStep<T>(done: seq<T>, x: T, rest: Option<seq<T>>)
    ensures Prefixed(done, Prefixed([x], rest)) == Prefixed(done + [x], rest)
  {
    if rest.Some? {
      assert done + ([x] + rest.value) == (done + [x]) + rest.value;
    }
  }

  // ----- The nodes one update hashes

  function Descending(k: nat, lo: nat, hi: nat): (s: seq<(nat, nat)>)
    requires lo <= hi
    ensures |s| == hi - lo
    ensures forall j :: 0 <= j < |s| ==> s[j] == (k, hi - 1 - j)
    decreases hi - lo
  {
    if lo == hi then [] else [(k, hi - 1)] + Descending(k, lo, hi - 1)
  }

  lemma {:induction false} DescendingSnoc(k: nat, lo: nat, hi: nat)
    requires lo < hi
    ensures Descending(k, lo + 1, hi) + [(k, lo)] == Descending(k, lo, hi)
    decreases hi - lo
  {
    if lo + 1 < hi {
      DescendingSnoc(k, lo, hi - 1);
    }
  }

  /** (height, index) of each hash computed when leaves [from, n) are added, in order. */
  function UpdateLog(from: nat, n: nat, depth: nat): (s: seq<(nat, nat)>)
    requires from <= n
  {
    if depth == 0 then []
    else
      CeilBounds(from, n, depth);
      UpdateLog(from, n, depth - 1) + Descending(depth, Floor(from, depth), Ceil(n, depth))
  }

  /** Every node with a new leaf below it is hashed, no other node is, none twice, and the
      total stays below (number of new leaves) + 2 * depth. */
  lemma UpdateLogMinimal(from: nat, n: nat, depth: nat)
    requires from < n
    ensures forall k: nat, i: nat :: (k, i) in UpdateLog(from, n, depth) <==> 1 <= k <= depth && Affected(from, n, k, i)
    ensures NoDuplicates(UpdateLog(from, n, depth))
    ensures |UpdateLog(from, n, depth)| == TotalWidth(from, n, depth) < (n - from) + 2 * depth
  {
    UpdateCostBound(from, n, depth);
    UpdateLogDistinct(from, n, depth);
    forall k: nat, i: nat
      ensures (k, i) in UpdateLog(from, n, depth) <==> 1 <= k <= depth && Affected(from, n, k, i)
    {
      UpdateLogMembers(from, n, depth, k, i);
      AffectedRange(from, n, k, i);
    }
  }

  ghost predicate NoDuplicates<T>(s: seq<T>)
  {
    forall a, b :: 0 <= a < b < |s| ==> s[a] != s[b]
  }

  lemma {:induction false} UpdateLogMembers(from: nat, n: nat, depth: nat, k: nat, i: nat)
    requires from <= n
    ensures (k, i) in UpdateLog(from, n, depth) <==> 1 <= k <= depth && Floor(from, k) <= i < Ceil(n, k)
  {
    if depth > 0 {
      UpdateLogMembers(from, n, depth - 1, k, i);
      CeilBounds(from, n, depth);
      var top := Descending(depth, Floor(from, depth), Ceil(n, depth));
      if k == depth && Floor(from, depth) <= i < Ceil(n, depth) {
        assert top[Ceil(n, depth) - 1 - i] == (k, i);
      }
    }
  }

  lemma {:induction false} UpdateLogDistinct(from: nat, n: nat, depth: nat)
    requires from <= n
    ensures NoDuplicates(UpdateLog(from, n, depth))
    ensures |UpdateLog(from, n, depth)| == TotalWidth(from, n, depth)
  {
    if depth > 0 {
      UpdateLogDistinct(from, n, depth - 1);
      CeilBounds(from, n, depth);
      var below := UpdateLog(from, n, depth - 1);
      forall a | 0 <= a < |below|
        ensures below[a].0 < depth
      {
        UpdateLogMembers(from, n, depth - 1, below[a].0, below[a].1);
      }
    }
  }

  /** Node (k, i) has one of the leaves [from, n) below it. */
  ghost predicate Affected(from: nat, n: nat, k: nat, i: nat)
  {
    exists j: nat :: from <= j < n && Floor(j, k) == i
  }

  lemma {:induction false} AffectedRange(from: nat, n: nat, k: nat, i: nat)
    requires from < n
    ensures Affected(from, n, k, i) <==> Floor(from, k) <= i < Ceil(n, k)
  {
    forall j: nat | from <= j < n
      ensures Floor(from, k) <= Floor(j, k) < Ceil(n, k)
    {
      FloorMono(from, j, k);
      CeilBounds(j, n, k);
    }
    if Floor(from, k) <= i < Ceil(n, k) {
      var j := AffectedWitness(from, n, k, i);
    }
  }

  lemma {:induction false} FloorMono(a: nat, b: nat, k: nat)
    requires a <= b
    ensures Floor(a, k) <= Floor(b, k)
  {
    if k > 0 {
      FloorMono(a, b, k - 1);
    }
  }

  lemma {:induction false} AffectedWitness(from: nat, n: nat, k: nat, i: nat) returns (j: nat)
    requires from < n && Floor(from, k) <= i < Ceil(n, k)
    ensures from <= j < n && Floor(j, k) == i
  {
    if k == 0 {
      j := i;
    } else {
      CeilBounds(from, n, k - 1);
      var f, c := Floor(from, k - 1), Ceil(n, k - 1);
      j := AffectedWitness(from, n, k - 1, if 2 * i >= f then 2 * i else 2 * i + 1);
    }
  }

  // ----- One layer

  /** Value that a touched parent must get from the first `end` entries of its child layer. */
  function ParentValue(h: TreeHash, child: seq<Digest>, end: nat, childDefault: Digest, j: nat): Digest
    requires end <= |child| && 2 * j < end
  {
    h(child[2 * j], if 2 * j + 1 < end then child[2 * j + 1] else childDefault)
  }

  /** The layer, filled up to at least the given length. */
  function Extended(layer: seq<Digest>, length: nat): (r: seq<Digest>)
    ensures |r| == if length <= |layer| then |layer| else length
    ensures forall j :: 0 <= j < |layer| ==> r[j] == layer[j]
  {
    layer + seq(if length > |layer| then length - |layer| else 0, _ => ZERO_ENTRY)
  }

  /** From node q on, the parents of all children are hashed; the other nodes are as they were. */
  ghost predicate HashedFrom(h: TreeHash, child: seq<Digest>, end: nat, childDefault: Digest,
                             before: seq<Digest>, q: nat, parent: seq<Digest>)
    requires end <= |child|
  {
    var length := (end + 1) / 2;
    && q <= length <= |before| == |parent|
    && (forall j :: q <= j < length ==> parent[j] == ParentValue(h, child, end, childDefault, j))
    && (forall j :: 0 <= j < |before| && !(q <= j < length) ==> parent[j] == before[j])
  }

  lemma HashedOne(h: TreeHash, child: seq<Digest>, end: nat, childDefault: Digest,
                  before: seq<Digest>, q: nat, parent: seq<Digest>)
    requires end <= |child| && 2 * q + 2 <= end && HashedFrom(h, child, end, childDefault, before, q + 1, parent)
    ensures HashedFrom(h, child, end, childDefault, before, q, parent[q := h(child[2 * q], child[2 * q + 1])])
  {}

  /** The loop of _recompute_layer: all remaining pairs are populated; hash them from the right. */
  method HashPairs(child: seq<Digest>, start: nat, end: nat, left0: nat, childDefault: Digest, parent: seq<Digest>,
                   h: TreeHash, ghost before: seq<Digest>, ghost k: nat, ghost log0: seq<(nat, nat)>)
    returns (parent': seq<Digest>, ghost log: seq<(nat, nat)>)
    requires start <= end <= |child| && left0 == end - end % 2
    requires HashedFrom(h, child, end, childDefault, before, left0 / 2, parent)
    requires log0 == Descending(k, left0 / 2, (end + 1) / 2)
    ensures HashedFrom(h, child, end, childDefault, before, start / 2, parent')
    ensures log == Descending(k, start / 2, (end + 1) / 2)
  {
    parent', log := parent, log0;
    var leftEnd := start / 2 * 2;
    var left := left0;
    ghost var q := left / 2;
    while left > leftEnd
      invariant left == 2 * q && start / 2 <= q && left <= end
      invariant HashedFrom(h, child, end, childDefault, before, q, parent')
      invariant log == Descending(k, q, (end + 1) / 2)
    {
      left := left - 2;
      q := q - 1;
      DescendingSnoc(k, q, (end + 1) / 2);
      HashedOne(h, child, end, childDefault, before, q, parent');
      parent' := parent'[left / 2 := h(child[left], child[left + 1])];
      log := log + [(k, left / 2)];
    }
  }

  method RecomputeLayer(child: seq<Digest>, start: nat, end: nat, childDefault: Digest, parent: seq<Digest>,
                        h: TreeHash, ghost k: nat)
    returns (parent': seq<Digest>, start': nat, end': nat, ghost log: seq<(nat, nat)>)
    requires start <= end <= |child|
    ensures start' == start / 2 && end' == (end + 1) / 2
    ensures |parent'| == if end' <= |parent| then |parent| else end'
    ensures forall j :: start' <= j < end' ==> parent'[j] == ParentValue(h, child, end, childDefault, j)
    ensures forall j :: 0 <= j < |parent| && !(start' <= j < end') ==> parent'[j] == parent[j]
    ensures log == Descending(k, start', end')
  {
    var newLength := (end + 1) / 2;
    parent' := Extended(parent, newLength);
    ghost var extended := parent';
    log := [];

    var left := end - end % 2;
    if end % 2 == 1 {
      parent' := parent'[left / 2 := h(child[left], childDefault)];
      log := log + [(k, left / 2)];
    }
    assert log == Descending(k, left / 2, newLength);
    parent', log := HashPairs(child, start, end, left, childDefault, parent', h, extended, k, log);
    start', end' := start / 2, newLength;
  }

  /** One call of RecomputeLayer turns the stored parent layer of the old leaves into that of
      all leaves. */
  lemma LayerStep(h: TreeHash, leaves: seq<Digest>, from: nat, depth: nat, k: nat, parent': seq<Digest>)
    requires from < |leaves| <= Pow2(depth) && k < depth
    requires
      var parent := StoredLayer(h, leaves[..from], depth, k + 1);
      var lo, hi := Floor(from, k + 1), Ceil(|leaves|, k + 1);
      var child := StoredLayer(h, leaves, depth, k);
      && |parent'| == (if hi <= |parent| then |parent| else hi)
      && (forall j :: lo <= j < hi ==> parent'[j] == ParentValue(h, child, |child|, Default(h, k), j))
      && (forall j :: 0 <= j < |parent| && !(lo <= j < hi) ==> parent'[j] == parent[j])
    ensures parent' == StoredLayer(h, leaves, depth, k + 1)
  {
    var lo, hi := Floor(from, k + 1), Ceil(|leaves|, k + 1);
    var parent := StoredLayer(h, leaves[..from], depth, k + 1);
    var child := StoredLayer(h, leaves, depth, k);
    CeilBounds(from, |leaves|, k + 1);
    CeilFits(|leaves|, depth, k + 1);
    assert |parent'| == |StoredLayer(h, leaves, depth, k + 1)|;
    forall j | 0 <= j < |parent'|
      ensures parent'[j] == Node(h, leaves, k + 1, j)
    {
      if j < lo {
        NodeStable(h, leaves, from, k + 1, j);
        assert parent'[j] == parent[j];
      } else {
        assert child[2 * j] == Node(h, leaves, k, 2 * j);
        if 2 * j + 1 < |child| {
          assert child[2 * j + 1] == Node(h, leaves, k, 2 * j + 1);
        } else {
          NodeBeyond(h, leaves, k, 2 * j + 1);
        }
      }
    }
  }

  /** Layers of height up to k are those of all leaves, higher ones those of the first `from`. */
  ghost predicate UpdatedTo(h: TreeHash, depth: nat, leaves: seq<Digest>, from: nat, k: nat, layers: seq<seq<Digest>>)
    requires from <= |leaves|
  {
    && |layers| == depth + 1
    && (forall j :: 0 <= j <= k && j <= depth ==> layers[depth - j] == StoredLayer(h, leaves, depth, j))
    && (forall j :: k < j <= depth ==> layers[depth - j] == StoredLayer(h, leaves[..from], depth, j))
  }

  lemma UpdatedStep(h: TreeHash, depth: nat, leaves: seq<Digest>, from: nat, k: nat, layers: seq<seq<Digest>>,
                    parent': seq<Digest>)
    requires from < |leaves| <= Pow2(depth) && k < depth
    requires UpdatedTo(h, depth, leaves, from, k, layers)
    requires
      var parent := layers[depth - k - 1];
      var lo, hi := Floor(from, k + 1), Ceil(|leaves|, k + 1);
      var child := layers[depth - k];
      && |child| == Ceil(|leaves|, k)
      && |parent'| == (if hi <= |parent| then |parent| else hi)
      && (forall j :: lo <= j < hi ==> parent'[j] == ParentValue(h, child, |child|, Default(h, k), j))
      && (forall j :: 0 <= j < |parent| && !(lo <= j < hi) ==> parent'[j] == parent[j])
    ensures UpdatedTo(h, depth, leaves, from, k + 1, layers[depth - k - 1 := parent'])
  {
    assert layers[depth - k] == StoredLayer(h, leaves, depth, k);
    assert layers[depth - (k + 1)] == StoredLayer(h, leaves[..from], depth, k + 1);
    LayerStep(h, leaves, from, depth, k, parent');
  }

  lemma UpdatedLayer(h: TreeHash, depth: nat, leaves: seq<Digest>, from: nat, k: nat, layers: seq<seq<Digest>>)
    requires from <= |leaves| && k < depth && UpdatedTo(h, depth, leaves, from, k, layers)
    ensures layers[depth - k] == StoredLayer(h, leaves, depth, k) && |layers[depth - k]| == Ceil(|leaves|, k)
  {}

  /** The loop of recompute_root, from the leaf layer up. */
  method RehashLayers(h: TreeHash, depth: nat, defaults: seq<Digest>, layers: seq<seq<Digest>>, numNew: nat,
                      ghost leaves: seq<Digest>)
    returns (layers': seq<seq<Digest>>, ghost log: seq<(nat, nat)>)
    requires defaults == DefaultValues(h, depth)
    requires 0 < numNew <= |leaves| <= Pow2(depth)
    requires UpdatedTo(h, depth, leaves, |leaves| - numNew, 0, layers)
    requires |layers[depth]| == |leaves|
    ensures UpdatedTo(h, depth, leaves, |leaves| - numNew, depth, layers')
    ensures log == UpdateLog(|leaves| - numNew, |leaves|, depth)
  {
    ghost var from := |leaves| - numNew;
    layers', log := layers, [];
    var start, end := |layers[depth]| - numNew, |layers[depth]|;
    var layerSize := Pow2(depth);
    for k := 0 to depth
      invariant start == Floor(from, k) && end == Ceil(|leaves|, k) && layerSize == Pow2(depth - k)
      invariant UpdatedTo(h, depth, leaves, from, k, layers')
      invariant log == UpdateLog(from, |leaves|, k)
    {
      CeilBounds(from, |leaves|, k);
      UpdatedLayer(h, depth, leaves, from, k, layers');
      var parent, start', end', log' := RecomputeLayer(
        layers'[depth - k], start, end, defaults[depth - k], layers'[depth - k - 1], h, k + 1);
      UpdatedStep(h, depth, leaves, from, k, layers', parent);
      layers' := layers'[depth - k - 1 := parent];
      start, end := start', end';
      assert log + log' == UpdateLog(from, |leaves|, k + 1);
      log := log + log';
      layerSize := layerSize / 2;
    }
    assert layerSize == 1;
  }

  // ----- The tree

  class MerkleTree {
    const hash: TreeHash
    const depth: nat
    const maxNumLeaves: nat
    var defaultValues: seq<Digest>
    var layers: seq<seq<Digest>>
    var numNewLeaves: nat

    ghost predicate Valid()
      reads this
    {
      && maxNumLeaves == Pow2(depth)
      && |layers| == depth + 1
      && defaultValues == DefaultValues(hash, depth)
      && numNewLeaves <= |Leaves()| <= maxNumLeaves
      && (depth == 0 ==> |Leaves()| == 1 && numNewLeaves == 0)
      && forall k :: 1 <= k <= depth ==> layers[depth - k] == StoredLayer(hash, Hashed(), depth, k)
    }

    function Leaves(): seq<Digest>
      requires |layers| == depth + 1
      reads this
    {
      layers[depth]
    }

    /** The leaves that recompute_root has already seen. */
    ghost function Hashed(): seq<Digest>
      requires |layers| == depth + 1 && numNewLeaves <= |Leaves()|
      reads this
    {
      Leaves()[..|Leaves()| - numNewLeaves]
    }

    /** When nothing is pending, the stored data is a function of the leaves. */
    lemma CleanData()
      requires Valid() && numNewLeaves == 0
      ensures TreeData(depth, defaultValues, layers) == DataOf(hash, Leaves(), depth)
    {
      assert Hashed() == Leaves();
      forall l | 0 <= l <= depth
        ensures layers[l] == StoredLayer(hash, Leaves(), depth, depth - l)
      {
        if l < depth {
          assert layers[depth - (depth - l)] == StoredLayer(hash, Hashed(), depth, depth - l);
        } else {
          assert forall i :: 0 <= i < |Leaves()| ==> Leaves()[i] == Node(hash, Leaves(), 0, i);
        }
      }
    }

    /** empty_with_depth. At depth 0 the pre-filled root layer is also the leaf layer. */
    constructor Empty(depth: nat, hash: TreeHash)
      ensures Valid() && this.depth == depth && this.hash == hash && numNewLeaves == 0
      ensures Leaves() == if depth == 0 then [ZERO_ENTRY] else []
    {
      var defaults := seq(depth + 1, _ => ZERO_ENTRY);
      for k := 0 to depth
        invariant |defaults| == depth + 1
        invariant forall j :: 0 <= j <= k ==> defaults[depth - j] == Default(hash, j)
      {
        var i := depth - 1 - k;
        defaults := defaults[i := hash(defaults[i + 1], defaults[i + 1])];
      }
      this.depth, this.hash := depth, hash;
      maxNumLeaves := Pow2(depth);
      defaultValues := defaults;
      layers := [[defaults[0]]] + seq(depth, _ => []);
      numNewLeaves := 0;
      assert defaults == DefaultValues(hash, depth) by {
        forall l | 0 <= l <= depth ensures defaults[l] == Default(hash, depth - l) {
          assert defaults[depth - (depth - l)] == Default(hash, depth - l);
        }
      }
      new;
      assert Hashed() == Leaves();
      forall k | 1 <= k <= depth
        ensures layers[depth - k] == StoredLayer(hash, [], depth, k)
      {
        CeilZero(k);
        NodeBeyond(hash, [], k, 0);
      }
    }

    /** Open persisted data, as PersistentMerkleTree.open does; nothing is pending then. */
    constructor FromData(data: TreeData, hash: TreeHash, ghost leaves: seq<Digest>)
      requires |leaves| <= Pow2(data.depth) && (data.depth == 0 ==> |leaves| == 1)
      requires data == DataOf(hash, leaves, data.depth)
      ensures Valid() && depth == data.depth && this.hash == hash && numNewLeaves == 0
      ensures Leaves() == leaves
    {
      depth, this.hash := data.depth, hash;
      maxNumLeaves := Pow2(data.depth);
      defaultValues, layers, numNewLeaves := data.defaultValues, data.layers, 0;
      new;
      assert Leaves() == leaves by {
        assert layers[depth] == StoredLayer(hash, leaves, depth, 0);
      }
      assert Hashed() == leaves;
    }

    method Insert(value: Digest) returns (ok: bool)
      requires Valid()
      modifies this
      ensures Valid() && Hashed() == old(Hashed())
      ensures ok <==> old(|Leaves()|) < maxNumLeaves
      ensures Leaves() == if ok then old(Leaves()) + [value] else old(Leaves())
      ensures numNewLeaves == old(numNewLeaves) + (if ok then 1 else 0)
    {
      var leaves := layers[depth];
      if |leaves| >= maxNumLeaves {
        return false;
      }
      ghost var hashed, before := Hashed(), layers;
      layers := layers[depth := leaves + [value]];
      numNewLeaves := numNewLeaves + 1;
      assert Hashed() == hashed;
      forall k | 1 <= k <= depth
        ensures layers[depth - k] == StoredLayer(hash, Hashed(), depth, k)
      {
        assert layers[depth - k] == before[depth - k];
      }
      return true;
    }

    method GetRoot() returns (r: Option<Digest>)
      requires Valid()
      ensures r.Some? <==> numNewLeaves == 0
      ensures r.Some? ==> r.value == RootOf(hash, Padded(Leaves(), Pow2(depth)), depth)
    {
      if numNewLeaves != 0 {
        return None;
      }
      TopNode();
      return Some(layers[0][0]);
    }

    lemma TopNode()
      requires Valid() && numNewLeaves == 0
      ensures |layers[0]| == 1
      ensures layers[0][0] == Node(hash, Leaves(), depth, 0) == RootOf(hash, Padded(Leaves(), Pow2(depth)), depth)
    {
      CleanData();
      assert layers[0] == StoredLayer(hash, Leaves(), depth, depth);
      RootIsTopNode(hash, Leaves(), depth);
    }

    /** Stored node if there is one, else the default of its height: always the reference node.
        A negative index counts from the end of the layer, or is out of range. */
    method GetNode(layerIdx: int, nodeIdx: int) returns (r: Option<Digest>)
      requires Valid()
      ensures nodeIdx >= 0 ==> (r.Some? <==> 0 <= layerIdx <= depth && numNewLeaves == 0)
      ensures nodeIdx >= 0 && r.Some? ==> r.value == Node(hash, Leaves(), layerIdx, nodeIdx)
      ensures r ==
        if 0 <= layerIdx <= depth && numNewLeaves == 0 then IndexedNode(hash, Leaves(), depth, layerIdx, nodeIdx)
        else None
    {
      if layerIdx > depth || numNewLeaves != 0 || layerIdx < 0 {
        return None;
      }
      CleanData();
      var idx := depth - layerIdx;
      var layer := layers[idx];
      assert layer == StoredLayer(hash, Leaves(), depth, layerIdx);
      CeilFits(|Leaves()|, depth, layerIdx);
      if nodeIdx < |layer| {
        if nodeIdx < -|layer| {
          return None;
        }
        return Some(layer[if nodeIdx < 0 then |layer| + nodeIdx else nodeIdx]);
      }
      NodeBeyond(hash, Leaves(), layerIdx, nodeIdx);
      return Some(defaultValues[idx]);
    }

    /** Rehash exactly the ancestors of the new leaves. */
    method RecomputeRoot() returns (root: Digest, ghost log: seq<(nat, nat)>)
      requires Valid()
      modifies this
      ensures Valid() && numNewLeaves == 0 && Leaves() == old(Leaves())
      ensures TreeData(depth, defaultValues, layers) == DataOf(hash, Leaves(), depth)
      ensures root == RootOf(hash, Padded(Leaves(), Pow2(depth)), depth)
      ensures log == if old(numNewLeaves) == 0 then [] else UpdateLog(|old(Hashed())|, |Leaves()|, depth)
    {
      log := [];
      if numNewLeaves == 0 {
        TopNode();
        CleanData();
        root := layers[0][0];
        return;
      }
      ghost var leaves, from := Leaves(), |Hashed()|;
      assert UpdatedTo(hash, depth, leaves, from, 0, layers) by {
        assert layers[depth - 0] == StoredLayer(hash, leaves, depth, 0);
      }
      layers, log := RehashLayers(hash, depth, defaultValues, layers, numNewLeaves, leaves);
      numNewLeaves := 0;
      assert layers[depth - 0] == leaves by {
        assert layers[depth - 0] == StoredLayer(hash, leaves, depth, 0);
      }
      assert Hashed() == leaves;
      TopNode();
      CleanData();
      root := layers[0][0];
    }

    /** Siblings on the way from a leaf to the root; address -1 stands for "no leaf", and lower ones
        take nodes from the ends of the layers. */
    method ComputeMerklePath(address: int) returns (path: Option<seq<Digest>>)
      requires Valid()
      ensures address == -1 ==> path == Some([])
      ensures address < -1 ==>
        path == if numNewLeaves == 0 then IndexedPath(hash, Leaves(), depth, address, 0, depth) else None
      ensures address >= 0 ==> (path.Some? <==> numNewLeaves == 0)
      ensures address >= 0 && path.Some? ==>
        && |path.value| == depth
        && path.value == SiblingPath(hash, Leaves(), address, 0, depth)
        && (address < Pow2(depth) ==>
              FoldPath(hash, Node(hash, Leaves(), 0, address), path.value, address)
                == RootOf(hash, Padded(Leaves(), Pow2(depth)), depth))
    {
      if address == -1 {
        return Some([]);
      }
      path := CollectSiblings(address);
      if address >= 0 {
        IndexedPathOfAddress(hash, Leaves(), depth, address, 0, depth);
        PathOpensRoot(hash, Leaves(), address, depth);
      }
    }

    /** The left neighbour of an odd node, the right neighbour of an even one. */
    method GetSibling(k: nat, addr: int) returns (r: Option<Digest>)
      requires Valid() && k <= depth
      ensures r == if numNewLeaves == 0 then IndexedNode(hash, Leaves(), depth, k, Sibling(addr)) else None
    {
      if addr % 2 == 1 {
        r := GetNode(k, addr - 1);
      } else {
        r := GetNode(k, addr + 1);
      }
    }

    /** The loop: the sibling at each height, then the address halved. */
    method CollectSiblings(address: int) returns (path: Option<seq<Digest>>)
      requires Valid()
      ensures path == if numNewLeaves == 0 then IndexedPath(hash, Leaves(), depth, address, 0, depth) else None
    {
      var merklePath: seq<Digest> := [];
      var addr := address;
      ghost var leaves := Leaves();
      ghost var full := IndexedPath(hash, leaves, depth, address, 0, depth);
      assert full.Some? ==> [] + full.value == full.value;
      for k := 0 to depth
        invariant numNewLeaves == 0 || k == 0
        invariant full == Prefixed(merklePath, IndexedPath(hash, leaves, depth, addr, k, depth - k))
      {
        var node := GetSibling(k, addr);
        PathSnoc(hash, leaves, depth, addr, k, depth - k, merklePath);
        if node.None? {
          return None;
        }
        merklePath := merklePath + [node.value];
        addr := addr / 2;
      }
      assert merklePath + [] == merklePath;
      return Some(merklePath);
    }
  }

  /** The sibling path of every address folds to the root of the padded leaves. */
  lemma PathOpensRoot(h: TreeHash, leaves: seq<Digest>, address: nat, depth: nat)
    requires |leaves| <= Pow2(depth)
    ensures address < Pow2(depth) ==>
      FoldPath(h, Node(h, leaves, 0, address), SiblingPath(h, leaves, address, 0, depth), address) ==
        RootOf(h, Padded(leaves, Pow2(depth)), depth)
  {
    SiblingPathFolds(h, leaves, address, 0, depth);
    if address < Pow2(depth) {
      FloorOfAddress(address, depth);
      RootIsTopNode(h, leaves, depth);
    }
  }

  /** Any other opening of an address against the tree's root exhibits a hash collision. */
  lemma OpeningIsBinding(h: TreeHash, leaves: seq<Digest>, depth: nat, address: nat, leaf': Digest, path': seq<Digest>)
    returns (c: Collision)
    requires |leaves| <= Pow2(depth) && address < Pow2(depth) && |path'| == depth
    requires FoldPath(h, leaf', path', address) == RootOf(h, Padded(leaves, Pow2(depth)), depth)
    requires leaf' != Node(h, leaves, 0, address) || path' != SiblingPath(h, leaves, address, 0, depth)
    ensures Collides(h, c)
  {
    PathOpensRoot(h, leaves, address, depth);
    var path := SiblingPath(h, leaves, address, 0, depth);
    c := PathCollision(h, Node(h, leaves, 0, address), path, leaf', path', address);
  }

  // ----- Whole histories

  datatype TreeOp = InsertLeaf(value: Digest) | Recompute

  /** The leaves a history leaves behind: its insertions in order, up to the capacity. */
  function LeavesAfter(leaves: seq<Digest>, ops: seq<TreeOp>, capacity: nat): (r: seq<Digest>)
    decreases |ops|
  {
    if ops == [] then leaves
    else
      var next := if ops[0].InsertLeaf? && |leaves| < capacity then leaves + [ops[0].value] else leaves;
      LeavesAfter(next, ops[1..], capacity)
  }

  function InsertsOf(ops: seq<TreeOp>): (r: seq<TreeOp>)
    ensures Recompute !in r
  {
    if ops == [] then [] else (if ops[0].InsertLeaf? then [ops[0]] else []) + InsertsOf(ops[1..])
  }

  /** When the root is recomputed makes no difference: only the insertions count. */
  lemma {:induction false} BatchingIrrelevant(leaves: seq<Digest>, ops: seq<TreeOp>, capacity: nat)
    ensures LeavesAfter(leaves, ops, capacity) == LeavesAfter(leaves, InsertsOf(ops), capacity)
    decreases |ops|
  {
    if ops != [] {
      var next := if ops[0].InsertLeaf? && |leaves| < capacity then leaves + [ops[0].value] else leaves;
      BatchingIrrelevant(next, ops[1..], capacity);
      if ops[0].InsertLeaf? {
        assert InsertsOf(ops)[0] == ops[0] && InsertsOf(ops)[1..] == InsertsOf(ops[1..]);
      } else {
        assert InsertsOf(ops) == InsertsOf(ops[1..]);
      }
    }
  }

  /** Any history of insertions and recomputations, closed by one recomputation, leaves exactly
      the data that one batch insertion of the same leaves would leave. */
  method RunHistory(tree: MerkleTree, ops: seq<TreeOp>) returns (root: Digest)
    requires tree.Valid()
    modifies tree
    ensures tree.Valid() && tree.numNewLeaves == 0
    ensures tree.Leaves() == LeavesAfter(old(tree.Leaves()), InsertsOf(ops), tree.maxNumLeaves)
    ensures TreeData(tree.depth, tree.defaultValues, tree.layers) == DataOf(tree.hash, tree.Leaves(), tree.depth)
    ensures root == RootOf(tree.hash, Padded(tree.Leaves(), Pow2(tree.depth)), tree.depth)
  {
    ghost var start := tree.Leaves();
    for i := 0 to |ops|
      invariant tree.Valid()
      invariant LeavesAfter(tree.Leaves(), ops[i..], tree.maxNumLeaves) == LeavesAfter(start, ops, tree.maxNumLeaves)
    {
      assert ops[i..][1..] == ops[i + 1..];
      if ops[i].InsertLeaf? {
        var _ := tree.Insert(ops[i].value);
      } else {
        var _, _ := tree.RecomputeRoot();
      }
    }
    BatchingIrrelevant(start, ops, tree.maxNumLeaves);
    ghost var log;
    root, log := tree.RecomputeRoot();
  }

  lemma {:induction false} CeilZero(k: nat)
    ensures Ceil(0, k) == 0
  {
    if k > 0 {
      CeilZero(k - 1);
    }
  }
}
