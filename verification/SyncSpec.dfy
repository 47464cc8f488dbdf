/** Synchronising a wallet with the chain, as a function of the event log. */
module SyncSpec {
  import opened Bytes
  import opened Outcomes
  import opened MerkleSpec
  import opened WalletSpec

  datatype MixResult = MixResult(newRoot: Bytes32, nullifiers: seq<Bytes>, outputs: seq<OutputEvent>)

  /** A log of the mixer contract; only those with the LogMix topic carry mix results. */
  datatype Log = Log(topic: Bytes, event: MixResult)

  /** chain[b] are the logs of block b. */
  type Chain = seq<seq<Log>>

  datatype Env = Env(keys: Keys, hash: TreeHash, depth: nat, topic: Bytes) {
    function Capacity(): nat {
      Pow2(depth)
    }
  }

  // ----- The event log

  function Matching(logs: seq<Log>, topic: Bytes): seq<MixResult>
  {
    if logs == [] then []
    else
      var log := logs[|logs| - 1];
      Matching(logs[..|logs| - 1], topic) + (if log.topic == topic then [log.event] else [])
  }

  /** Mix results of blocks [from, end), in order. */
  function Events(chain: Chain, topic: Bytes, from: nat, end: nat): (r: seq<MixResult>)
    requires end <= |chain|
    ensures from >= end ==> r == []
    decreases end
  {
    if from >= end then [] else Events(chain, topic, from, end - 1) + Matching(chain[end - 1], topic)
  }

  predicate Ascending(ps: seq<nat>)
  {
    forall i, j :: 0 <= i < j < |ps| ==> ps[i] < ps[j]
  }

  predicate PlacedAt(logs: seq<Log>, topic: Bytes, ps: seq<nat>, events: seq<MixResult>)
  {
    |ps| == |events| && forall j :: 0 <= j < |ps| ==> ps[j] < |logs| && logs[ps[j]] == Log(topic, events[j])
  }

  predicate AllPlaced(logs: seq<Log>, topic: Bytes, ps: seq<nat>)
  {
    forall i :: 0 <= i < |logs| && logs[i].topic == topic ==> i in ps
  }

  /** The matching events are those at the positions, in ascending order, of exactly the logs with
      the topic. */
  lemma {:induction false} MatchingPositions(logs: seq<Log>, topic: Bytes) returns (ps: seq<nat>)
    ensures Ascending(ps) && PlacedAt(logs, topic, ps, Matching(logs, topic)) && AllPlaced(logs, topic, ps)
  {
    ps := [];
    if logs != [] {
      var n := |logs| - 1;
      var qs := MatchingPositions(logs[..n], topic);
      ps := qs;
      if logs[n].topic == topic {
        ps := qs + [n];
        PlacedSnoc(logs, topic, qs, Matching(logs[..n], topic));
      }
      forall i | 0 <= i < |logs| && logs[i].topic == topic
        ensures i in ps
      {
        assert i < n ==> logs[..n][i] == logs[i] && i in qs;
      }
    }
  }

  lemma PlacedSnoc(logs: seq<Log>, topic: Bytes, qs: seq<nat>, events: seq<MixResult>)
    requires logs != [] && logs[|logs| - 1].topic == topic
    requires Ascending(qs) && PlacedAt(logs[..|logs| - 1], topic, qs, events)
    ensures Ascending(qs + [|logs| - 1]) && PlacedAt(logs, topic, qs + [|logs| - 1], events + [logs[|logs| - 1].event])
  {}

  /** The events of one block are those of its logs with the topic. */
  lemma EventsOfBlock(chain: Chain, topic: Bytes, b: nat)
    requires b < |chain|
    ensures Events(chain, topic, b, b + 1) == Matching(chain[b], topic)
  {
    assert Events(chain, topic, b, b) == [];
  }

  lemma {:induction false} EventsSplit(chain: Chain, topic: Bytes, from: nat, mid: nat, end: nat)
    requires from <= mid <= end <= |chain|
    ensures Events(chain, topic, from, end) == Events(chain, topic, from, mid) + Events(chain, topic, mid, end)
    decreases end
  {
    if mid < end {
      EventsSplit(chain, topic, from, mid, end - 1);
    }
  }

  /** What one mix result does to the wallet: its outputs first, then its nullifiers. */
  function EventOps(m: MixResult): seq<Op>
  {
    OutputOps(m.outputs) + NullifierOps(m.nullifiers)
  }

  function OutputOps(outputs: seq<OutputEvent>): (ops: seq<Op>)
    ensures |ops| == |outputs| && forall i :: 0 <= i < |ops| ==> ops[i] == Output(outputs[i])
  {
    seq(|outputs|, i requires 0 <= i < |outputs| => Output(outputs[i]))
  }

  function NullifierOps(nullifiers: seq<Bytes>): (ops: seq<Op>)
    ensures |ops| == |nullifiers| && forall i :: 0 <= i < |ops| ==> ops[i] == Nullifier(nullifiers[i])
  {
    seq(|nullifiers|, i requires 0 <= i < |nullifiers| => Nullifier(nullifiers[i]))
  }

  function OpsOf(events: seq<MixResult>): seq<Op>
  {
    if events == [] then [] else OpsOf(events[..|events| - 1]) + EventOps(events[|events| - 1])
  }

  lemma {:induction false} OpsAppend(a: seq<MixResult>, b: seq<MixResult>)
    ensures OpsOf(a + b) == OpsOf(a) + OpsOf(b)
  {
    if b == [] {
      assert a + b == a;
    } else {
      var b0, last := b[..|b| - 1], EventOps(b[|b| - 1]);
      OpsAppend(a, b0);
      assert (a + b)[..|a + b| - 1] == a + b0;
      Assoc(OpsOf(a), OpsOf(b0), last);
    }
  }

  lemma Assoc<T>(a: seq<T>, b: seq<T>, c: seq<T>)
    ensures (a + b) + c == a + (b + c)
  {}

  // ----- One sync

  /** The tree is saved after these events: receive_notes overwrites the "changed" flag at each
      event, so a last event without outputs hides the outputs of earlier ones. */
  predicate SavesTree(events: seq<MixResult>)
  {
    NoOutputs(events) || events[|events| - 1].outputs != []
  }

  predicate NoOutputs(events: seq<MixResult>)
  {
    forall i :: 0 <= i < |events| ==> events[i].outputs == []
  }

  lemma {:induction false} NoNewLeaves(events: seq<MixResult>)
    requires NoOutputs(events)
    ensures NewLeaves(events) == []
  {
    if events != [] {
      NoNewLeaves(events[..|events| - 1]);
      assert events[|events| - 1].outputs == [];
    }
  }

  function Root(e: Env, leaves: seq<Bytes>): Bytes
  {
    Node(e.hash, leaves, e.depth, 0)
  }

  ghost function SyncEvents(e: Env, w: WalletData, events: seq<MixResult>, nextBlock: nat)
    : Result<WalletData, SyncError>
  {
    var r := RunOps(e.keys, e.Capacity(), w, OpsOf(events));
    if r.Err? then r
    else if events == [] then Ok(r.value.(nextBlock := nextBlock))
    else if !SavesTree(events) then Err(StaleTree)
    else if events[|events| - 1].newRoot != Root(e, r.value.leaves) then Err(RootMismatch)
    else Ok(r.value.(nextBlock := nextBlock))
  }

  /** A sync with events succeeds only if the wallet's root is the last one the contract reported,
      and fails so if the tree was saved and it is another. */
  lemma SyncedRootMatches(e: Env, w: WalletData, events: seq<MixResult>, nextBlock: nat)
    requires events != [] && RunOps(e.keys, e.Capacity(), w, OpsOf(events)).Ok?
    ensures
      var leaves := RunOps(e.keys, e.Capacity(), w, OpsOf(events)).value.leaves;
      var r := SyncEvents(e, w, events, nextBlock);
      && (r.Ok? ==> r.value.leaves == leaves && events[|events| - 1].newRoot == Root(e, leaves))
      && (SavesTree(events) && events[|events| - 1].newRoot != Root(e, leaves) ==> r == Err(RootMismatch))
  {}

  /** One do_sync when the chain's newest block is `height`. */
  ghost function SyncTo(e: Env, w: WalletData, chain: Chain, height: nat): Result<WalletData, SyncError>
    requires height < |chain|
  {
    if height < w.nextBlock then Ok(w)
    else SyncEvents(e, w, Events(chain, e.topic, w.nextBlock, height + 1), height + 1)
  }

  predicate Below(heights: seq<nat>, bound: nat)
  {
    forall i :: 0 <= i < |heights| ==> heights[i] < bound
  }

  /** Several syncs, at the given heights, each starting from what the one before saved. */
  ghost function Sessions(e: Env, w: WalletData, chain: Chain, heights: seq<nat>): Result<WalletData, SyncError>
    requires Below(heights, |chain|)
    decreases |heights|
  {
    if heights == [] then Ok(w)
    else
      var r := SyncTo(e, w, chain, heights[0]);
      if r.Err? then r else Sessions(e, r.value, chain, heights[1..])
  }

  function Max(heights: seq<nat>): (m: nat)
    requires heights != []
    ensures Below(heights, m + 1)
    ensures exists i :: 0 <= i < |heights| && heights[i] == m
  {
    if |heights| == 1 then heights[0]
    else
      var m := Max(heights[1..]);
      if m < heights[0] then heights[0] else m
  }

  // ----- The contract's side

  function NewLeaves(events: seq<MixResult>): seq<Bytes>
  {
    if events == [] then []
    else
      NewLeaves(events[..|events| - 1]) + CommitmentList(events[|events| - 1].outputs)
  }

  function CommitmentList(outputs: seq<OutputEvent>): (r: seq<Bytes>)
    ensures |r| == |outputs| && forall i :: 0 <= i < |r| ==> r[i] == outputs[i].commitment
  {
    seq(|outputs|, i requires 0 <= i < |outputs| => outputs[i].commitment)
  }

  lemma {:induction false} NewLeavesAppend(a: seq<MixResult>, b: seq<MixResult>)
    ensures NewLeaves(a + b) == NewLeaves(a) + NewLeaves(b)
  {
    if b == [] {
      assert a + b == a;
    } else {
      var b0, last := b[..|b| - 1], CommitmentList(b[|b| - 1].outputs);
      NewLeavesAppend(a, b0);
      assert (a + b)[..|a + b| - 1] == a + b0;
      Assoc(NewLeaves(a), NewLeaves(b0), last);
    }
  }

  /** The contract emits outputs in every event, and the root of its tree after them. */
  ghost predicate Honest(e: Env, leaves: seq<Bytes>, events: seq<MixResult>)
  {
    forall j :: 0 <= j < |events| ==> HonestAt(e, leaves, events, j)
  }

  predicate HonestAt(e: Env, leaves: seq<Bytes>, events: seq<MixResult>, j: nat)
    requires j < |events|
  {
    events[j].outputs != [] && events[j].newRoot == Root(e, leaves + NewLeaves(events[..j + 1]))
  }

  lemma HonestSplit(e: Env, leaves: seq<Bytes>, a: seq<MixResult>, b: seq<MixResult>)
    requires Honest(e, leaves, a + b)
    ensures Honest(e, leaves, a) && Honest(e, leaves + NewLeaves(a), b)
  {
    forall j | 0 <= j < |a|
      ensures HonestAt(e, leaves, a, j)
    {
      assert HonestAt(e, leaves, a + b, j);
      assert (a + b)[..j + 1] == a[..j + 1];
    }
    forall j | 0 <= j < |b|
      ensures HonestAt(e, leaves + NewLeaves(a), b, j)
    {
      assert HonestAt(e, leaves, a + b, |a| + j);
      LeavesUpTo(leaves, a, b, j);
    }
  }

  lemma LeavesUpTo(leaves: seq<Bytes>, a: seq<MixResult>, b: seq<MixResult>, j: nat)
    requires j < |b|
    ensures leaves + NewLeaves((a + b)[..|a| + j + 1]) == (leaves + NewLeaves(a)) + NewLeaves(b[..j + 1])
  {
    assert (a + b)[..|a| + j + 1] == a + b[..j + 1];
    NewLeavesAppend(a, b[..j + 1]);
    Assoc(leaves, NewLeaves(a), NewLeaves(b[..j + 1]));
  }

  // ----- Syncing as a fold over the log

  function Commitments(ops: seq<Op>): seq<Bytes>
  {
    if ops == [] then []
    else
      var op := ops[|ops| - 1];
      Commitments(ops[..|ops| - 1]) + (if op.Output? then [op.event.commitment] else [])
  }

  lemma {:induction false} LeavesAfterOps(k: Keys, capacity: nat, w: WalletData, ops: seq<Op>)
    requires RunOps(k, capacity, w, ops).Ok?
    ensures RunOps(k, capacity, w, ops).value.leaves == w.leaves + Commitments(ops)
    ensures RunOps(k, capacity, w, ops).value.nextBlock == w.nextBlock
  {
    if ops != [] {
      LeavesAfterOps(k, capacity, w, ops[..|ops| - 1]);
    }
  }

  lemma {:induction false} CommitmentsAppend(a: seq<Op>, b: seq<Op>)
    ensures Commitments(a + b) == Commitments(a) + Commitments(b)
  {
    if b == [] {
      assert a + b == a;
    } else {
      CommitmentsAppend(a, b[..|b| - 1]);
      assert (a + b)[..|a + b| - 1] == a + b[..|b| - 1];
    }
  }

  lemma {:induction false} CommitmentsOfOutputs(outputs: seq<OutputEvent>)
    ensures Commitments(OutputOps(outputs)) == CommitmentList(outputs)
  {
    if outputs != [] {
      var init := outputs[..|outputs| - 1];
      CommitmentsOfOutputs(init);
      assert OutputOps(outputs)[..|init|] == OutputOps(init);
      assert CommitmentList(outputs) == CommitmentList(init) + [outputs[|init|].commitment];
    }
  }

  lemma {:induction false} NoCommitments(ops: seq<Op>)
    requires forall i :: 0 <= i < |ops| ==> ops[i].Nullifier?
    ensures Commitments(ops) == []
  {
    if ops != [] {
      NoCommitments(ops[..|ops| - 1]);
    }
  }

  lemma {:induction false} CommitmentsOfEvents(events: seq<MixResult>)
    ensures Commitments(OpsOf(events)) == NewLeaves(events)
  {
    if events != [] {
      var init, m := events[..|events| - 1], events[|events| - 1];
      CommitmentsOfEvents(init);
      CommitmentsAppend(OpsOf(init), EventOps(m));
      CommitmentsAppend(OutputOps(m.outputs), NullifierOps(m.nullifiers));
      CommitmentsOfOutputs(m.outputs);
      NoCommitments(NullifierOps(m.nullifiers));
      assert Commitments(EventOps(m)) == CommitmentList(m.outputs);
    }
  }

  /** The last event reports the root of all leaves. */
  ghost predicate EndsHonest(e: Env, leaves: seq<Bytes>, events: seq<MixResult>)
  {
    events != [] ==> events[|events| - 1].newRoot == Root(e, leaves + NewLeaves(events))
  }

  /** If the events can be applied, a sync succeeds exactly when the tree is saved. */
  lemma SyncOutcome(e: Env, w: WalletData, events: seq<MixResult>, nextBlock: nat)
    requires EndsHonest(e, w.leaves, events)
    ensures
      var r := RunOps(e.keys, e.Capacity(), w, OpsOf(events));
      && (r.Ok? ==> r.value.leaves == w.leaves + NewLeaves(events))
      && SyncEvents(e, w, events, nextBlock) ==
           if r.Err? then r else if SavesTree(events) then Ok(r.value.(nextBlock := nextBlock)) else Err(StaleTree)
  {
    if RunOps(e.keys, e.Capacity(), w, OpsOf(events)).Ok? {
      LeavesAfterOps(e.keys, e.Capacity(), w, OpsOf(events));
      CommitmentsOfEvents(events);
    }
  }

  /** With an honest contract a sync fails only if some event cannot be applied at all; the
      closing root assertion holds. */
  lemma HonestSync(e: Env, w: WalletData, events: seq<MixResult>, nextBlock: nat)
    requires Honest(e, w.leaves, events)
    ensures
      var r := RunOps(e.keys, e.Capacity(), w, OpsOf(events));
      && SyncEvents(e, w, events, nextBlock) == (if r.Err? then r else Ok(r.value.(nextBlock := nextBlock)))
      && (r.Ok? ==> r.value.leaves == w.leaves + NewLeaves(events))
  {
    if events != [] {
      assert HonestAt(e, w.leaves, events, |events| - 1);
      assert events[..|events|] == events;
    }
    SyncOutcome(e, w, events, nextBlock);
  }

  lemma {:induction false} RunOpsErrors(k: Keys, capacity: nat, w: WalletData, ops: seq<Op>)
    ensures var r := RunOps(k, capacity, w, ops); r.Err? ==> r.error == TreeFull || r.error == NoteFileMissing
  {
    if ops != [] {
      RunOpsErrors(k, capacity, w, ops[..|ops| - 1]);
    }
  }

  lemma {:induction false} NextBlockIrrelevant(k: Keys, capacity: nat, w: WalletData, ops: seq<Op>, b: nat)
    ensures
      var r, r' := RunOps(k, capacity, w, ops), RunOps(k, capacity, w.(nextBlock := b), ops);
      if r.Err? then r' == r else r' == Ok(r.value.(nextBlock := b))
  {
    if ops != [] {
      NextBlockIrrelevant(k, capacity, w, ops[..|ops| - 1], b);
      var r := RunOps(k, capacity, w, ops[..|ops| - 1]);
      if r.Ok? {
        StepIgnoresNextBlock(k, capacity, r.value, ops[|ops| - 1], b);
      }
    }
  }

  lemma StepIgnoresNextBlock(k: Keys, capacity: nat, w: WalletData, op: Op, b: nat)
    ensures
      var r, r' := StepOp(k, capacity, w, op), StepOp(k, capacity, w.(nextBlock := b), op);
      if r.Err? then r' == r else r' == Ok(r.value.(nextBlock := b))
  {}

  /** Syncing a batch of events and then another is syncing both at once. */
  lemma SyncEventsCompose(e: Env, w: WalletData, a: seq<MixResult>, b: seq<MixResult>, n1: nat, n2: nat)
    requires Honest(e, w.leaves, a + b)
    ensures
      var r := SyncEvents(e, w, a, n1);
      && SyncEvents(e, w, a + b, n2) == (if r.Err? then r else SyncEvents(e, r.value, b, n2))
      && (r.Ok? ==> r.value.nextBlock == n1 && Honest(e, r.value.leaves, b))
  {
    HonestSplit(e, w.leaves, a, b);
    HonestSync(e, w, a, n1);
    HonestSync(e, w, a + b, n2);
    OpsAppend(a, b);
    RunOpsAppend(e.keys, e.Capacity(), w, OpsOf(a), OpsOf(b));
    var r := RunOps(e.keys, e.Capacity(), w, OpsOf(a));
    if r.Ok? {
      NextBlockIrrelevant(e.keys, e.Capacity(), r.value, OpsOf(b), n1);
      HonestSync(e, r.value.(nextBlock := n1), b, n2);
    }
  }

  /** A second sync from the first one's result equals one sync to the higher of the two. */
  lemma TwoSyncs(e: Env, w: WalletData, chain: Chain, h1: nat, h2: nat, m: nat)
    requires h1 < |chain| && h2 < |chain| && m == (if h1 < h2 then h2 else h1)
    requires Honest(e, w.leaves, Events(chain, e.topic, w.nextBlock, m + 1))
    ensures
      var r := SyncTo(e, w, chain, h1);
      && SyncTo(e, w, chain, m) == (if r.Err? then r else SyncTo(e, r.value, chain, h2))
      && (r.Ok? ==> Honest(e, r.value.leaves, Events(chain, e.topic, r.value.nextBlock, h2 + 1)))
  {
    if h1 < w.nextBlock {
    } else if h1 < h2 {
      LaterSync(e, w, chain, h1, h2);
    } else {
      EarlierSync(e, w, chain, h1, h2);
    }
  }

  lemma SyncToEvents(e: Env, w: WalletData, chain: Chain, h: nat, events: seq<MixResult>)
    requires w.nextBlock <= h < |chain| && events == Events(chain, e.topic, w.nextBlock, h + 1)
    ensures SyncTo(e, w, chain, h) == SyncEvents(e, w, events, h + 1)
  {}

  lemma LaterSync(e: Env, w: WalletData, chain: Chain, h1: nat, h2: nat)
    requires w.nextBlock <= h1 < h2 < |chain|
    requires Honest(e, w.leaves, Events(chain, e.topic, w.nextBlock, h2 + 1))
    ensures
      var r := SyncTo(e, w, chain, h1);
      && SyncTo(e, w, chain, h2) == (if r.Err? then r else SyncTo(e, r.value, chain, h2))
      && (r.Ok? ==> Honest(e, r.value.leaves, Events(chain, e.topic, r.value.nextBlock, h2 + 1)))
  {
    EventsSplit(chain, e.topic, w.nextBlock, h1 + 1, h2 + 1);
    LaterEvents(e, w, chain, h1, h2, Events(chain, e.topic, w.nextBlock, h1 + 1),
      Events(chain, e.topic, h1 + 1, h2 + 1));
  }

  lemma LaterEvents(e: Env, w: WalletData, chain: Chain, h1: nat, h2: nat, a: seq<MixResult>, b: seq<MixResult>)
    requires w.nextBlock <= h1 < h2 < |chain| && Honest(e, w.leaves, a + b)
    requires a == Events(chain, e.topic, w.nextBlock, h1 + 1) && b == Events(chain, e.topic, h1 + 1, h2 + 1)
    requires a + b == Events(chain, e.topic, w.nextBlock, h2 + 1)
    ensures
      var r := SyncTo(e, w, chain, h1);
      && SyncTo(e, w, chain, h2) == (if r.Err? then r else SyncTo(e, r.value, chain, h2))
      && (r.Ok? ==> r.value.nextBlock == h1 + 1 && Honest(e, r.value.leaves, b))
  {
    SyncToEvents(e, w, chain, h1, a);
    SyncToEvents(e, w, chain, h2, a + b);
    var r := SyncTo(e, w, chain, h1);
    assert r == SyncEvents(e, w, a, h1 + 1);
    assert r.Ok? ==> r.value.nextBlock == h1 + 1 && Honest(e, r.value.leaves, b) by {
      SyncEventsCompose(e, w, a, b, h1 + 1, h2 + 1);
    }
    assert SyncEvents(e, w, a + b, h2 + 1) == (if r.Err? then r else SyncEvents(e, r.value, b, h2 + 1)) by {
      SyncEventsCompose(e, w, a, b, h1 + 1, h2 + 1);
    }
    if r.Ok? {
      SyncToEvents(e, r.value, chain, h2, b);
    }
  }

  lemma EarlierSync(e: Env, w: WalletData, chain: Chain, h1: nat, h2: nat)
    requires w.nextBlock <= h1 < |chain| && h2 <= h1
    requires Honest(e, w.leaves, Events(chain, e.topic, w.nextBlock, h1 + 1))
    ensures
      var r := SyncTo(e, w, chain, h1);
      r.Ok? ==> SyncTo(e, r.value, chain, h2) == r && Events(chain, e.topic, r.value.nextBlock, h2 + 1) == []
  {
    HonestSync(e, w, Events(chain, e.topic, w.nextBlock, h1 + 1), h1 + 1);
  }

  /** Syncing in any number of sessions, at any heights, gives exactly the result of one sync
      to the highest of them. */
  lemma {:induction false} SessionsEqualOneSync(e: Env, w: WalletData, chain: Chain, heights: seq<nat>)
    requires heights != [] && Below(heights, |chain|)
    requires Honest(e, w.leaves, Events(chain, e.topic, w.nextBlock, Max(heights) + 1))
    ensures Sessions(e, w, chain, heights) == SyncTo(e, w, chain, Max(heights))
    decreases |heights|
  {
    var h := heights[0];
    if |heights| == 1 {
      var r := SyncTo(e, w, chain, h);
      assert r.Ok? ==> Sessions(e, r.value, chain, heights[1..]) == r;
    } else {
      var rest := Max(heights[1..]);
      TwoSyncs(e, w, chain, h, rest, Max(heights));
      var r := SyncTo(e, w, chain, h);
      if r.Ok? {
        SessionsEqualOneSync(e, r.value, chain, heights[1..]);
      }
    }
  }

  /** A sync of a new wallet with an honest chain, whose outputs fit the tree and whose own
      notes are distinct, succeeds; the wallet then describes exactly the log. */
  lemma SyncedWallet(e: Env, chain: Chain, height: nat)
    requires 1 <= height < |chain|
    requires Honest(e, [], Events(chain, e.topic, 1, height + 1))
    requires
      var outs := Outputs(OpsOf(Events(chain, e.topic, 1, height + 1)));
      |outs| <= e.Capacity() && Distinct(e.keys, outs)
    ensures
      var events := Events(chain, e.topic, 1, height + 1);
      var outs, r := Outputs(OpsOf(events)), SyncTo(e, NEW_WALLET, chain, height);
      && r.Ok? && r.value.nextBlock == height + 1
      && WalletInv(e.keys, outs, r.value.(nextBlock := 1))
      && r.value.leaves == NewLeaves(events)
      && forall i :: Own(e.keys, outs, i) ==>
           (NameAt(e.keys, outs, i) in r.value.spent <==> Published(e.keys, outs, OpsOf(events), i))
  {
    var events := Events(chain, e.topic, 1, height + 1);
    InterleavingKeepsWallet(e.keys, e.Capacity(), OpsOf(events));
    HonestSync(e, NEW_WALLET, events, height + 1);
    assert [] + NewLeaves(events) == NewLeaves(events);
  }

  // ----- What a sync leaves, in terms of the log alone

  /** The outputs of these events, in order. */
  function AllOutputs(events: seq<MixResult>): seq<OutputEvent>
  {
    if events == [] then [] else AllOutputs(events[..|events| - 1]) + events[|events| - 1].outputs
  }

  /** The nullifier is in an event that comes with or after output i. */
  ghost predicate InLog(events: seq<MixResult>, nf: Bytes, i: int)
  {
    exists b :: 0 <= b < |events| && InLogAt(events, nf, i, b)
  }

  predicate InLogAt(events: seq<MixResult>, nf: Bytes, i: int, b: nat)
    requires b < |events|
  {
    i < |AllOutputs(events[..b + 1])| && nf in events[b].nullifiers
  }

  /** The nullifier is seen at a point where output i has been received. */
  ghost predicate Seen(ops: seq<Op>, nf: Bytes, i: int)
  {
    exists q :: 0 <= q < |ops| && SeenAt(ops, nf, i, q)
  }

  predicate SeenAt(ops: seq<Op>, nf: Bytes, i: int, q: nat)
    requires q < |ops|
  {
    i < |Outputs(ops[..q])| && ops[q] == Nullifier(nf)
  }

  lemma {:induction false} OutputsOfOutputs(ops: seq<Op>, outputs: seq<OutputEvent>)
    ensures Outputs(ops + OutputOps(outputs)) == Outputs(ops) + outputs
    decreases |outputs|
  {
    if outputs == [] {
      assert ops + OutputOps(outputs) == ops;
    } else {
      var init := outputs[..|outputs| - 1];
      OutputsOfOutputs(ops, init);
      var all := ops + OutputOps(outputs);
      assert all[..|all| - 1] == ops + OutputOps(init);
      assert all[|all| - 1] == Output(outputs[|outputs| - 1]);
    }
  }

  lemma {:induction false} OutputsOfNullifiers(ops: seq<Op>, nullifiers: seq<Bytes>)
    ensures Outputs(ops + NullifierOps(nullifiers)) == Outputs(ops)
    decreases |nullifiers|
  {
    if nullifiers == [] {
      assert ops + NullifierOps(nullifiers) == ops;
    } else {
      var init := nullifiers[..|nullifiers| - 1];
      OutputsOfNullifiers(ops, init);
      var all := ops + NullifierOps(nullifiers);
      assert all[..|all| - 1] == ops + NullifierOps(init);
    }
  }

  /** Up to nullifier j of an event, all its outputs have been received. */
  lemma OutputsUpTo(before: seq<Op>, m: MixResult, j: nat)
    requires j <= |m.nullifiers|
    ensures
      var ops, q := before + EventOps(m), |before| + |m.outputs| + j;
      q <= |ops| && Outputs(ops[..q]) == Outputs(before) + m.outputs
  {
    var ops, q := before + EventOps(m), |before| + |m.outputs| + j;
    assert ops[..q] == (before + OutputOps(m.outputs)) + NullifierOps(m.nullifiers[..j]);
    OutputsOfOutputs(before, m.outputs);
    OutputsOfNullifiers(before + OutputOps(m.outputs), m.nullifiers[..j]);
  }

  lemma {:induction false} OutputsOfEvents(events: seq<MixResult>)
    ensures Outputs(OpsOf(events)) == AllOutputs(events)
  {
    if events != [] {
      var m := events[|events| - 1];
      var before := OpsOf(events[..|events| - 1]);
      OutputsOfEvents(events[..|events| - 1]);
      OutputsUpTo(before, m, |m.nullifiers|);
      assert (before + EventOps(m))[..|before| + |m.outputs| + |m.nullifiers|] == OpsOf(events);
    }
  }

  /** A nullifier of the last event is seen after all outputs. */
  lemma SeenInLast(before: seq<Op>, m: MixResult, nf: Bytes, i: int)
    requires nf in m.nullifiers && i < |Outputs(before) + m.outputs|
    ensures Seen(before + EventOps(m), nf, i)
  {
    var j :| 0 <= j < |m.nullifiers| && m.nullifiers[j] == nf;
    SeenPlace(before, m, j, i);
  }

  lemma SeenPlace(before: seq<Op>, m: MixResult, j: nat, i: int)
    requires j < |m.nullifiers| && i < |Outputs(before)| + |m.outputs|
    ensures
      var ops, q := before + EventOps(m), |before| + |m.outputs| + j;
      q < |ops| && SeenAt(ops, m.nullifiers[j], i, q)
  {
    NullifierPlace(before, m, j);
    OutputsUpTo(before, m, j);
  }

  lemma NullifierPlace(before: seq<Op>, m: MixResult, j: nat)
    requires j < |m.nullifiers|
    ensures
      var ops, q := before + EventOps(m), |before| + |m.outputs| + j;
      q < |ops| && ops[q] == Nullifier(m.nullifiers[j])
  {
    assert EventOps(m)[|m.outputs| + j] == NullifierOps(m.nullifiers)[j];
  }

  lemma SeenEarlier(before: seq<Op>, more: seq<Op>, nf: Bytes, i: int, q: nat)
    requires q < |before|
    ensures SeenAt(before, nf, i, q) <==> SeenAt(before + more, nf, i, q)
  {
    assert (before + more)[..q] == before[..q];
  }

  lemma SeenInEvent(before: seq<Op>, m: MixResult, nf: Bytes, i: int, q: nat)
    requires |before| <= q < |before + EventOps(m)| && SeenAt(before + EventOps(m), nf, i, q)
    ensures nf in m.nullifiers && i < |Outputs(before) + m.outputs|
  {
    var j := q - |before| - |m.outputs|;
    assert (before + EventOps(m))[q] == EventOps(m)[q - |before|];
    assert j >= 0 && EventOps(m)[q - |before|] == NullifierOps(m.nullifiers)[j] == Nullifier(m.nullifiers[j]);
    OutputsUpTo(before, m, j);
  }

  /** What is seen is seen before the last event or in it. */
  lemma SeenWhere(before: seq<Op>, m: MixResult, nf: Bytes, i: int)
    ensures Seen(before, nf, i) ==> Seen(before + EventOps(m), nf, i)
    ensures Seen(before + EventOps(m), nf, i) ==>
      Seen(before, nf, i) || (nf in m.nullifiers && i < |Outputs(before) + m.outputs|)
  {
    var ops := before + EventOps(m);
    if Seen(before, nf, i) {
      var q :| 0 <= q < |before| && SeenAt(before, nf, i, q);
      SeenEarlier(before, EventOps(m), nf, i, q);
    }
    if Seen(ops, nf, i) {
      var q :| 0 <= q < |ops| && SeenAt(ops, nf, i, q);
      if q < |before| {
        SeenEarlier(before, EventOps(m), nf, i, q);
      } else {
        SeenInEvent(before, m, nf, i, q);
      }
    }
  }

  lemma {:induction false} SeenIffInLog(events: seq<MixResult>, nf: Bytes, i: int)
    ensures Seen(OpsOf(events), nf, i) <==> InLog(events, nf, i)
  {
    if events != [] {
      var n := |events| - 1;
      var init, m := events[..n], events[n];
      SeenIffInLog(init, nf, i);
      OutputsOfEvents(init);
      SeenWhere(OpsOf(init), m, nf, i);
      assert events[..n + 1] == events;
      if nf in m.nullifiers && i < |AllOutputs(events)| {
        SeenInLast(OpsOf(init), m, nf, i);
      }
      InLogSplit(events, nf, i);
    }
  }

  lemma InLogEarlier(events: seq<MixResult>, nf: Bytes, i: int, b: nat)
    requires b < |events| - 1
    ensures InLogAt(events, nf, i, b) <==> InLogAt(events[..|events| - 1], nf, i, b)
  {
    assert events[..|events| - 1][..b + 1] == events[..b + 1];
  }

  lemma InLogSplit(events: seq<MixResult>, nf: Bytes, i: int)
    requires events != []
    ensures
      var n := |events| - 1;
      InLog(events, nf, i) <==> InLog(events[..n], nf, i) || (i < |AllOutputs(events)| && nf in events[n].nullifiers)
  {
    var n := |events| - 1;
    assert events[..n + 1] == events;
    assert InLogAt(events, nf, i, n) <==> i < |AllOutputs(events)| && nf in events[n].nullifiers;
    if InLog(events, nf, i) {
      var b :| 0 <= b < |events| && InLogAt(events, nf, i, b);
      if b < n {
        InLogEarlier(events, nf, i, b);
      }
    }
    if InLog(events[..n], nf, i) {
      var b :| 0 <= b < n && InLogAt(events[..n], nf, i, b);
      InLogEarlier(events, nf, i, b);
    }
  }

  /** What a new wallet holds after a sync of an honest chain, read off the log: the commitments of
      all outputs in order; a file for exactly each note that an output carries for us, spent if
      and only if its nullifier is in an event that comes with or after the output; and the
      nullifiers of exactly the unspent ones. */
  lemma SyncedWalletFromLog(e: Env, chain: Chain, height: nat)
    requires 1 <= height < |chain|
    requires Honest(e, [], Events(chain, e.topic, 1, height + 1))
    requires
      var outs := AllOutputs(Events(chain, e.topic, 1, height + 1));
      |outs| <= e.Capacity() && Distinct(e.keys, outs)
    ensures
      var events := Events(chain, e.topic, 1, height + 1);
      var outs, r := AllOutputs(events), SyncTo(e, NEW_WALLET, chain, height);
      && r.Ok? && r.value.nextBlock == height + 1 && r.value.numNotes == |outs|
      && |r.value.leaves| == |outs| && (forall i :: 0 <= i < |outs| ==> r.value.leaves[i] == outs[i].commitment)
      && FilesOpenLeaves(e.keys, outs, r.value.leaves, r.value.unspent)
      && FilesOpenLeaves(e.keys, outs, r.value.leaves, r.value.spent)
      && EveryNoteFiled(e.keys, outs, r.value)
      && MapListsUnspent(e.keys, r.value)
      && (forall n :: n in r.value.spent ==> InLog(events, e.keys.nullifier(r.value.spent[n].note), n.address))
      && (forall n :: n in r.value.unspent ==> !InLog(events, e.keys.nullifier(r.value.unspent[n].note), n.address))
  {
    var events := Events(chain, e.topic, 1, height + 1);
    OutputsOfEvents(events);
    SyncedWallet(e, chain, height);
    var w, outs := SyncTo(e, NEW_WALLET, chain, height).value, AllOutputs(events);
    assert WalletInv(e.keys, outs, w);
    FilesOpen(e.keys, outs, w);
    NotesFiled(e.keys, outs, w);
    MapListed(e.keys, outs, w);
    SpentFromLog(e.keys, events, w);
  }

  lemma SpentFromLog(k: Keys, events: seq<MixResult>, w: WalletData)
    requires FilesInv(k, AllOutputs(events), w) && Outputs(OpsOf(events)) == AllOutputs(events)
    requires forall i :: Own(k, AllOutputs(events), i) ==>
      (NameAt(k, AllOutputs(events), i) in w.spent <==> Published(k, AllOutputs(events), OpsOf(events), i))
    ensures forall n :: n in w.spent ==> InLog(events, k.nullifier(w.spent[n].note), n.address)
    ensures forall n :: n in w.unspent ==> !InLog(events, k.nullifier(w.unspent[n].note), n.address)
  {
    var outs := AllOutputs(events);
    forall i | Own(k, outs, i)
      ensures NameAt(k, outs, i) in w.spent <==> InLog(events, NullifierAt(k, outs, i), i)
    {
      SeenIffInLog(events, NullifierAt(k, outs, i), i);
      PublishedIsSeen(k, outs, OpsOf(events), i);
    }
    forall n | n in w.spent
      ensures InLog(events, k.nullifier(w.spent[n].note), n.address)
    {
      assert OwnName(k, outs, n) && Own(k, outs, n.address);
    }
    forall n | n in w.unspent
      ensures !InLog(events, k.nullifier(w.unspent[n].note), n.address)
    {
      assert OwnName(k, outs, n) && Own(k, outs, n.address);
    }
  }

  lemma PublishedIsSeen(k: Keys, outs: seq<OutputEvent>, ops: seq<Op>, i: int)
    requires Own(k, outs, i)
    ensures Published(k, outs, ops, i) <==> Seen(ops, NullifierAt(k, outs, i), i)
  {
    if Published(k, outs, ops, i) {
      var q :| 0 <= q < |ops| && PublishedAt(k, outs, ops, i, q);
      assert SeenAt(ops, NullifierAt(k, outs, i), i, q);
    }
    if Seen(ops, NullifierAt(k, outs, i), i) {
      var q :| 0 <= q < |ops| && SeenAt(ops, NullifierAt(k, outs, i), i, q);
      assert PublishedAt(k, outs, ops, i, q);
    }
  }

  /** Whatever outputs the events have: two sessions agree with one exactly when the tree is
      saved in one if and only if it is saved in both of the two. */
  lemma SplitAgreesIff(e: Env, w: WalletData, a: seq<MixResult>, b: seq<MixResult>, n1: nat, n2: nat)
    requires EndsHonest(e, w.leaves, a) && EndsHonest(e, w.leaves, a + b)
    requires RunOps(e.keys, e.Capacity(), w, OpsOf(a + b)).Ok?
    ensures
      var r := SyncEvents(e, w, a, n1);
      var two := if r.Err? then r else SyncEvents(e, r.value, b, n2);
      SyncEvents(e, w, a + b, n2) == two <==> (SavesTree(a + b) <==> SavesTree(a) && SavesTree(b))
  {
    var k, cap := e.keys, e.Capacity();
    SyncOutcome(e, w, a, n1);
    SyncOutcome(e, w, a + b, n2);
    OpsAppend(a, b);
    RunOpsAppend(k, cap, w, OpsOf(a), OpsOf(b));
    var r := RunOps(k, cap, w, OpsOf(a));
    NextBlockIrrelevant(k, cap, r.value, OpsOf(b), n1);
    NewLeavesAppend(a, b);
    Assoc(w.leaves, NewLeaves(a), NewLeaves(b));
    assert EndsHonest(e, r.value.leaves, b);
    SyncOutcome(e, r.value.(nextBlock := n1), b, n2);
  }

  /** So outputs in every event are needed: after an event with outputs, one without them is fine in
      a session of its own but makes a common session fail, because the tree stays unhashed. */
  lemma EmptyEventMakesBatchingMatter(e: Env, w: WalletData, m1: MixResult, m2: MixResult, n: nat)
    requires m1.outputs != [] && m2.outputs == []
    requires RunOps(e.keys, e.Capacity(), w, OpsOf([m1, m2])).Ok?
    requires m1.newRoot == m2.newRoot == Root(e, w.leaves + NewLeaves([m1]))
    ensures
      var r := SyncEvents(e, w, [m1], n);
      && r.Ok? && SyncEvents(e, r.value, [m2], n + 1).Ok?
      && SyncEvents(e, w, [m1, m2], n + 1) == Err(StaleTree)
  {
    var k, cap := e.keys, e.Capacity();
    assert [m1] + [m2] == [m1, m2];
    OpsAppend([m1], [m2]);
    RunOpsAppend(k, cap, w, OpsOf([m1]), OpsOf([m2]));
    var w1 := RunOps(k, cap, w, OpsOf([m1])).value;
    LeavesAfterOps(k, cap, w, OpsOf([m1]));
    CommitmentsOfEvents([m1]);
    NextBlockIrrelevant(k, cap, w1, OpsOf([m2]), n);
    var r := SyncEvents(e, w, [m1], n);
    assert r == Ok(w1.(nextBlock := n));
    LeavesAfterOps(k, cap, r.value, OpsOf([m2]));
    CommitmentsOfEvents([m2]);
    NoNewLeaves([m2]);
    assert w1.leaves + [] == w1.leaves;
    assert !NoOutputs([m1, m2]) by {
      assert [m1, m2][0].outputs != [];
    }
  }

  // ----- After a failed sync

  /** What reopening finds after a sync that applied all events but failed its closing check: the
      tree file is the old one if the tree was not marked as changed. */
  ghost function DiskAfter(e: Env, w: WalletData, events: seq<MixResult>, nextBlock: nat): WalletData
    requires RunOps(e.keys, e.Capacity(), w, OpsOf(events)).Ok?
  {
    var after := RunOps(e.keys, e.Capacity(), w, OpsOf(events)).value;
    var leaves := if SavesTree(events) then after.leaves else w.leaves;
    WalletData(leaves, after.numNotes, after.nullifierMap, after.unspent, after.spent, nextBlock)
  }

  /** A list that, shifted by m and filled up with z, is itself again contains nothing but z. */
  lemma {:induction false} ShiftInvariant(x: seq<Bytes>, m: nat, i: nat, z: Bytes)
    requires m > 0 && i < |x|
    requires forall j :: 0 <= j < |x| ==> x[j] == if j + m < |x| then x[j + m] else z
    ensures x[i] == z
    decreases |x| - i
  {
    assert x[i] == if i + m < |x| then x[i + m] else z;
    if i + m < |x| {
      ShiftInvariant(x, m, i + m, z);
    }
  }

  /** Leaves can go missing unnoticed by padding only if they and all later ones are zero. */
  lemma MissingLeavesPad(leaves: seq<Bytes>, lost: seq<Bytes>, later: seq<Bytes>, size: nat)
    requires lost != [] && |leaves| + |lost| + |later| <= size
    requires Padded(leaves + later, size) == Padded(leaves + (lost + later), size)
    ensures AllZero(lost + later)
  {
    var x, m, zero := lost + later, |lost|, ZERO_ENTRY;
    forall j | 0 <= j < |x|
      ensures x[j] == if j + m < |x| then x[j + m] else zero
    {
      assert Padded(leaves + x, size)[|leaves| + j] == x[j];
      assert Padded(leaves + later, size)[|leaves| + j] == if j < |later| then later[j] else zero;
    }
    forall i | 0 <= i < |x|
      ensures x[i] == zero
    {
      ShiftInvariant(x, m, i, zero);
    }
  }

  predicate AllZero(leaves: seq<Bytes>)
  {
    leaves == Padded([], |leaves|)
  }

  /** A tree that misses leaves never has the contract's root again, whatever comes later. */
  lemma MissingLeavesShow(e: Env, leaves: seq<Bytes>, lost: seq<Bytes>, later: seq<Bytes>) returns (c: Collision)
    requires lost != [] && |leaves| + |lost| + |later| <= e.Capacity() && !AllZero(lost + later)
    ensures Root(e, leaves + later) == Root(e, leaves + (lost + later)) ==> Collides(e.hash, c)
  {
    var a, b, size := leaves + later, leaves + (lost + later), e.Capacity();
    c := Collision([], [], [], []);
    if Root(e, a) == Root(e, b) {
      RootIsTopNode(e.hash, a, e.depth);
      RootIsTopNode(e.hash, b, e.depth);
      if Padded(a, size) == Padded(b, size) {
        MissingLeavesPad(leaves, lost, later, size);
        assert false;
      }
      c := RootCollision(e.hash, Padded(a, size), Padded(b, size), e.depth);
    }
  }

  /** After a sync that left the tree unsaved, the wallet that its files give is out of step for
      good: a later sync that sees events of a contract that reports its root fails, unless there
      is a hash collision (or all missing and later commitments are zero). */
  lemma StaleTreeIsLasting(e: Env, w: WalletData, events: seq<MixResult>, n1: nat, later: seq<MixResult>, n2: nat)
    returns (c: Collision)
    requires RunOps(e.keys, e.Capacity(), w, OpsOf(events)).Ok? && !SavesTree(events)
    requires later != [] && EndsHonest(e, w.leaves + NewLeaves(events), later)
    requires |w.leaves| + |NewLeaves(events)| + |NewLeaves(later)| <= e.Capacity()
    requires !AllZero(NewLeaves(events) + NewLeaves(later))
    ensures SyncEvents(e, DiskAfter(e, w, events, n1), later, n2).Ok? ==> Collides(e.hash, c)
  {
    var d, lost, more := DiskAfter(e, w, events, n1), NewLeaves(events), NewLeaves(later);
    SomeNewLeaves(events);
    c := MissingLeavesShow(e, w.leaves, lost, more);
    Assoc(w.leaves, lost, more);
    if SyncEvents(e, d, later, n2).Ok? {
      LeavesAfterOps(e.keys, e.Capacity(), d, OpsOf(later));
      CommitmentsOfEvents(later);
    }
  }

  lemma {:induction false} SomeNewLeaves(events: seq<MixResult>)
    requires !NoOutputs(events)
    ensures NewLeaves(events) != []
  {
    if events[|events| - 1].outputs == [] {
      var i :| 0 <= i < |events| && events[i].outputs != [];
      assert events[..|events| - 1][i] == events[i];
      SomeNewLeaves(events[..|events| - 1]);
    }
  }
}
