/** The wallet object and its synchronisation with the chain, updating files and the Merkle
    tree in place. Each method is tied to WalletSpec and SyncSpec. */
module Wallet {
  import opened Bytes
  import opened Outcomes
  import opened Hex
  import opened MerkleSpec
  import opened MerkleTree
  import opened WalletSpec
  import opened SyncSpec
  import opened WalletRetry

  const SYNC_BLOCKS_PER_BATCH := 1000

  // ----- Querying the node

  /** Logs of blocks [from, end), as one node query returns them. */
  function GetLogs(chain: Chain, from: nat, end: nat): (r: seq<Log>)
    requires end <= |chain|
    decreases end
  {
    if from >= end then [] else GetLogs(chain, from, end - 1) + chain[end - 1]
  }

  lemma {:induction false} MatchingAppend(a: seq<Log>, b: seq<Log>, topic: Bytes)
    ensures Matching(a + b, topic) == Matching(a, topic) + Matching(b, topic)
  {
    if b == [] {
      assert a + b == a;
    } else {
      var b0, log := b[..|b| - 1], b[|b| - 1];
      MatchingAppend(a, b0, topic);
      assert (a + b)[..|a + b| - 1] == a + b0;
      Assoc(Matching(a, topic), Matching(b0, topic), if log.topic == topic then [log.event] else []);
    }
  }

  lemma {:induction false} GetLogsEvents(chain: Chain, topic: Bytes, from: nat, end: nat)
    requires end <= |chain|
    ensures Matching(GetLogs(chain, from, end), topic) == Events(chain, topic, from, end)
    decreases end
  {
    if from < end {
      GetLogsEvents(chain, topic, from, end - 1);
      MatchingAppend(GetLogs(chain, from, end - 1), chain[end - 1], topic);
    }
  }

  /** Keep the logs with the event's topic. */
  method FilterLogs(logs: seq<Log>, topic: Bytes) returns (events: seq<MixResult>)
    ensures events == Matching(logs, topic)
  {
    events := [];
    for i := 0 to |logs|
      invariant events == Matching(logs[..i], topic)
    {
      assert logs[..i + 1][..i] == logs[..i];
      if logs[i].topic == topic {
        events := events + [logs[i].event];
      }
    }
    assert logs[..|logs|] == logs;
  }

  /** One query: the events of blocks [from, end). */
  method QueryEvents(chain: Chain, topic: Bytes, from: nat, end: nat) returns (events: seq<MixResult>)
    requires end <= |chain|
    ensures events == Events(chain, topic, from, end)
  {
    events := FilterLogs(GetLogs(chain, from, end), topic);
    GetLogsEvents(chain, topic, from, end);
  }

  /** Query block ranges batch by batch, until one query fails. The result does not depend on the
      batch size, and each block's events appear once, in order. */
  method GetEventLogs(chain: Chain, topic: Bytes, start: nat, end: nat, batchSize: Option<nat>, fails: nat -> bool)
    returns (events: seq<MixResult>, stopped: Option<nat>)
    requires end < |chain|
    ensures stopped.None? ==> events == Events(chain, topic, start, end + 1)
    ensures stopped.Some? ==>
      start <= stopped.value <= end && fails(stopped.value) && events == Events(chain, topic, start, stopped.value)
  {
    var batch := if batchSize.None? || batchSize.value == 0 then SYNC_BLOCKS_PER_BATCH else batchSize.value;
    var startBlock := start;
    events, stopped := [], None;
    if startBlock > end {
      return;
    }
    while startBlock <= end
      invariant start <= startBlock <= end + 1
      invariant events == Events(chain, topic, start, startBlock)
      decreases end + 1 - startBlock
    {
      if fails(startBlock) {
        return events, Some(startBlock);
      }
      var toBlock := if startBlock + batch - 1 < end then startBlock + batch - 1 else end;
      var matching := QueryEvents(chain, topic, startBlock, toBlock + 1);
      EventsSplit(chain, topic, start, startBlock, toBlock + 1);
      events := events + matching;
      startBlock := toBlock + 1;
    }
  }

  // ----- The wallet

  datatype SavedState = SavedState(nextBlock: nat, numNotes: nat, nullifierMap: map<string, string>)

  /** The note of an output at address `addr`, if it is ours. */
  function Recognised(k: Keys, addr: nat, ev: OutputEvent): Option<NoteDescription> {
    var note := Accept(k, ev);
    if note.None? then None else Some(NoteDescription(note.value, addr, ev.commitment))
  }

  /** Notes the wallet recognises among outputs that start at address `addr`. */
  function NewNotes(k: Keys, addr: nat, outputs: seq<OutputEvent>): seq<NoteDescription>
  {
    if outputs == [] then []
    else
      var i := |outputs| - 1;
      WithNew(NewNotes(k, addr, outputs[..i]), Recognised(k, addr + i, outputs[i]))
  }

  function WithNew(notes: seq<NoteDescription>, note: Option<NoteDescription>): seq<NoteDescription> {
    if note.None? then notes else notes + [note.value]
  }

  class Wallet {
    const env: Env
    var nextBlock: nat
    var numNotes: nat
    var nullifierMap: map<string, string>
    var nextAddr: nat
    var unspent: map<NoteName, NoteDescription>
    var spent: map<NoteName, NoteDescription>
    const merkleTree: MerkleTree
    var merkleTreeChanged: bool
    var stateFile: Option<SavedState>
    var treeFile: Option<TreeData>

    ghost predicate Valid()
      reads this, merkleTree
    {
      && env.depth >= 1
      && merkleTree.Valid() && merkleTree.depth == env.depth && merkleTree.hash == env.hash
      && nextAddr == |merkleTree.Leaves()|
    }

    ghost function View(): WalletData
      requires Valid()
      reads this, merkleTree
    {
      WalletData(merkleTree.Leaves(), numNotes, nullifierMap, unspent, spent, nextBlock)
    }

    /** The tree file holds the tree of these leaves. */
    ghost predicate TreeOnDisk(leaves: seq<Digest>)
      reads this
    {
      if treeFile.None? then leaves == [] else treeFile.value == DataOf(env.hash, leaves, env.depth)
    }

    function StateOnDisk(): SavedState
      reads this
    {
      if stateFile.None? then SavedState(1, 0, map[]) else stateFile.value
    }

    /** What the files hold, if the tree file is that of these leaves. */
    ghost function Disk(leaves: seq<Digest>): WalletData
      reads this
    {
      var state := StateOnDisk();
      WalletData(leaves, state.numNotes, state.nullifierMap, unspent, spent, state.nextBlock)
    }

    /** Everything is on disk: opening the files again would give the same wallet. */
    ghost predicate Saved()
      reads this, merkleTree
    {
      && Valid()
      && merkleTree.numNewLeaves == 0 && !merkleTreeChanged
      && TreeOnDisk(merkleTree.Leaves()) && Disk(merkleTree.Leaves()) == View()
    }

    constructor New(env: Env)
      requires env.depth >= 1
      ensures Saved() && this.env == env && View() == NEW_WALLET && fresh(merkleTree)
    {
      this.env := env;
      merkleTree := new MerkleTree.Empty(env.depth, env.hash);
      nextBlock, numNotes, nullifierMap, nextAddr := 1, 0, map[], 0;
      unspent, spent, merkleTreeChanged := map[], map[], false;
      stateFile, treeFile := None, None;
    }

    /** Open the files that `previous` left, saved or not. */
    constructor Reopen(previous: Wallet, ghost leaves: seq<Digest>)
      requires previous.env.depth >= 1 && |leaves| <= previous.env.Capacity() && previous.TreeOnDisk(leaves)
      ensures Saved() && env == previous.env && View() == previous.Disk(leaves) && fresh(merkleTree)
    {
      env := previous.env;
      var state := previous.StateOnDisk();
      nextBlock, numNotes, nullifierMap := state.nextBlock, state.numNotes, state.nullifierMap;
      unspent, spent, merkleTreeChanged := previous.unspent, previous.spent, false;
      stateFile, treeFile := previous.stateFile, previous.treeFile;
      var tree: MerkleTree;
      if previous.treeFile.None? {
        tree := new MerkleTree.Empty(previous.env.depth, previous.env.hash);
      } else {
        tree := new MerkleTree.FromData(previous.treeFile.value, previous.env.hash, leaves);
      }
      merkleTree := tree;
      nextAddr := |tree.layers[tree.depth]|;
    }

    method ReceiveNote(commAddr: nat, ev: OutputEvent) returns (r: Option<NoteDescription>)
      modifies this`unspent, this`nullifierMap
      ensures
        var note := env.keys.decrypt(ev.ciphertext);
        if note.None? || env.keys.commitment(note.value) != ev.commitment then
          r.None? && unspent == old(unspent) && nullifierMap == old(nullifierMap)
        else
          var desc := NoteDescription(note.value, commAddr, ev.commitment);
          var name := NoteName(commAddr, Encode(ev.commitment[..4]), note.value.value);
          && r == Some(desc)
          && unspent == old(unspent)[name := desc]
          && nullifierMap == old(nullifierMap)[Encode(env.keys.nullifier(note.value)) := name.short]
    {
      var note := env.keys.decrypt(ev.ciphertext);
      if note.None? {
        return None;
      }
      if ev.commitment != env.keys.commitment(note.value) {
        return None;
      }
      var desc := NoteDescription(note.value, commAddr, ev.commitment);
      unspent := unspent[NameOf(desc) := desc];
      var nullifier := env.keys.nullifier(desc.note);
      nullifierMap := nullifierMap[Encode(nullifier) := ShortCommitment(ev.commitment)];
      return Some(desc);
    }

    /** One output: its commitment goes into the tree, and the note into the wallet if ours.
        Counting it here is the same as counting all outputs after the last one. */
    method ReceiveOutput(ev: OutputEvent) returns (ok: bool, note: Option<NoteDescription>)
      requires Valid()
      modifies this`unspent, this`nullifierMap, this`nextAddr, this`numNotes, merkleTree
      ensures Valid() && merkleTree.numNewLeaves == old(merkleTree.numNewLeaves) + (if ok then 1 else 0)
      ensures ok <==> old(|View().leaves|) < env.Capacity()
      ensures ok ==> View() == AddOutput(env.keys, old(View()), ev)
      ensures ok ==> note == Recognised(env.keys, old(nextAddr), ev)
      ensures !ok ==> View() == old(View())
    {
      note := None;
      ok := merkleTree.Insert(ev.commitment);
      if ok {
        note := ReceiveNote(nextAddr, ev);
        nextAddr := nextAddr + 1;
        numNotes := numNotes + 1;
      }
    }

    /** The wallet was `w0`, and has received exactly `outputs`, of which `notes` are ours. */
    ghost predicate Received(w0: WalletData, outputs: seq<OutputEvent>, notes: seq<NoteDescription>)
      reads this, merkleTree
    {
      && Valid() && nextAddr == |w0.leaves| + |outputs|
      && RunOps(env.keys, env.Capacity(), w0, OutputOps(outputs)) == Ok(View())
      && notes == NewNotes(env.keys, |w0.leaves|, outputs)
    }

    /** Receive output number i. */
    method ReceiveNext(ghost w0: WalletData, outputs: seq<OutputEvent>, i: nat, before: seq<NoteDescription>)
      returns (ok: bool, notes: seq<NoteDescription>)
      requires i < |outputs| && Received(w0, outputs[..i], before)
      modifies this`unspent, this`nullifierMap, this`nextAddr, this`numNotes, merkleTree
      ensures Valid()
      ensures ok ==>
        merkleTree.numNewLeaves == old(merkleTree.numNewLeaves) + 1 && Received(w0, outputs[..i + 1], notes)
      ensures !ok ==> View() == old(View()) && RunOps(env.keys, env.Capacity(), w0, OutputOps(outputs)) == Err(TreeFull)
    {
      ghost var k, cap := env.keys, env.Capacity();
      OutputStep(k, cap, w0, outputs, i, View());
      NewNotesStep(k, |w0.leaves|, outputs, i);
      var note: Option<NoteDescription>;
      ok, note := ReceiveOutput(outputs[i]);
      notes := before;
      if ok {
        notes := WithNew(before, note);
      } else {
        RunOpsErr(k, cap, w0, outputs, i + 1);
      }
    }

    /** Insert every commitment and keep the notes that are ours. */
    method ReceiveNotes(outputs: seq<OutputEvent>) returns (r: Result<seq<NoteDescription>, SyncError>)
      requires Valid()
      modifies this`unspent, this`nullifierMap, this`nextAddr, this`numNotes, this`merkleTreeChanged, merkleTree
      ensures Valid()
      ensures
        var spec := RunOps(env.keys, env.Capacity(), old(View()), OutputOps(outputs));
        if r.Err? then
          spec == Err(r.error) && ReachedIn(env.keys, env.Capacity(), old(View()), OutputOps(outputs), View())
        else spec == Ok(View()) && r.value == NewNotes(env.keys, old(nextAddr), outputs)
             && merkleTreeChanged == (outputs != [])
             && merkleTree.numNewLeaves == old(merkleTree.numNewLeaves) + |outputs|
    {
      var newNotes: seq<NoteDescription> := [];
      merkleTreeChanged := |outputs| != 0;
      ghost var w0 := old(View());
      assert OutputOps(outputs[..0]) == [];
      for i := 0 to |outputs|
        invariant Received(w0, outputs[..i], newNotes)
        invariant merkleTree.numNewLeaves == old(merkleTree.numNewLeaves) + i
        invariant merkleTreeChanged == (outputs != [])
      {
        var ok;
        ok, newNotes := ReceiveNext(w0, outputs, i, newNotes);
        if !ok {
          assert OutputOps(outputs) == OutputOps(outputs[..i]) + OutputOps(outputs[i..]);
          ReachedAt(env.keys, env.Capacity(), w0, OutputOps(outputs[..i]), OutputOps(outputs[i..]), View());
          return Err(TreeFull);
        }
      }
      assert outputs[..|outputs|] == outputs;
      return Ok(newNotes);
    }

    method FindNoteFile(short: string) returns (r: Option<NoteName>)
      ensures r == FindNote(unspent, short)
    {
      var candidates := Candidates(unspent, short);
      if |candidates| != 1 {
        return None;
      }
      var n :| n in candidates;
      Singleton(candidates, n);
      return Some(n);
    }

    /** Move the files of our notes that these nullifiers spend. */
    method MarkNullifiersUsed(nullifiers: seq<Bytes>) returns (r: Option<SyncError>)
      requires Valid()
      modifies this`unspent, this`spent, this`nullifierMap
      ensures Valid()
      ensures RunOps(env.keys, env.Capacity(), old(View()), NullifierOps(nullifiers)) ==
        if r.Some? then Err(r.value) else Ok(View())
      ensures r.Some? ==> ReachedIn(env.keys, env.Capacity(), old(View()), NullifierOps(nullifiers), View())
    {
      ghost var k, cap, w0 := env.keys, env.Capacity(), View();
      assert NullifierOps(nullifiers[..0]) == [];
      for i := 0 to |nullifiers|
        invariant Valid()
        invariant RunOps(k, cap, w0, NullifierOps(nullifiers[..i])) == Ok(View())
      {
        ghost var w := View();
        ghost var ops := NullifierOps(nullifiers[..i + 1]);
        assert ops[..i] == NullifierOps(nullifiers[..i]) && ops[i] == Nullifier(nullifiers[i]);
        assert RunOps(k, cap, w0, ops) == SeeNullifier(w, nullifiers[i]);
        var hex := Encode(nullifiers[i]);
        if hex in nullifierMap && nullifierMap[hex] != "" {
          var name := FindNoteFile(nullifierMap[hex]);
          if name.None? {
            NullifierErr(k, cap, w0, nullifiers, i + 1);
            assert NullifierOps(nullifiers) == NullifierOps(nullifiers[..i]) + NullifierOps(nullifiers[i..]);
            ReachedAt(k, cap, w0, NullifierOps(nullifiers[..i]), NullifierOps(nullifiers[i..]), View());
            return Some(NoteFileMissing);
          }
          assert name.value in Candidates(unspent, nullifierMap[hex]);
          spent := spent[name.value := unspent[name.value]];
          unspent := unspent - {name.value};
          nullifierMap := nullifierMap - {hex};
        }
      }
      assert nullifiers[..|nullifiers|] == nullifiers;
      return None;
    }

    /** Write the state file; recompute and write the tree only if it is marked as changed. */
    method UpdateAndSaveState(newNextBlock: nat)
      requires Valid()
      modifies this, merkleTree
      ensures Valid() && View() == old(View()).(nextBlock := newNextBlock)
      ensures stateFile == Some(SavedState(newNextBlock, numNotes, nullifierMap)) && !merkleTreeChanged
      ensures
        if old(merkleTreeChanged) then
          merkleTree.numNewLeaves == 0 && treeFile == Some(DataOf(env.hash, merkleTree.Leaves(), env.depth))
        else merkleTree.numNewLeaves == old(merkleTree.numNewLeaves) && treeFile == old(treeFile)
    {
      nextBlock := newNextBlock;
      stateFile := Some(SavedState(nextBlock, numNotes, nullifierMap));
      if merkleTreeChanged {
        merkleTreeChanged := false;
        var _, _ := merkleTree.RecomputeRoot();
        treeFile := Some(TreeData(merkleTree.depth, merkleTree.defaultValues, merkleTree.layers));
      }
    }

    /** Outputs, then nullifiers, of one mix result. */
    method ApplyMixResult(m: MixResult) returns (r: Option<SyncError>)
      requires Valid()
      modifies this, merkleTree
      ensures Valid() && stateFile == old(stateFile) && treeFile == old(treeFile)
      ensures RunOps(env.keys, env.Capacity(), old(View()), EventOps(m)) == if r.Some? then Err(r.value) else Ok(View())
      ensures r.Some? ==> ReachedIn(env.keys, env.Capacity(), old(View()), EventOps(m), View())
      ensures r.None? ==>
        && merkleTreeChanged == (m.outputs != [])
        && merkleTree.numNewLeaves == old(merkleTree.numNewLeaves) + |m.outputs|
    {
      ghost var k, cap, w0, outputs, nullifiers :=
        env.keys, env.Capacity(), View(), OutputOps(m.outputs), NullifierOps(m.nullifiers);
      RunOpsAppend(k, cap, w0, outputs, nullifiers);
      var received := ReceiveNotes(m.outputs);
      if received.Err? {
        ReachedMore(k, cap, w0, outputs, nullifiers, View());
        return Some(received.error);
      }
      ghost var w1 := View();
      r := MarkNullifiersUsed(m.nullifiers);
      if r.Some? {
        assert outputs + nullifiers + [] == EventOps(m);
        ReachedWithin(k, cap, w0, outputs, w1, nullifiers, [], View());
      }
    }

    /** All mix results of one sync, in order. */
    method ApplyMixResults(events: seq<MixResult>) returns (r: Option<SyncError>)
      requires Valid() && merkleTree.numNewLeaves == 0 && !merkleTreeChanged
      modifies this, merkleTree
      ensures Valid() && stateFile == old(stateFile) && treeFile == old(treeFile)
      ensures RunOps(env.keys, env.Capacity(), old(View()), OpsOf(events)) ==
        if r.Some? then Err(r.value) else Ok(View())
      ensures r.Some? ==> ReachedIn(env.keys, env.Capacity(), old(View()), OpsOf(events), View())
      ensures r.None? ==> (merkleTree.numNewLeaves == 0 <==> NoOutputs(events))
      ensures r.None? ==> merkleTreeChanged == (events != [] && events[|events| - 1].outputs != [])
    {
      ghost var k, cap, w0 := env.keys, env.Capacity(), View();
      for i := 0 to |events|
        invariant Valid() && stateFile == old(stateFile) && treeFile == old(treeFile)
        invariant RunOps(k, cap, w0, OpsOf(events[..i])) == Ok(View())
        invariant merkleTree.numNewLeaves == 0 <==> NoOutputs(events[..i])
        invariant merkleTreeChanged == (i > 0 && events[i - 1].outputs != [])
      {
        EventStep(k, cap, w0, events, i, View());
        ghost var w := View();
        r := ApplyMixResult(events[i]);
        if r.Some? {
          EventsErr(k, cap, w0, events, i + 1);
          OpsAround(events, i);
          ReachedWithin(k, cap, w0, OpsOf(events[..i]), w, EventOps(events[i]), OpsOf(events[i + 1..]), View());
          return;
        }
      }
      assert events[..|events|] == events;
      return None;
    }

    /** The files hold what a sync of these events, from wallet w0, leaves behind. */
    ghost predicate LeftOnDisk(w0: WalletData, events: seq<MixResult>)
      requires Valid() && RunOps(env.keys, env.Capacity(), w0, OpsOf(events)).Ok?
      reads this, merkleTree
    {
      var disk := DiskAfter(env, w0, events, nextBlock);
      TreeOnDisk(disk.leaves) && Disk(disk.leaves) == disk
    }

    /** The end of a sync that has applied all its events: save, then compare the roots. */
    method FinishSync(ghost w0: WalletData, events: seq<MixResult>, height: nat) returns (r: Result<nat, SyncError>)
      requires Valid() && TreeOnDisk(w0.leaves)
      requires RunOps(env.keys, env.Capacity(), w0, OpsOf(events)) == Ok(View())
      requires merkleTree.numNewLeaves == 0 <==> NoOutputs(events)
      requires merkleTreeChanged == (events != [] && events[|events| - 1].outputs != [])
      modifies this, merkleTree
      ensures Valid() && View() == old(View()).(nextBlock := height + 1) && LeftOnDisk(w0, events)
      ensures SyncEvents(env, w0, events, height + 1) == if r.Err? then Err(r.error) else Ok(View())
      ensures r.Ok? ==> r.value == height && Saved()
      ensures r.Err? ==> r.error == if SavesTree(events) then RootMismatch else StaleTree
    {
      LeavesAfterOps(env.keys, env.Capacity(), w0, OpsOf(events));
      CommitmentsOfEvents(events);
      if NoOutputs(events) {
        NoNewLeaves(events);
        assert View().leaves == w0.leaves + [] == w0.leaves;
      }
      UpdateAndSaveState(height + 1);
      if |events| > 0 {
        var root := merkleTree.GetRoot();
        if root.None? {
          return Err(StaleTree);
        }
        RootIsTopNode(env.hash, merkleTree.Leaves(), env.depth);
        if events[|events| - 1].newRoot != root.value {
          return Err(RootMismatch);
        }
      }
      return Ok(height);
    }

    /** Fetch and apply the events up to `height`, until a query or an event fails. */
    method ApplyChain(chain: Chain, height: nat, batchSize: Option<nat>, fails: nat -> bool)
      returns (events: seq<MixResult>, failed: Option<SyncError>)
      requires Valid() && merkleTree.numNewLeaves == 0 && !merkleTreeChanged && nextBlock <= height < |chain|
      modifies this, merkleTree
      ensures Valid() && stateFile == old(stateFile) && treeFile == old(treeFile)
      ensures failed.None? ==>
        && events == Events(chain, env.topic, old(nextBlock), height + 1)
        && RunOps(env.keys, env.Capacity(), old(View()), OpsOf(events)) == Ok(View())
      ensures failed.Some? ==>
        FailsAs(env, old(View()), OpsOf(Events(chain, env.topic, old(nextBlock), height + 1)), View(), failed.value)
      ensures failed == Some(QueryFailed) ==> exists b :: old(nextBlock) <= b <= height && fails(b)
      ensures failed.None? ==> (merkleTree.numNewLeaves == 0 <==> NoOutputs(events))
      ensures failed.None? ==> merkleTreeChanged == (events != [] && events[|events| - 1].outputs != [])
    {
      ghost var w0, from := View(), nextBlock;
      var stopped;
      events, stopped := GetEventLogs(chain, env.topic, nextBlock, height, batchSize, fails);
      ghost var end := if stopped.None? then height + 1 else stopped.value;
      failed := ApplyMixResults(events);
      SyncStops(env, w0, chain, from, end, height + 1, failed, View());
      if failed.None? && stopped.Some? {
        failed := Some(QueryFailed);
      }
    }

    /** One do_sync against a chain whose newest block is `height`, with a node for which some
        queries fail. If a query fails or an event cannot be applied, state and tree file are as
        before, and note files are those of the operations done so far. If only the closing check
        fails, the state file has moved on, and the tree file has not unless the tree was marked
        as changed. */
    method DoSync(chain: Chain, height: nat, batchSize: Option<nat>, fails: nat -> bool)
      returns (r: Result<nat, SyncError>)
      requires Saved() && height < |chain|
      modifies this, merkleTree
      ensures Valid()
      ensures r.Ok? ==> r.value == height && Saved() && SyncTo(env, old(View()), chain, height) == Ok(View())
      ensures r.Err? && r.error != QueryFailed ==> SyncTo(env, old(View()), chain, height) == Err(r.error)
      ensures r.Err? ==> old(nextBlock) <= height
      ensures r == Err(QueryFailed) ==> exists b :: old(nextBlock) <= b <= height && fails(b)
      ensures r == Err(QueryFailed) || r == Err(TreeFull) || r == Err(NoteFileMissing) ==>
        && stateFile == old(stateFile) && treeFile == old(treeFile)
        && ReachedIn(env.keys, env.Capacity(), old(View()),
                     OpsOf(Events(chain, env.topic, old(nextBlock), height + 1)), View())
        && Disk(old(View()).leaves) == Interrupted(old(View()), View())
      ensures r == Err(StaleTree) || r == Err(RootMismatch) ==>
        && nextBlock == height + 1
        && var events := Events(chain, env.topic, old(nextBlock), height + 1);
        && RunOps(env.keys, env.Capacity(), old(View()), OpsOf(events)).Ok?
        && LeftOnDisk(old(View()), events)
        && (r == Err(StaleTree) <==> !SavesTree(events))
    {
      if height < nextBlock {
        return Ok(height);
      }
      ghost var w0 := View();
      var events, failed := ApplyChain(chain, height, batchSize, fails);
      if failed.Some? {
        return Err(failed.value);
      }
      r := FinishSync(w0, events, height);
    }
  }

  /** Any number of sessions, reopening the files between them, with any batch sizes: the
      wallet ends up as after one sync to the greatest height. */
  method SyncSessions(env: Env, chain: Chain, heights: seq<nat>, batches: seq<Option<nat>>)
    returns (wallet: Wallet, r: Result<nat, SyncError>)
    requires env.depth >= 1 && heights != [] && |batches| == |heights| && Below(heights, |chain|)
    requires Honest(env, [], Events(chain, env.topic, 1, Max(heights) + 1))
    ensures r.Ok? ==> wallet.Saved() && SyncTo(env, NEW_WALLET, chain, Max(heights)) == Ok(wallet.View())
    ensures r.Err? ==> SyncTo(env, NEW_WALLET, chain, Max(heights)) == Err(r.error)
  {
    wallet := new Wallet.New(env);
    r := Ok(0);
    SessionsEqualOneSync(env, NEW_WALLET, chain, heights);
    for i := 0 to |heights|
      invariant wallet.Saved() && wallet.env == env && r.Ok?
      invariant fresh(wallet) && fresh(wallet.merkleTree)
      invariant Sessions(env, wallet.View(), chain, heights[i..]) == Sessions(env, NEW_WALLET, chain, heights)
    {
      assert heights[i..][1..] == heights[i + 1..];
      wallet := new Wallet.Reopen(wallet, wallet.merkleTree.Leaves());
      r := wallet.DoSync(chain, heights[i], batches[i], _ => false);
      if r.Err? {
        return;
      }
    }
  }

  lemma OutputStep(k: Keys, capacity: nat, w0: WalletData, outputs: seq<OutputEvent>, i: nat, w: WalletData)
    requires i < |outputs| && RunOps(k, capacity, w0, OutputOps(outputs[..i])) == Ok(w)
    ensures RunOps(k, capacity, w0, OutputOps(outputs[..i + 1]))
         == if |w.leaves| >= capacity then Err(TreeFull) else Ok(AddOutput(k, w, outputs[i]))
  {
    assert OutputOps(outputs[..i + 1])[..i] == OutputOps(outputs[..i]);
  }

  /** Note j is the one that output ps[j] carries for us. */
  predicate NotesAt(k: Keys, addr: nat, outputs: seq<OutputEvent>, ps: seq<nat>, notes: seq<NoteDescription>)
  {
    && |ps| == |notes|
    && forall j :: 0 <= j < |ps| ==>
         && Carries(k, outputs, ps[j], notes[j].note)
         && notes[j] == NoteDescription(notes[j].note, addr + ps[j], outputs[ps[j]].commitment)
  }

  /** The returned notes are those at the positions, in ascending order, of exactly the outputs that
      carry a note for us. */
  lemma {:induction false} NewNotesListed(k: Keys, addr: nat, outputs: seq<OutputEvent>) returns (ps: seq<nat>)
    ensures Ascending(ps) && NotesAt(k, addr, outputs, ps, NewNotes(k, addr, outputs))
    ensures forall i, note :: Carries(k, outputs, i, note) ==> i in ps
  {
    ps := [];
    if outputs != [] {
      var n := |outputs| - 1;
      var init := outputs[..n];
      var qs := NewNotesListed(k, addr, init);
      ps := qs;
      NotesAtLater(k, addr, outputs, qs, NewNotes(k, addr, init));
      if Recognised(k, addr + n, outputs[n]).Some? {
        ps := qs + [n];
      }
      forall i, note | Carries(k, outputs, i, note)
        ensures i in ps
      {
        assert i < n ==> Carries(k, init, i, note) && i in qs;
      }
    }
  }

  lemma NotesAtLater(k: Keys, addr: nat, outputs: seq<OutputEvent>, qs: seq<nat>, notes: seq<NoteDescription>)
    requires outputs != [] && Ascending(qs) && NotesAt(k, addr, outputs[..|outputs| - 1], qs, notes)
    ensures NotesAt(k, addr, outputs, qs, notes)
    ensures
      var n := |outputs| - 1;
      var note := Recognised(k, addr + n, outputs[n]);
      note.Some? ==> Ascending(qs + [n]) && NotesAt(k, addr, outputs, qs + [n], notes + [note.value])
  {
    var n := |outputs| - 1;
    forall j | 0 <= j < |qs|
      ensures qs[j] < n && outputs[..n][qs[j]] == outputs[qs[j]]
    {
      assert Carries(k, outputs[..n], qs[j], notes[j].note);
    }
  }

  lemma NewNotesStep(k: Keys, addr: nat, outputs: seq<OutputEvent>, i: nat)
    requires i < |outputs|
    ensures NewNotes(k, addr, outputs[..i + 1])
      == WithNew(NewNotes(k, addr, outputs[..i]), Recognised(k, addr + i, outputs[i]))
  {
    assert outputs[..i + 1][..i] == outputs[..i];
  }

  lemma RunOpsErr(k: Keys, capacity: nat, w: WalletData, outputs: seq<OutputEvent>, i: nat)
    requires i <= |outputs| && RunOps(k, capacity, w, OutputOps(outputs[..i])).Err?
    ensures RunOps(k, capacity, w, OutputOps(outputs)) == RunOps(k, capacity, w, OutputOps(outputs[..i]))
  {
    assert OutputOps(outputs) == OutputOps(outputs[..i]) + OutputOps(outputs[i..]);
    RunOpsAppend(k, capacity, w, OutputOps(outputs[..i]), OutputOps(outputs[i..]));
  }

  lemma NullifierErr(k: Keys, capacity: nat, w: WalletData, nfs: seq<Bytes>, i: nat)
    requires i <= |nfs| && RunOps(k, capacity, w, NullifierOps(nfs[..i])).Err?
    ensures RunOps(k, capacity, w, NullifierOps(nfs)) == RunOps(k, capacity, w, NullifierOps(nfs[..i]))
  {
    assert NullifierOps(nfs) == NullifierOps(nfs[..i]) + NullifierOps(nfs[i..]);
    RunOpsAppend(k, capacity, w, NullifierOps(nfs[..i]), NullifierOps(nfs[i..]));
  }

  lemma EventStep(k: Keys, capacity: nat, w0: WalletData, events: seq<MixResult>, i: nat, w: WalletData)
    requires i < |events| && RunOps(k, capacity, w0, OpsOf(events[..i])) == Ok(w)
    ensures RunOps(k, capacity, w0, OpsOf(events[..i + 1])) == RunOps(k, capacity, w, EventOps(events[i]))
    ensures NoOutputs(events[..i + 1]) <==> NoOutputs(events[..i]) && events[i].outputs == []
  {
    var more := events[..i + 1];
    assert more[..i] == events[..i] && more[i] == events[i];
    assert OpsOf(more) == OpsOf(events[..i]) + EventOps(events[i]);
    RunOpsAppend(k, capacity, w0, OpsOf(events[..i]), EventOps(events[i]));
    NoOutputsSnoc(events, i);
  }

  lemma OpsSnoc(events: seq<MixResult>, i: nat)
    requires i < |events|
    ensures OpsOf(events[..i + 1]) == OpsOf(events[..i]) + EventOps(events[i])
  {
    assert events[..i + 1][..i] == events[..i];
  }

  lemma OpsAround(events: seq<MixResult>, i: nat)
    requires i < |events|
    ensures OpsOf(events) == OpsOf(events[..i]) + EventOps(events[i]) + OpsOf(events[i + 1..])
  {
    assert events[..i + 1] + events[i + 1..] == events;
    OpsAppend(events[..i + 1], events[i + 1..]);
    OpsSnoc(events, i);
  }

  /** A sync from w0 that has to do these operations has stopped at w with this error. */
  ghost predicate FailsAs(e: Env, w0: WalletData, ops: seq<Op>, w: WalletData, error: SyncError)
  {
    && ReachedIn(e.keys, e.Capacity(), w0, ops, w)
    && (error == QueryFailed || error == TreeFull || error == NoteFileMissing)
    && (error != QueryFailed ==> RunOps(e.keys, e.Capacity(), w0, ops) == Err(error))
  }

  /** Both ways to stop: an event that fails, or a query for the blocks from `mid` on. */
  lemma SyncStops(e: Env, w0: WalletData, chain: Chain, from: nat, mid: nat, end: nat, failed: Option<SyncError>,
                  w: WalletData)
    requires from <= mid <= end <= |chain|
    requires RunOps(e.keys, e.Capacity(), w0, OpsOf(Events(chain, e.topic, from, mid)))
          == if failed.Some? then Err(failed.value) else Ok(w)
    requires failed.Some? ==> ReachedIn(e.keys, e.Capacity(), w0, OpsOf(Events(chain, e.topic, from, mid)), w)
    ensures
      var error := if failed.Some? then failed.value else QueryFailed;
      FailsAs(e, w0, OpsOf(Events(chain, e.topic, from, end)), w, error)
    ensures failed != Some(QueryFailed)
  {
    if failed.Some? {
      EventFails(e, w0, chain, from, mid, end, w);
    } else {
      QueryFails(e, w0, chain, from, mid, end, w);
    }
  }

  lemma EventFails(e: Env, w0: WalletData, chain: Chain, from: nat, mid: nat, end: nat, w: WalletData)
    requires from <= mid <= end <= |chain|
    requires RunOps(e.keys, e.Capacity(), w0, OpsOf(Events(chain, e.topic, from, mid))).Err?
    requires ReachedIn(e.keys, e.Capacity(), w0, OpsOf(Events(chain, e.topic, from, mid)), w)
    ensures
      var error := RunOps(e.keys, e.Capacity(), w0, OpsOf(Events(chain, e.topic, from, mid))).error;
      error != QueryFailed && FailsAs(e, w0, OpsOf(Events(chain, e.topic, from, end)), w, error)
  {
    RunOpsErrors(e.keys, e.Capacity(), w0, OpsOf(Events(chain, e.topic, from, mid)));
    LaterEventsErr(e.keys, e.Capacity(), w0, chain, e.topic, from, mid, end);
    LaterEventsReached(e.keys, e.Capacity(), w0, chain, e.topic, from, mid, end, w);
  }

  lemma QueryFails(e: Env, w0: WalletData, chain: Chain, from: nat, mid: nat, end: nat, w: WalletData)
    requires from <= mid <= end <= |chain|
    requires RunOps(e.keys, e.Capacity(), w0, OpsOf(Events(chain, e.topic, from, mid))) == Ok(w)
    ensures FailsAs(e, w0, OpsOf(Events(chain, e.topic, from, end)), w, QueryFailed)
  {
    var ops := OpsOf(Events(chain, e.topic, from, mid));
    assert ops + [] == ops;
    ReachedAt(e.keys, e.Capacity(), w0, ops, [], w);
    LaterEventsReached(e.keys, e.Capacity(), w0, chain, e.topic, from, mid, end, w);
  }

  /** What was reached in earlier blocks was reached in all blocks. */
  lemma LaterEventsReached(k: Keys, cap: nat, w0: WalletData, chain: Chain, topic: Bytes, from: nat, mid: nat, end: nat,
                           w: WalletData)
    requires from <= mid <= end <= |chain| && ReachedIn(k, cap, w0, OpsOf(Events(chain, topic, from, mid)), w)
    ensures ReachedIn(k, cap, w0, OpsOf(Events(chain, topic, from, end)), w)
  {
    var a, b := Events(chain, topic, from, mid), Events(chain, topic, mid, end);
    EventsSplit(chain, topic, from, mid, end);
    OpsAppend(a, b);
    ReachedMore(k, cap, w0, OpsOf(a), OpsOf(b), w);
  }

  lemma LaterEventsErr(k: Keys, cap: nat, w0: WalletData, chain: Chain, topic: Bytes, from: nat, mid: nat, end: nat)
    requires from <= mid <= end <= |chain| && RunOps(k, cap, w0, OpsOf(Events(chain, topic, from, mid))).Err?
    ensures RunOps(k, cap, w0, OpsOf(Events(chain, topic, from, end)))
         == RunOps(k, cap, w0, OpsOf(Events(chain, topic, from, mid)))
  {
    var a, b := Events(chain, topic, from, mid), Events(chain, topic, mid, end);
    EventsSplit(chain, topic, from, mid, end);
    OpsAppend(a, b);
    RunOpsAppend(k, cap, w0, OpsOf(a), OpsOf(b));
  }

  lemma NoOutputsSnoc(events: seq<MixResult>, i: nat)
    requires i < |events|
    ensures NoOutputs(events[..i + 1]) <==> NoOutputs(events[..i]) && events[i].outputs == []
  {
    if NoOutputs(events[..i + 1]) {
      assert events[..i + 1][i].outputs == [];
      assert forall j :: 0 <= j < i ==> events[..i][j] == events[..i + 1][j];
    }
  }

  lemma EventsErr(k: Keys, capacity: nat, w: WalletData, events: seq<MixResult>, i: nat)
    requires i <= |events| && RunOps(k, capacity, w, OpsOf(events[..i])).Err?
    ensures RunOps(k, capacity, w, OpsOf(events)) == RunOps(k, capacity, w, OpsOf(events[..i]))
  {
    assert events == events[..i] + events[i..];
    OpsAppend(events[..i], events[i..]);
    RunOpsAppend(k, capacity, w, OpsOf(events[..i]), OpsOf(events[i..]));
  }
}
