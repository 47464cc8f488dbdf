/** What happens to a wallet whose sync stops half way. Note files have been written and moved by
    then, but neither the state file nor the tree file. */
module WalletRetry {
  import opened Bytes
  import opened Outcomes
  import opened Hex
  import opened WalletSpec

  /** What reopening finds if a sync from w0 stops when it has reached w1. */
  function Interrupted(w0: WalletData, w1: WalletData): WalletData
  {
    w0.(unspent := w1.unspent, spent := w1.spent)
  }

  /** A note that was unspent when the sync started has been moved. */
  ghost predicate Moved(w0: WalletData, w1: WalletData)
  {
    exists n :: n in w0.unspent && n in w1.spent
  }

  // ----- Running from any wallet

  lemma {:induction false} RunFrom(k: Keys, capacity: nat, outs: seq<OutputEvent>, w: WalletData, ops: seq<Op>)
    requires WalletInv(k, outs, w)
    requires Distinct(k, outs + Outputs(ops)) && |outs + Outputs(ops)| <= capacity
    ensures RunOps(k, capacity, w, ops).Ok?
    ensures WalletInv(k, outs + Outputs(ops), RunOps(k, capacity, w, ops).value)
  {
    if ops == [] {
      assert outs + Outputs(ops) == outs;
    } else {
      var ops0, op := ops[..|ops| - 1], ops[|ops| - 1];
      var all0 := outs + Outputs(ops0);
      if op.Output? {
        assert outs + Outputs(ops) == all0 + [op.event];
        EarlierDistinct(k, all0, op.event);
      }
      RunFrom(k, capacity, outs, w, ops0);
      var w0 := RunOps(k, capacity, w, ops0).value;
      if op.Output? {
        OutputKeepsInv(k, all0, w0, op.event);
      } else {
        NullifierKeepsInv(k, all0, w0, op.nullifier);
      }
    }
  }

  lemma {:induction false} SpentStays(k: Keys, capacity: nat, w: WalletData, ops: seq<Op>, n: NoteName)
    requires RunOps(k, capacity, w, ops).Ok? && n in w.spent
    ensures n in RunOps(k, capacity, w, ops).value.spent
  {
    if ops != [] {
      SpentStays(k, capacity, w, ops[..|ops| - 1], n);
    }
  }

  lemma DistinctEarlier(k: Keys, outs: seq<OutputEvent>, ops: seq<Op>)
    requires ops != [] && Distinct(k, outs + Outputs(ops))
    ensures Distinct(k, outs + Outputs(ops[..|ops| - 1])) && |Outputs(ops[..|ops| - 1])| <= |Outputs(ops)|
  {
    var op, all0 := ops[|ops| - 1], outs + Outputs(ops[..|ops| - 1]);
    if op.Output? {
      assert outs + Outputs(ops) == all0 + [op.event];
      EarlierDistinct(k, all0, op.event);
    }
  }

  /** A note stays unspent without its nullifier. */
  lemma {:induction false} UnspentStays(k: Keys, capacity: nat, outs: seq<OutputEvent>, w: WalletData, ops: seq<Op>,
                                        i: int)
    requires WalletInv(k, outs, w) && Own(k, outs, i) && RunOps(k, capacity, w, ops).Ok?
    requires Distinct(k, outs + Outputs(ops)) && |outs + Outputs(ops)| <= capacity
    requires NameAt(k, outs, i) !in w.spent && forall q :: 0 <= q < |ops| ==>
      ops[q] != Nullifier(NullifierAt(k, outs, i))
    ensures NameAt(k, outs, i) !in RunOps(k, capacity, w, ops).value.spent
  {
    if ops != [] {
      var ops0, op := ops[..|ops| - 1], ops[|ops| - 1];
      DistinctEarlier(k, outs, ops);
      assert forall q :: 0 <= q < |ops0| ==> ops0[q] == ops[q];
      UnspentStays(k, capacity, outs, w, ops0, i);
      RunFrom(k, capacity, outs, w, ops0);
      UnspentStep(k, capacity, outs, Outputs(ops0), RunOps(k, capacity, w, ops0).value, op, i);
    }
  }

  lemma UnspentStep(k: Keys, capacity: nat, outs: seq<OutputEvent>, more: seq<OutputEvent>, w: WalletData, op: Op,
                    i: int)
    requires WalletInv(k, outs + more, w) && Distinct(k, outs + more) && Own(k, outs, i)
    requires NameAt(k, outs, i) !in w.spent && op != Nullifier(NullifierAt(k, outs, i))
    ensures
      var r := StepOp(k, capacity, w, op);
      r.Ok? ==> NameAt(k, outs, i) !in r.value.spent
  {
    if op.Nullifier? {
      NullifierKeepsInv(k, outs + more, w, op.nullifier);
      OwnEarlier(k, outs, more);
      assert Own(k, outs + more, i);
    }
  }

  lemma OwnEarlier(k: Keys, outs: seq<OutputEvent>, more: seq<OutputEvent>)
    ensures forall i :: Own(k, outs, i) ==>
      && Own(k, outs + more, i)
      && NameAt(k, outs + more, i) == NameAt(k, outs, i)
      && DescriptionAt(k, outs + more, i) == DescriptionAt(k, outs, i)
      && NullifierAt(k, outs + more, i) == NullifierAt(k, outs, i)
  {}

  // ----- A note that the nullifier map lists but no file holds

  ghost predicate Stuck(k: Keys, outs: seq<OutputEvent>, w: WalletData, i: int)
  {
    && Own(k, outs, i)
    && var hex, short := Encode(NullifierAt(k, outs, i)), NameAt(k, outs, i).short;
       && hex in w.nullifierMap && w.nullifierMap[hex] == short != ""
       && Candidates(w.unspent, short) == {}
  }

  lemma StuckStep(k: Keys, capacity: nat, outs: seq<OutputEvent>, w: WalletData, i: int, op: Op)
    requires Stuck(k, outs, w, i)
    requires op.Output? && Accept(k, op.event).Some? ==>
      var note := Accept(k, op.event).value;
      && k.nullifier(note) != NullifierAt(k, outs, i)
      && ShortCommitment(op.event.commitment) != NameAt(k, outs, i).short
    ensures
      var r := StepOp(k, capacity, w, op);
      if op == Nullifier(NullifierAt(k, outs, i)) then r == Err(NoteFileMissing)
      else r.Ok? ==> Stuck(k, outs, r.value, i)
  {
    var hex, short := Encode(NullifierAt(k, outs, i)), NameAt(k, outs, i).short;
    match op {
      case Output(ev) =>
        if Accept(k, ev).Some? {
          var nf := k.nullifier(Accept(k, ev).value);
          if Encode(nf) == hex {
            EncodeInjective(nf, NullifierAt(k, outs, i));
          }
          var w' := AddOutput(k, w, ev);
          forall n | n in Candidates(w'.unspent, short)
            ensures n in Candidates(w.unspent, short)
          {}
        }
      case Nullifier(nf) =>
        if Encode(nf) == hex {
          EncodeInjective(nf, NullifierAt(k, outs, i));
          assert FindNote(w.unspent, short) == None;
        } else if SeeNullifier(w, nf).Ok? {
          var w' := SeeNullifier(w, nf).value;
          forall n | n in Candidates(w'.unspent, short)
            ensures n in Candidates(w.unspent, short)
          {}
        }
    }
  }

  /** Notes received by `ops` differ from note i in nullifier and short commitment. */
  ghost predicate Others(k: Keys, outs: seq<OutputEvent>, i: int, ops: seq<Op>)
    requires Own(k, outs, i)
  {
    forall q :: 0 <= q < |ops| && ops[q].Output? && Accept(k, ops[q].event).Some? ==>
      && k.nullifier(Accept(k, ops[q].event).value) != NullifierAt(k, outs, i)
      && ShortCommitment(ops[q].event.commitment) != NameAt(k, outs, i).short
  }

  /** A sync that comes to the nullifier of such a note fails, and wherever it stops, what it leaves
      behind is stuck again: no later sync succeeds. */
  lemma {:induction false} StuckIsLasting(k: Keys, capacity: nat, outs: seq<OutputEvent>, w: WalletData, i: int,
                                          ops: seq<Op>)
    requires Stuck(k, outs, w, i) && Others(k, outs, i, ops)
    ensures
      var r := RunOps(k, capacity, w, ops);
      && (Nullifier(NullifierAt(k, outs, i)) in ops ==> r.Err?)
      && (r.Ok? ==> Stuck(k, outs, r.value, i) && Stuck(k, outs, Interrupted(w, r.value), i))
  {
    if ops != [] {
      var ops0, op := ops[..|ops| - 1], ops[|ops| - 1];
      assert forall q :: 0 <= q < |ops0| ==> ops0[q] == ops[q];
      StuckIsLasting(k, capacity, outs, w, i, ops0);
      var r0 := RunOps(k, capacity, w, ops0);
      if r0.Ok? {
        assert op == ops[|ops0|];
        StuckStep(k, capacity, outs, r0.value, i, op);
      }
    }
  }

  lemma {:induction false} OutputListed(ops: seq<Op>, q: nat) returns (j: nat)
    requires q < |ops| && ops[q].Output?
    ensures j < |Outputs(ops)| && Outputs(ops)[j] == ops[q].event
  {
    if q == |ops| - 1 {
      j := |Outputs(ops)| - 1;
    } else {
      j := OutputListed(ops[..|ops| - 1], q);
    }
  }

  lemma DistinctGivesOthers(k: Keys, outs: seq<OutputEvent>, i: int, ops: seq<Op>)
    requires Own(k, outs, i) && Distinct(k, outs + Outputs(ops))
    ensures Others(k, outs, i, ops)
  {
    var all := outs + Outputs(ops);
    OwnEarlier(k, outs, Outputs(ops));
    forall q | 0 <= q < |ops| && ops[q].Output? && Accept(k, ops[q].event).Some?
      ensures k.nullifier(Accept(k, ops[q].event).value) != NullifierAt(k, outs, i)
      ensures ShortCommitment(ops[q].event.commitment) != NameAt(k, outs, i).short
    {
      var j := OutputListed(ops, q);
      assert all[|outs| + j] == ops[q].event;
      assert Own(k, all, |outs| + j) && Own(k, all, i);
    }
  }

  /** A moved note leaves the wallet stuck, with its nullifier among the operations. */
  lemma MovedIsStuck(k: Keys, capacity: nat, outs: seq<OutputEvent>, w0: WalletData, ops: seq<Op>, n: NoteName)
    requires WalletInv(k, outs, w0)
    requires Distinct(k, outs + Outputs(ops)) && |outs + Outputs(ops)| <= capacity
    requires RunOps(k, capacity, w0, ops).Ok?
    requires n in w0.unspent && n in RunOps(k, capacity, w0, ops).value.spent
    ensures
      var i, w1 := n.address, RunOps(k, capacity, w0, ops).value;
      && Stuck(k, outs, Interrupted(w0, w1), i) && Others(k, outs, i, ops)
      && Nullifier(NullifierAt(k, outs, i)) in ops
  {
    var all, i, w1 := outs + Outputs(ops), n.address, RunOps(k, capacity, w0, ops).value;
    RunFrom(k, capacity, outs, w0, ops);
    assert OwnName(k, outs, n) && Own(k, outs, i);
    if forall q :: 0 <= q < |ops| ==> ops[q] != Nullifier(NullifierAt(k, outs, i)) {
      UnspentStays(k, capacity, outs, w0, ops, i);
    }
    OwnEarlier(k, outs, Outputs(ops));
    DistinctPrefix(k, outs, Outputs(ops));
    NullifierFindsNote(k, outs, w0, i);
    DistinctGivesOthers(k, outs, i, ops);
    assert OwnName(k, all, n) && n !in w1.unspent;
    forall m | m in w1.unspent
      ensures m.short != n.short
    {
      SameShort(k, all, m, n);
    }
    assert Candidates(w1.unspent, n.short) == {};
  }

  lemma SameShort(k: Keys, all: seq<OutputEvent>, m: NoteName, n: NoteName)
    requires Distinct(k, all) && OwnName(k, all, m) && OwnName(k, all, n)
    ensures m.short == n.short ==> m == n
  {}

  lemma DistinctPrefix(k: Keys, outs: seq<OutputEvent>, more: seq<OutputEvent>)
    requires Distinct(k, outs + more)
    ensures Distinct(k, outs)
  {
    OwnEarlier(k, outs, more);
    forall i, j | Own(k, outs, i) && Own(k, outs, j) && i != j
      ensures NullifierAt(k, outs, i) != NullifierAt(k, outs, j) && NameAt(k, outs, i).short != NameAt(k, outs, j).short
    {
      assert Own(k, outs + more, i) && Own(k, outs + more, j);
    }
  }

  // ----- If nothing was moved, repeating the sync comes to the same wallet

  /** x is the first sync at some point, y its repetition at the same point. Beside the files of x,
      y has those that the first sync went on to write, and in `spent` those it went on to move. */
  ghost predicate Repeats(k: Keys, all: seq<OutputEvent>, w1: WalletData, x: WalletData, y: WalletData)
  {
    && y == x.(unspent := y.unspent, spent := y.spent)
    && (forall n :: n in y.unspent <==> n in x.unspent || (n in w1.unspent && n.address >= |x.leaves|))
    && (forall n :: n in y.spent <==> n in x.spent || n in w1.spent)
    && Described(k, all, y.unspent) && Described(k, all, y.spent)
  }

  ghost predicate Described(k: Keys, all: seq<OutputEvent>, files: map<NoteName, NoteDescription>)
  {
    forall n :: n in files ==> OwnName(k, all, n) && files[n] == DescriptionAt(k, all, n.address)
  }

  lemma DescribedLater(k: Keys, outs: seq<OutputEvent>, more: seq<OutputEvent>, files: map<NoteName, NoteDescription>)
    requires Described(k, outs, files)
    ensures Described(k, outs + more, files)
  {
    OwnEarlier(k, outs, more);
    forall n | n in files
      ensures OwnName(k, outs + more, n) && files[n] == DescriptionAt(k, outs + more, n.address)
    {
      assert OwnName(k, outs, n);
    }
  }

  /** A file of the first sync at the address of this output is the file of its note. */
  lemma FileOfOutput(k: Keys, outs: seq<OutputEvent>, more: seq<OutputEvent>, n: NoteName)
    requires more != [] && OwnName(k, outs + more, n) && n.address == |outs|
    ensures
      var note := Accept(k, more[0]);
      note.Some? && n == NameOf(NoteDescription(note.value, |outs|, more[0].commitment))
  {}

  lemma RepeatsForeign(k: Keys, outs: seq<OutputEvent>, more: seq<OutputEvent>,
                       w1: WalletData, x: WalletData, y: WalletData)
    requires more != [] && |x.leaves| == |outs| && Accept(k, more[0]).None?
    requires Repeats(k, outs + more, w1, x, y) && Described(k, outs + more, w1.unspent)
    ensures Repeats(k, outs + more, w1, AddOutput(k, x, more[0]), AddOutput(k, y, more[0]))
  {
    forall n | n in w1.unspent
      ensures n.address != |outs|
    {
      if n.address == |outs| {
        FileOfOutput(k, outs, more, n);
      }
    }
  }

  lemma RepeatsOwn(k: Keys, outs: seq<OutputEvent>, more: seq<OutputEvent>,
                   w1: WalletData, x: WalletData, y: WalletData)
    requires more != [] && |x.leaves| == |outs| && Accept(k, more[0]).Some?
    requires Repeats(k, outs + more, w1, x, y) && Described(k, outs + more, w1.unspent)
    ensures Repeats(k, outs + more, w1, AddOutput(k, x, more[0]), AddOutput(k, y, more[0]))
  {
    var all, ev := outs + more, more[0];
    var desc := NoteDescription(Accept(k, ev).value, |outs|, ev.commitment);
    var name := NameOf(desc);
    assert all[|outs|] == ev && OwnName(k, all, name) && desc == DescriptionAt(k, all, |outs|);
    forall n | n in w1.unspent && n.address == |outs|
      ensures n == name
    {
      FileOfOutput(k, outs, more, n);
    }
    WriteBoth(k, all, w1, x, y, AddOutput(k, x, ev), AddOutput(k, y, ev), name, desc);
  }

  /** Both write the same file. */
  lemma WriteBoth(k: Keys, all: seq<OutputEvent>, w1: WalletData, x: WalletData, y: WalletData,
                  x': WalletData, y': WalletData, name: NoteName, desc: NoteDescription)
    requires Repeats(k, all, w1, x, y) && OwnName(k, all, name) && desc == DescriptionAt(k, all, name.address)
    requires x'.unspent == x.unspent[name := desc] && y'.unspent == y.unspent[name := desc]
    requires x'.spent == x.spent && y'.spent == y.spent && |x'.leaves| == |x.leaves| + 1
    requires y' == x'.(unspent := y'.unspent, spent := y'.spent)
    requires forall n :: n in w1.unspent && n.address == |x.leaves| ==> n == name
    ensures Repeats(k, all, w1, x', y')
  {}

  lemma FindsSame(k: Keys, outs: seq<OutputEvent>, more: seq<OutputEvent>, w1: WalletData, x: WalletData, y: WalletData,
                  name: NoteName)
    requires Distinct(k, outs + more) && Repeats(k, outs + more, w1, x, y) && name in x.unspent
    ensures name in y.unspent && FindNote(y.unspent, name.short) == Some(name)
  {
    forall m | m in y.unspent
      ensures m.short == name.short ==> m == name
    {
      SameShort(k, outs + more, m, name);
    }
    assert Candidates(y.unspent, name.short) == {name};
    FindNoteUnique(y.unspent, name);
  }

  /** A listed nullifier leads to the file of one unspent note. */
  lemma ListedNote(k: Keys, outs: seq<OutputEvent>, w: WalletData, hex: string) returns (name: NoteName)
    requires WalletInv(k, outs, w) && Distinct(k, outs) && hex in w.nullifierMap
    ensures name in w.unspent && name.address < |outs|
    ensures w.nullifierMap[hex] == name.short != "" && FindNote(w.unspent, name.short) == Some(name)
  {
    assert Listed(k, outs, hex, w.nullifierMap[hex]);
    var i :| Own(k, outs, i) && hex == Encode(NullifierAt(k, outs, i));
    NullifierFindsNote(k, outs, w, i);
    name := NameAt(k, outs, i);
  }

  lemma RepeatsNullifier(k: Keys, outs: seq<OutputEvent>, more: seq<OutputEvent>,
                         w1: WalletData, x: WalletData, y: WalletData, nf: Bytes)
    requires WalletInv(k, outs, x) && Distinct(k, outs + more)
    requires Repeats(k, outs + more, w1, x, y)
    ensures SeeNullifier(x, nf).Ok? && SeeNullifier(y, nf).Ok?
    ensures Repeats(k, outs + more, w1, SeeNullifier(x, nf).value, SeeNullifier(y, nf).value)
  {
    var hex := Encode(nf);
    if hex in x.nullifierMap {
      DistinctPrefix(k, outs, more);
      var name := ListedNote(k, outs, x, hex);
      FindsSame(k, outs, more, w1, x, y, name);
      SpendBoth(k, outs + more, w1, x, y, name, hex);
      assert SeeNullifier(x, nf) == Ok(Spend(x, name, hex));
      assert SeeNullifier(y, nf) == Ok(Spend(y, name, hex));
    } else {
      assert SeeNullifier(x, nf) == Ok(x) && SeeNullifier(y, nf) == Ok(y);
    }
  }

  lemma SpendBoth(k: Keys, all: seq<OutputEvent>, w1: WalletData, x: WalletData, y: WalletData, name: NoteName,
                  hex: string)
    requires Repeats(k, all, w1, x, y) && name in x.unspent && name in y.unspent && name.address < |x.leaves|
    ensures Repeats(k, all, w1, Spend(x, name, hex), Spend(y, name, hex))
  {}

  /** The repetition follows the first sync step by step. */
  lemma {:induction false} RepetitionFollows(k: Keys, capacity: nat, outs: seq<OutputEvent>, w0: WalletData,
                                             w1: WalletData,
                                             ops: seq<Op>, rest: seq<OutputEvent>)
    requires WalletInv(k, outs, w0)
    requires Distinct(k, outs + Outputs(ops) + rest) && |outs + Outputs(ops)| <= capacity
    requires Described(k, outs + Outputs(ops) + rest, w1.unspent)
    requires Repeats(k, outs + Outputs(ops) + rest, w1, w0, Interrupted(w0, w1))
    ensures
      var r, r' := RunOps(k, capacity, w0, ops), RunOps(k, capacity, Interrupted(w0, w1), ops);
      r.Ok? && r'.Ok? && Repeats(k, outs + Outputs(ops) + rest, w1, r.value, r'.value)
    decreases |ops|
  {
    if ops != [] {
      var ops0, op := ops[..|ops| - 1], ops[|ops| - 1];
      var outs0, all := outs + Outputs(ops0), outs + Outputs(ops) + rest;
      var rest0 := if op.Output? then [op.event] + rest else rest;
      assert outs0 + rest0 == all;
      RepetitionFollows(k, capacity, outs, w0, w1, ops0, rest0);
      DistinctPrefix(k, outs0, rest0);
      RunFrom(k, capacity, outs, w0, ops0);
      var x, y := RunOps(k, capacity, w0, ops0).value, RunOps(k, capacity, Interrupted(w0, w1), ops0).value;
      if op.Nullifier? {
        RepeatsNullifier(k, outs0, rest0, w1, x, y, op.nullifier);
      } else if Accept(k, op.event).None? {
        RepeatsForeign(k, outs0, rest0, w1, x, y);
      } else {
        RepeatsOwn(k, outs0, rest0, w1, x, y);
      }
    }
  }

  lemma FileSomewhere(k: Keys, outs: seq<OutputEvent>, w: WalletData, n: NoteName)
    requires FilesInv(k, outs, w) && OwnName(k, outs, n)
    ensures n in w.unspent || n in w.spent
  {
    assert Own(k, outs, n.address);
  }

  /** At the start the repetition has the files of the end of the first sync. */
  lemma RepetitionStarts(k: Keys, outs: seq<OutputEvent>, more: seq<OutputEvent>, w0: WalletData, w1: WalletData)
    requires WalletInv(k, outs, w0) && FilesInv(k, outs + more, w1) && !Moved(w0, w1)
    requires forall n :: n in w0.spent ==> n in w1.spent
    ensures Repeats(k, outs + more, w1, w0, Interrupted(w0, w1))
  {
    OwnEarlier(k, outs, more);
    forall n
      ensures n in w1.unspent <==> n in w0.unspent || (n in w1.unspent && n.address >= |w0.leaves|)
    {
      if OwnName(k, outs, n) {
        FileSomewhere(k, outs, w0, n);
        FileSomewhere(k, outs + more, w1, n);
      }
      assert n in w1.unspent ==> OwnName(k, outs + more, n);
    }
  }

  lemma SameFiles(k: Keys, all: seq<OutputEvent>, a: map<NoteName, NoteDescription>, b: map<NoteName, NoteDescription>)
    requires Described(k, all, a) && Described(k, all, b) && forall n :: n in a <==> n in b
    ensures a == b
  {}

  /** At the end it has no other files. */
  lemma RepetitionEnds(k: Keys, all: seq<OutputEvent>, w1: WalletData, y: WalletData)
    requires FilesInv(k, all, w1) && |w1.leaves| == |all| && Repeats(k, all, w1, w1, y)
    ensures y == w1
  {
    forall n | n in y.unspent
      ensures n in w1.unspent
    {
      assert OwnName(k, all, n);
    }
    SameFiles(k, all, y.unspent, w1.unspent);
    SameFiles(k, all, y.spent, w1.spent);
  }

  /** A sync that stopped after these operations can be made up for if and only if it had not moved
      a note that was unspent when it started: then repeating it, and going on, gives exactly the
      wallet of an undisturbed sync. Otherwise the repetition fails. */
  lemma RetryOutcome(k: Keys, capacity: nat, outs: seq<OutputEvent>, w0: WalletData, ops: seq<Op>, more: seq<Op>)
    requires WalletInv(k, outs, w0)
    requires Distinct(k, outs + Outputs(ops)) && |outs + Outputs(ops)| <= capacity
    requires RunOps(k, capacity, w0, ops).Ok?
    ensures
      var w1 := RunOps(k, capacity, w0, ops).value;
      var retry := RunOps(k, capacity, Interrupted(w0, w1), ops + more);
      if Moved(w0, w1) then retry.Err? else retry == RunOps(k, capacity, w0, ops + more)
  {
    var all, w1 := outs + Outputs(ops), RunOps(k, capacity, w0, ops).value;
    var d := Interrupted(w0, w1);
    RunOpsAppend(k, capacity, d, ops, more);
    RunOpsAppend(k, capacity, w0, ops, more);
    RunFrom(k, capacity, outs, w0, ops);
    if Moved(w0, w1) {
      var n :| n in w0.unspent && n in w1.spent;
      MovedIsStuck(k, capacity, outs, w0, ops, n);
      StuckIsLasting(k, capacity, outs, d, n.address, ops);
    } else {
      assert all + [] == all;
      forall n | n in w0.spent
        ensures n in w1.spent
      {
        SpentStays(k, capacity, w0, ops, n);
      }
      RepetitionStarts(k, outs, Outputs(ops), w0, w1);
      RepetitionFollows(k, capacity, outs, w0, w1, ops, []);
      RepetitionEnds(k, all, w1, RunOps(k, capacity, d, ops).value);
    }
  }

  /** The same for a sync that stopped anywhere among its operations, and a later one that has to do
      them all and more. */
  lemma RetryAfterFailure(k: Keys, capacity: nat, outs: seq<OutputEvent>, w0: WalletData, ops: seq<Op>, w: WalletData,
                          later: seq<Op>)
    requires WalletInv(k, outs, w0)
    requires Distinct(k, outs + Outputs(ops)) && |outs + Outputs(ops)| <= capacity
    requires ReachedIn(k, capacity, w0, ops, w)
    ensures
      var retry := RunOps(k, capacity, Interrupted(w0, w), ops + later);
      if Moved(w0, w) then retry.Err? else retry == RunOps(k, capacity, w0, ops + later)
  {
    var n :| 0 <= n <= |ops| && RunOps(k, capacity, w0, ops[..n]) == Ok(w);
    var done, more := ops[..n], ops[n..];
    assert ops + later == done + (more + later);
    DistinctUpTo(k, outs, ops, n);
    RetryOutcome(k, capacity, outs, w0, done, more + later);
  }

  lemma DistinctUpTo(k: Keys, outs: seq<OutputEvent>, ops: seq<Op>, n: nat)
    requires n <= |ops| && Distinct(k, outs + Outputs(ops))
    ensures Distinct(k, outs + Outputs(ops[..n])) && |Outputs(ops[..n])| <= |Outputs(ops)|
  {
    var done, more := ops[..n], ops[n..];
    assert ops == done + more;
    OutputsAppend(done, more);
    assert outs + Outputs(ops) == (outs + Outputs(done)) + Outputs(more);
    DistinctPrefix(k, outs + Outputs(done), Outputs(more));
  }

  lemma {:induction false} OutputsAppend(a: seq<Op>, b: seq<Op>)
    ensures Outputs(a + b) == Outputs(a) + Outputs(b)
  {
    if b == [] {
      assert a + b == a;
    } else {
      OutputsAppend(a, b[..|b| - 1]);
      assert (a + b)[..|a + b| - 1] == a + b[..|b| - 1];
    }
  }
}
