/** The wallet as a value: what receiving outputs and seeing nullifiers does to it, and what
    every interleaving of the two keeps. */
module WalletSpec {
  import opened Bytes
  import opened Outcomes
  import opened Hex

  type Bytes32 = b: Bytes | |b| == 32 witness seq(32, _ => 0)

  /** Secret note data; its content matters only through the functions in Keys. */
  datatype Note = Note(value: nat, data: Bytes)

  datatype OutputEvent = OutputEvent(commitment: Bytes, ciphertext: Bytes)

  datatype NoteDescription = NoteDescription(note: Note, address: nat, commitment: Bytes)

  /** Components of a note's file name. */
  datatype NoteName = NoteName(address: nat, short: string, value: nat)

  /** The wallet owner's cryptography, uninterpreted. */
  datatype Keys = Keys(decrypt: Bytes -> Option<Note>, commitment: Note -> Bytes32, nullifier: Note -> Bytes)

  datatype SyncError = TreeFull | NoteFileMissing | QueryFailed | StaleTree | RootMismatch

  /** Everything a wallet holds. `unspent` and `spent` are the note files of the two directories. */
  datatype WalletData = WalletData(
    leaves: seq<Bytes>,
    numNotes: nat,
    nullifierMap: map<string, string>,
    unspent: map<NoteName, NoteDescription>,
    spent: map<NoteName, NoteDescription>,
    nextBlock: nat)

  const NEW_WALLET := WalletData([], 0, map[], map[], map[], 1)

  function ShortCommitment(cm: Bytes): string
  {
    Encode(if |cm| < 4 then cm else cm[..4])
  }

  function NameOf(d: NoteDescription): NoteName
  {
    NoteName(d.address, ShortCommitment(d.commitment), d.note.value)
  }

  /** The note in an output, if it decrypts and its commitment checks. */
  function Accept(k: Keys, ev: OutputEvent): Option<Note>
  {
    var note := k.decrypt(ev.ciphertext);
    if note.Some? && k.commitment(note.value) == ev.commitment then note else None
  }

  datatype Op = Output(event: OutputEvent) | Nullifier(nullifier: Bytes)

  /** The only unspent note file with this short commitment; None if there is not exactly one. */
  ghost function FindNote(unspent: map<NoteName, NoteDescription>, short: string): (r: Option<NoteName>)
    ensures r.Some? ==> Candidates(unspent, short) == {r.value}
  {
    var c := Candidates(unspent, short);
    if |c| == 1 then (var n :| n in c; Singleton(c, n); Some(n)) else None
  }

  function Candidates(unspent: map<NoteName, NoteDescription>, short: string): set<NoteName>
  {
    set n | n in unspent && n.short == short
  }

  lemma Singleton<T>(c: set<T>, x: T)
    requires |c| == 1 && x in c
    ensures c == {x}
  {
    assert |c - {x}| == 0;
  }

  function AddOutput(k: Keys, w: WalletData, ev: OutputEvent): WalletData
  {
    var note := Accept(k, ev);
    var w1 := w.(leaves := w.leaves + [ev.commitment], numNotes := w.numNotes + 1);
    if note.None? then w1
    else
      var desc := NoteDescription(note.value, |w.leaves|, ev.commitment);
      w1.(unspent := w.unspent[NameOf(desc) := desc],
          nullifierMap := w.nullifierMap[Encode(k.nullifier(note.value)) := ShortCommitment(ev.commitment)])
  }

  ghost function SeeNullifier(w: WalletData, nullifier: Bytes): Result<WalletData, SyncError>
  {
    var hex := Encode(nullifier);
    if hex !in w.nullifierMap || w.nullifierMap[hex] == "" then Ok(w)
    else
      var name := FindNote(w.unspent, w.nullifierMap[hex]);
      if name.None? then Err(NoteFileMissing)
      else Ok(Spend(w, name.value, hex))
  }

  /** Move one note file to the spent directory and forget its nullifier. */
  function Spend(w: WalletData, name: NoteName, hex: string): WalletData
    requires name in w.unspent
  {
    w.(unspent := w.unspent - {name}, spent := w.spent[name := w.unspent[name]], nullifierMap := w.nullifierMap - {hex})
  }

  ghost function StepOp(k: Keys, capacity: nat, w: WalletData, op: Op): Result<WalletData, SyncError>
  {
    match op
    case Output(ev) => if |w.leaves| >= capacity then Err(TreeFull) else Ok(AddOutput(k, w, ev))
    case Nullifier(nf) => SeeNullifier(w, nf)
  }

  ghost function RunOps(k: Keys, capacity: nat, w: WalletData, ops: seq<Op>): Result<WalletData, SyncError>
  {
    if ops == [] then Ok(w)
    else
      var r := RunOps(k, capacity, w, ops[..|ops| - 1]);
      if r.Err? then r else StepOp(k, capacity, r.value, ops[|ops| - 1])
  }

  lemma {:induction false} RunOpsAppend(k: Keys, capacity: nat, w: WalletData, a: seq<Op>, b: seq<Op>)
    ensures RunOps(k, capacity, w, a + b) ==
      (var r := RunOps(k, capacity, w, a); if r.Err? then r else RunOps(k, capacity, r.value, b))
  {
    if b == [] {
      assert a + b == a;
    } else {
      var b0 := b[..|b| - 1];
      RunOpsAppend(k, capacity, w, a, b0);
      assert (a + b)[..|a + b| - 1] == a + b0;
    }
  }

  /** w is reached from w0 by some of the operations, in order from the first. */
  ghost predicate ReachedIn(k: Keys, capacity: nat, w0: WalletData, ops: seq<Op>, w: WalletData)
  {
    exists n :: 0 <= n <= |ops| && RunOps(k, capacity, w0, ops[..n]) == Ok(w)
  }

  lemma ReachedAt(k: Keys, capacity: nat, w0: WalletData, ops: seq<Op>, more: seq<Op>, w: WalletData)
    requires RunOps(k, capacity, w0, ops) == Ok(w)
    ensures ReachedIn(k, capacity, w0, ops + more, w)
  {
    assert (ops + more)[..|ops|] == ops;
  }

  lemma ReachedMore(k: Keys, capacity: nat, w0: WalletData, ops: seq<Op>, more: seq<Op>, w: WalletData)
    requires ReachedIn(k, capacity, w0, ops, w)
    ensures ReachedIn(k, capacity, w0, ops + more, w)
  {
    var n :| 0 <= n <= |ops| && RunOps(k, capacity, w0, ops[..n]) == Ok(w);
    assert (ops + more)[..n] == ops[..n];
  }

  /** Operations before and after make no difference to that. */
  lemma ReachedWithin(k: Keys, capacity: nat, w0: WalletData, before: seq<Op>, w1: WalletData, ops: seq<Op>,
                      after: seq<Op>,
                      w: WalletData)
    requires RunOps(k, capacity, w0, before) == Ok(w1) && ReachedIn(k, capacity, w1, ops, w)
    ensures ReachedIn(k, capacity, w0, before + ops + after, w)
  {
    var n :| 0 <= n <= |ops| && RunOps(k, capacity, w1, ops[..n]) == Ok(w);
    RunOpsAppend(k, capacity, w0, before, ops[..n]);
    assert before + ops + after == (before + ops[..n]) + (ops[n..] + after);
    ReachedAt(k, capacity, w0, before + ops[..n], ops[n..] + after, w);
  }

  // ----- What every interleaving keeps

  function Outputs(ops: seq<Op>): (outs: seq<OutputEvent>)
  {
    if ops == [] then []
    else
      var outs := Outputs(ops[..|ops| - 1]);
      if ops[|ops| - 1].Output? then outs + [ops[|ops| - 1].event] else outs
  }

  /** Output i is a note of this wallet. */
  predicate Own(k: Keys, outs: seq<OutputEvent>, i: int)
  {
    0 <= i < |outs| && Accept(k, outs[i]).Some?
  }

  function DescriptionAt(k: Keys, outs: seq<OutputEvent>, i: nat): NoteDescription
    requires Own(k, outs, i)
  {
    NoteDescription(Accept(k, outs[i]).value, i, outs[i].commitment)
  }

  function NameAt(k: Keys, outs: seq<OutputEvent>, i: nat): NoteName
    requires Own(k, outs, i)
  {
    NameOf(DescriptionAt(k, outs, i))
  }

  function NullifierAt(k: Keys, outs: seq<OutputEvent>, i: nat): Bytes
    requires Own(k, outs, i)
  {
    k.nullifier(Accept(k, outs[i]).value)
  }

  /** The wallet's notes have different nullifiers and different short commitments. */
  ghost predicate Distinct(k: Keys, outs: seq<OutputEvent>)
  {
    forall i, j :: Own(k, outs, i) && Own(k, outs, j) && i != j ==>
      NullifierAt(k, outs, i) != NullifierAt(k, outs, j) && NameAt(k, outs, i).short != NameAt(k, outs, j).short
  }

  /** Nullifier of note i appears in `ops` at a point where output i has been received. */
  ghost predicate Published(k: Keys, outs: seq<OutputEvent>, ops: seq<Op>, i: int)
    requires Own(k, outs, i)
  {
    exists q :: 0 <= q < |ops| && PublishedAt(k, outs, ops, i, q)
  }

  predicate PublishedAt(k: Keys, outs: seq<OutputEvent>, ops: seq<Op>, i: nat, q: nat)
    requires Own(k, outs, i) && q < |ops|
  {
    i < |Outputs(ops[..q])| && ops[q] == Nullifier(NullifierAt(k, outs, i))
  }

  ghost predicate Commitments(outs: seq<OutputEvent>, leaves: seq<Bytes>)
  {
    |leaves| == |outs| && forall i :: 0 <= i < |outs| ==> leaves[i] == outs[i].commitment
  }

  ghost predicate OwnName(k: Keys, outs: seq<OutputEvent>, n: NoteName)
  {
    Own(k, outs, n.address) && n == NameAt(k, outs, n.address)
  }

  ghost predicate WalletInv(k: Keys, outs: seq<OutputEvent>, w: WalletData)
  {
    && Commitments(outs, w.leaves) && w.numNotes == |outs|
    && FilesInv(k, outs, w)
    && MapInv(k, outs, w)
  }

  /** Each own note is in exactly one directory, and there is nothing else in them. */
  ghost predicate FilesInv(k: Keys, outs: seq<OutputEvent>, w: WalletData)
  {
    && (forall n :: n in w.unspent ==>
         n !in w.spent && OwnName(k, outs, n) && w.unspent[n] == DescriptionAt(k, outs, n.address))
    && (forall n :: n in w.spent ==> OwnName(k, outs, n) && w.spent[n] == DescriptionAt(k, outs, n.address))
    && (forall i :: Own(k, outs, i) ==> NameAt(k, outs, i) in w.unspent || NameAt(k, outs, i) in w.spent)
  }

  /** The nullifier map lists exactly the unspent notes. */
  ghost predicate MapInv(k: Keys, outs: seq<OutputEvent>, w: WalletData)
  {
    && (forall i :: Own(k, outs, i) ==>
          (Encode(NullifierAt(k, outs, i)) in w.nullifierMap <==> NameAt(k, outs, i) in w.unspent))
    && (forall hex :: hex in w.nullifierMap ==> Listed(k, outs, hex, w.nullifierMap[hex]))
  }

  ghost predicate Listed(k: Keys, outs: seq<OutputEvent>, hex: string, short: string)
  {
    exists i :: Own(k, outs, i) && hex == Encode(NullifierAt(k, outs, i)) && short == NameAt(k, outs, i).short
  }

  /** Receiving one more output changes nothing about the earlier ones. */
  lemma EarlierOutputs(k: Keys, outs: seq<OutputEvent>, ev: OutputEvent)
    ensures forall i :: 0 <= i < |outs| ==> (Own(k, outs + [ev], i) <==> Own(k, outs, i))
    ensures forall i :: Own(k, outs, i) ==>
      && Own(k, outs + [ev], i)
      && NameAt(k, outs + [ev], i) == NameAt(k, outs, i)
      && DescriptionAt(k, outs + [ev], i) == DescriptionAt(k, outs, i)
      && NullifierAt(k, outs + [ev], i) == NullifierAt(k, outs, i)
  {}

  lemma EarlierDistinct(k: Keys, outs: seq<OutputEvent>, ev: OutputEvent)
    requires Distinct(k, outs + [ev])
    ensures Distinct(k, outs)
  {
    EarlierOutputs(k, outs, ev);
    forall i, j | Own(k, outs, i) && Own(k, outs, j) && i != j
      ensures NullifierAt(k, outs, i) != NullifierAt(k, outs, j) && NameAt(k, outs, i).short != NameAt(k, outs, j).short
    {
      assert Own(k, outs + [ev], i) && Own(k, outs + [ev], j);
    }
  }

  lemma ListedLater(k: Keys, outs: seq<OutputEvent>, ev: OutputEvent, hex: string, short: string)
    requires Listed(k, outs, hex, short)
    ensures Listed(k, outs + [ev], hex, short)
  {
    EarlierOutputs(k, outs, ev);
    var i :| Own(k, outs, i) && hex == Encode(NullifierAt(k, outs, i)) && short == NameAt(k, outs, i).short;
    assert Own(k, outs + [ev], i);
  }

  lemma OutputKeepsInv(k: Keys, outs: seq<OutputEvent>, w: WalletData, ev: OutputEvent)
    requires WalletInv(k, outs, w) && Distinct(k, outs + [ev])
    ensures WalletInv(k, outs + [ev], AddOutput(k, w, ev))
  {
    OutputKeepsFiles(k, outs, w, ev);
    OutputKeepsMap(k, outs, w, ev);
    OutputKeepsLeaves(k, outs, w, ev);
    assert FilesInv(k, outs + [ev], AddOutput(k, w, ev)) && MapInv(k, outs + [ev], AddOutput(k, w, ev));
  }

  lemma OutputKeepsLeaves(k: Keys, outs: seq<OutputEvent>, w: WalletData, ev: OutputEvent)
    requires Commitments(outs, w.leaves) && w.numNotes == |outs|
    ensures Commitments(outs + [ev], AddOutput(k, w, ev).leaves) && AddOutput(k, w, ev).numNotes == |outs + [ev]|
  {}

  lemma OutputKeepsFiles(k: Keys, outs: seq<OutputEvent>, w: WalletData, ev: OutputEvent)
    requires FilesInv(k, outs, w) && |w.leaves| == |outs|
    ensures FilesInv(k, outs + [ev], AddOutput(k, w, ev))
  {
    var outs', w' := outs + [ev], AddOutput(k, w, ev);
    OutputKeepsUnspent(k, outs, w, ev);
    forall n | n in w'.spent
      ensures OwnName(k, outs', n) && w'.spent[n] == DescriptionAt(k, outs', n.address)
    {
      NameKept(k, outs, ev, n);
    }
    forall i | Own(k, outs', i)
      ensures NameAt(k, outs', i) in w'.unspent || NameAt(k, outs', i) in w'.spent
    {
      if i < |outs| {
        assert Own(k, outs, i);
        NameKept(k, outs, ev, NameAt(k, outs, i));
      }
    }
  }

  lemma OutputKeepsUnspent(k: Keys, outs: seq<OutputEvent>, w: WalletData, ev: OutputEvent)
    requires FilesInv(k, outs, w) && |w.leaves| == |outs|
    ensures
      var outs', w' := outs + [ev], AddOutput(k, w, ev);
      forall n :: n in w'.unspent ==>
        n !in w'.spent && OwnName(k, outs', n) && w'.unspent[n] == DescriptionAt(k, outs', n.address)
  {
    var outs', w' := outs + [ev], AddOutput(k, w, ev);
    forall n | n in w'.unspent
      ensures n !in w'.spent && OwnName(k, outs', n) && w'.unspent[n] == DescriptionAt(k, outs', n.address)
    {
      if n in w.unspent {
        NameKept(k, outs, ev, n);
      }
    }
  }

  lemma NameKept(k: Keys, outs: seq<OutputEvent>, ev: OutputEvent, n: NoteName)
    requires OwnName(k, outs, n)
    ensures n.address < |outs|
    ensures OwnName(k, outs + [ev], n) && DescriptionAt(k, outs + [ev], n.address) == DescriptionAt(k, outs, n.address)
  {}

  lemma OutputKeepsMap(k: Keys, outs: seq<OutputEvent>, w: WalletData, ev: OutputEvent)
    requires WalletInv(k, outs, w) && Distinct(k, outs + [ev])
    ensures MapInv(k, outs + [ev], AddOutput(k, w, ev))
  {
    var outs', w', n := outs + [ev], AddOutput(k, w, ev), |outs|;
    EarlierOutputs(k, outs, ev);
    forall hex | hex in w'.nullifierMap
      ensures Listed(k, outs', hex, w'.nullifierMap[hex])
    {
      if Own(k, outs', n) && hex == Encode(NullifierAt(k, outs', n)) {
      } else {
        ListedLater(k, outs, ev, hex, w.nullifierMap[hex]);
      }
    }
    forall i | Own(k, outs', i)
      ensures Encode(NullifierAt(k, outs', i)) in w'.nullifierMap <==> NameAt(k, outs', i) in w'.unspent
    {
      if i != n {
        assert Own(k, outs, i);
        if Own(k, outs', n) {
          NullifiersDiffer(k, outs', i, n);
        }
      }
    }
  }

  lemma NullifiersDiffer(k: Keys, outs: seq<OutputEvent>, i: nat, j: nat)
    requires Distinct(k, outs) && Own(k, outs, i) && Own(k, outs, j) && i != j
    ensures Encode(NullifierAt(k, outs, i)) != Encode(NullifierAt(k, outs, j))
  {
    if Encode(NullifierAt(k, outs, i)) == Encode(NullifierAt(k, outs, j)) {
      EncodeInjective(NullifierAt(k, outs, i), NullifierAt(k, outs, j));
    }
  }

  /** Under distinctness the nullifier of note i leads back to its own file and no other. */
  lemma NullifierFindsNote(k: Keys, outs: seq<OutputEvent>, w: WalletData, i: nat)
    requires WalletInv(k, outs, w) && Distinct(k, outs) && Own(k, outs, i) && NameAt(k, outs, i) in w.unspent
    ensures
      var hex := Encode(NullifierAt(k, outs, i));
      && hex in w.nullifierMap && w.nullifierMap[hex] == NameAt(k, outs, i).short != ""
      && FindNote(w.unspent, w.nullifierMap[hex]) == Some(NameAt(k, outs, i))
  {
    var hex, name := Encode(NullifierAt(k, outs, i)), NameAt(k, outs, i);
    assert Listed(k, outs, hex, w.nullifierMap[hex]);
    var j :| Own(k, outs, j) && hex == Encode(NullifierAt(k, outs, j)) &&
      w.nullifierMap[hex] == NameAt(k, outs, j).short;
    EncodeInjective(NullifierAt(k, outs, i), NullifierAt(k, outs, j));
    assert i == j;
    assert |outs[i].commitment| == 32;
    OnlyCandidate(k, outs, w, i);
    FindNoteUnique(w.unspent, name);
  }

  lemma FindNoteUnique(unspent: map<NoteName, NoteDescription>, name: NoteName)
    requires Candidates(unspent, name.short) == {name}
    ensures FindNote(unspent, name.short) == Some(name)
  {}

  lemma OnlyCandidate(k: Keys, outs: seq<OutputEvent>, w: WalletData, i: nat)
    requires FilesInv(k, outs, w) && Distinct(k, outs) && Own(k, outs, i) && NameAt(k, outs, i) in w.unspent
    ensures Candidates(w.unspent, NameAt(k, outs, i).short) == {NameAt(k, outs, i)}
  {
    var name := NameAt(k, outs, i);
    forall n | n in Candidates(w.unspent, name.short)
      ensures n == name
    {
      assert OwnName(k, outs, n);
      assert Own(k, outs, n.address) && NameAt(k, outs, n.address).short == name.short;
    }
  }

  /** Seeing a nullifier never fails and spends exactly the unspent note it belongs to. */
  lemma NullifierKeepsInv(k: Keys, outs: seq<OutputEvent>, w: WalletData, nf: Bytes)
    requires WalletInv(k, outs, w) && Distinct(k, outs)
    ensures SeeNullifier(w, nf).Ok? && WalletInv(k, outs, SeeNullifier(w, nf).value)
    ensures forall i :: Own(k, outs, i) ==>
      (NameAt(k, outs, i) in SeeNullifier(w, nf).value.spent <==>
        NameAt(k, outs, i) in w.spent || NullifierAt(k, outs, i) == nf)
  {
    var hex := Encode(nf);
    if hex in w.nullifierMap {
      assert Listed(k, outs, hex, w.nullifierMap[hex]);
      var i :| Own(k, outs, i) && hex == Encode(NullifierAt(k, outs, i)) &&
        w.nullifierMap[hex] == NameAt(k, outs, i).short;
      EncodeInjective(nf, NullifierAt(k, outs, i));
      NullifierFindsNote(k, outs, w, i);
      assert SeeNullifier(w, nf) == Ok(Spend(w, NameAt(k, outs, i), hex));
      SpendKeepsInv(k, outs, w, i);
      forall j | Own(k, outs, j)
        ensures NullifierAt(k, outs, j) == nf <==> j == i
      {}
    } else {
      assert SeeNullifier(w, nf) == Ok(w);
      forall j | Own(k, outs, j) && NullifierAt(k, outs, j) == nf
        ensures NameAt(k, outs, j) in w.spent
      {}
    }
  }

  lemma SpendKeepsInv(k: Keys, outs: seq<OutputEvent>, w: WalletData, i: nat)
    requires WalletInv(k, outs, w) && Distinct(k, outs) && Own(k, outs, i) && NameAt(k, outs, i) in w.unspent
    ensures
      var w' := Spend(w, NameAt(k, outs, i), Encode(NullifierAt(k, outs, i)));
      && WalletInv(k, outs, w')
      && forall j :: Own(k, outs, j) ==> (NameAt(k, outs, j) in w'.spent <==> NameAt(k, outs, j) in w.spent || j == i)
  {
    SpendKeepsFiles(k, outs, w, i);
    SpendKeepsMap(k, outs, w, i);
    forall j | Own(k, outs, j)
      ensures NameAt(k, outs, j) == NameAt(k, outs, i) <==> j == i
    {}
  }

  lemma SpendKeepsFiles(k: Keys, outs: seq<OutputEvent>, w: WalletData, i: nat)
    requires FilesInv(k, outs, w) && Own(k, outs, i) && NameAt(k, outs, i) in w.unspent
    ensures FilesInv(k, outs, Spend(w, NameAt(k, outs, i), Encode(NullifierAt(k, outs, i))))
  {
    var name := NameAt(k, outs, i);
    var w' := Spend(w, name, Encode(NullifierAt(k, outs, i)));
    forall n | n in w'.spent
      ensures OwnName(k, outs, n) && w'.spent[n] == DescriptionAt(k, outs, n.address)
    {
      if n == name {
        assert w.unspent[n] == DescriptionAt(k, outs, n.address);
      }
    }
    forall j | Own(k, outs, j)
      ensures NameAt(k, outs, j) in w'.unspent || NameAt(k, outs, j) in w'.spent
    {
      assert NameAt(k, outs, j) in w.unspent || NameAt(k, outs, j) in w.spent;
    }
  }

  lemma SpendKeepsMap(k: Keys, outs: seq<OutputEvent>, w: WalletData, i: nat)
    requires MapInv(k, outs, w) && Distinct(k, outs) && Own(k, outs, i) && NameAt(k, outs, i) in w.unspent
    ensures MapInv(k, outs, Spend(w, NameAt(k, outs, i), Encode(NullifierAt(k, outs, i))))
  {
    var name, hex := NameAt(k, outs, i), Encode(NullifierAt(k, outs, i));
    var w' := Spend(w, name, hex);
    forall j | Own(k, outs, j)
      ensures Encode(NullifierAt(k, outs, j)) in w'.nullifierMap <==> NameAt(k, outs, j) in w'.unspent
    {
      if j != i {
        NullifiersDiffer(k, outs, j, i);
        assert NameAt(k, outs, j).address != name.address;
      }
    }
  }

  /** For every interleaving of receive_notes and mark_nullifiers_used on a new wallet, none of
      which overfills the tree: no step fails, every own note is in exactly one of the two
      directories, the nullifier map lists exactly the unspent notes, each note's address
      indexes its own commitment, and a note is spent exactly if its nullifier was seen after
      its output. */
  lemma {:induction false} InterleavingKeepsWallet(k: Keys, capacity: nat, ops: seq<Op>)
    requires Distinct(k, Outputs(ops)) && |Outputs(ops)| <= capacity
    ensures
      var r, outs := RunOps(k, capacity, NEW_WALLET, ops), Outputs(ops);
      && r.Ok? && WalletInv(k, outs, r.value)
      && forall i :: Own(k, outs, i) ==> (NameAt(k, outs, i) in r.value.spent <==> Published(k, outs, ops, i))
  {
    if ops != [] {
      var ops0, op, outs := ops[..|ops| - 1], ops[|ops| - 1], Outputs(ops);
      if op.Output? {
        EarlierDistinct(k, Outputs(ops0), op.event);
      }
      InterleavingKeepsWallet(k, capacity, ops0);
      var w0 := RunOps(k, capacity, NEW_WALLET, ops0).value;
      if op.Output? {
        OutputKeepsInv(k, Outputs(ops0), w0, op.event);
        EarlierOutputs(k, Outputs(ops0), op.event);
      } else {
        NullifierKeepsInv(k, outs, w0, op.nullifier);
      }
      forall i | Own(k, outs, i)
        ensures Published(k, outs, ops, i) <==>
          && Own(k, Outputs(ops0), i)
          && (Published(k, Outputs(ops0), ops0, i) || op == Nullifier(NullifierAt(k, outs, i)))
      {
        PublishedStep(k, ops, i);
      }
    }
  }

  // ----- The same in terms of the cryptography alone

  /** Output i carries this note for us: the ciphertext decrypts to it and the commitment is its. */
  predicate Carries(k: Keys, outs: seq<OutputEvent>, i: int, note: Note)
  {
    0 <= i < |outs| && k.decrypt(outs[i].ciphertext) == Some(note) && k.commitment(note) == outs[i].commitment
  }

  /** The file of a note received at an address: name and content. */
  predicate FileOf(n: NoteName, d: NoteDescription, address: nat, note: Note, commitment: Bytes)
  {
    && d == NoteDescription(note, address, commitment)
    && n.address == address && n.value == note.value
    && |commitment| >= 4 && Decode(n.short) == Some(commitment[..4])
  }

  /** Every file, spent or not, is that of a note that its output carries and its leaf commits to. */
  ghost predicate FilesOpenLeaves(k: Keys, outs: seq<OutputEvent>, leaves: seq<Bytes>, files: map<NoteName,
                                  NoteDescription>)
  {
    forall n :: n in files ==>
      var d := files[n];
      && Carries(k, outs, d.address, d.note) && FileOf(n, d, d.address, d.note, outs[d.address].commitment)
      && d.address < |leaves| && k.commitment(d.note) == d.commitment == leaves[d.address]
  }

  /** Every note that an output carries has exactly one file, which is spent or unspent. */
  ghost predicate EveryNoteFiled(k: Keys, outs: seq<OutputEvent>, w: WalletData)
  {
    forall i, note :: Carries(k, outs, i, note) ==> Filed(outs, w, i, note)
  }

  ghost predicate Filed(outs: seq<OutputEvent>, w: WalletData, i: int, note: Note)
  {
    && 0 <= i < |outs|
    && exists n ::
         && (n in w.unspent <==> n !in w.spent)
         && (n in w.unspent ==> FileOf(n, w.unspent[n], i, note, outs[i].commitment))
         && (n in w.spent ==> FileOf(n, w.spent[n], i, note, outs[i].commitment))
  }

  /** The nullifier map lists exactly the nullifiers of the unspent notes. */
  ghost predicate MapListsUnspent(k: Keys, w: WalletData)
  {
    && (forall n :: n in w.unspent ==> Encode(k.nullifier(w.unspent[n].note)) in w.nullifierMap)
    && (forall hex :: hex in w.nullifierMap ==> OfUnspent(k, w, hex))
  }

  ghost predicate OfUnspent(k: Keys, w: WalletData, hex: string)
  {
    && hex in w.nullifierMap
    && exists n :: n in w.unspent && hex == Encode(k.nullifier(w.unspent[n].note)) && w.nullifierMap[hex] == n.short
  }

  lemma OwnCarries(k: Keys, outs: seq<OutputEvent>, i: int)
    requires Own(k, outs, i)
    ensures
      var d := DescriptionAt(k, outs, i);
      && Carries(k, outs, i, d.note) && d.address == i && d.commitment == outs[i].commitment == k.commitment(d.note)
      && FileOf(NameAt(k, outs, i), d, i, d.note, outs[i].commitment)
  {
    var cm := outs[i].commitment;
    assert |cm| == 32;
    DecodeEncode(cm[..4]);
  }

  lemma CarriesOwn(k: Keys, outs: seq<OutputEvent>, i: int, note: Note)
    requires Carries(k, outs, i, note)
    ensures Own(k, outs, i) && DescriptionAt(k, outs, i) == NoteDescription(note, i, outs[i].commitment)
  {}

  lemma FilesOpen(k: Keys, outs: seq<OutputEvent>, w: WalletData)
    requires Commitments(outs, w.leaves) && FilesInv(k, outs, w)
    ensures FilesOpenLeaves(k, outs, w.leaves, w.unspent) && FilesOpenLeaves(k, outs, w.leaves, w.spent)
  {
    forall n | n in w.unspent
      ensures OwnName(k, outs, n) && w.unspent[n] == DescriptionAt(k, outs, n.address)
      ensures Own(k, outs, n.address) && w.unspent[n].address == n.address
    {}
    forall i | Own(k, outs, i)
      ensures
        var d := DescriptionAt(k, outs, i);
        && Carries(k, outs, i, d.note) && d.address == i && d.commitment == outs[i].commitment == k.commitment(d.note)
        && FileOf(NameAt(k, outs, i), d, i, d.note, outs[i].commitment)
    {
      OwnCarries(k, outs, i);
    }
  }

  lemma NotesFiled(k: Keys, outs: seq<OutputEvent>, w: WalletData)
    requires FilesInv(k, outs, w)
    ensures EveryNoteFiled(k, outs, w)
  {
    forall i, note | Carries(k, outs, i, note)
      ensures Filed(outs, w, i, note)
    {
      CarriesOwn(k, outs, i, note);
      OwnCarries(k, outs, i);
      var n := NameAt(k, outs, i);
      assert n in w.unspent || n in w.spent;
      assert n in w.unspent <==> n !in w.spent;
    }
  }

  lemma MapListed(k: Keys, outs: seq<OutputEvent>, w: WalletData)
    requires FilesInv(k, outs, w) && MapInv(k, outs, w)
    ensures MapListsUnspent(k, w)
  {
    forall n | n in w.unspent
      ensures Encode(k.nullifier(w.unspent[n].note)) in w.nullifierMap
    {
      assert OwnName(k, outs, n) && Own(k, outs, n.address);
      assert k.nullifier(w.unspent[n].note) == NullifierAt(k, outs, n.address);
    }
    forall hex | hex in w.nullifierMap
      ensures OfUnspent(k, w, hex)
    {
      assert Listed(k, outs, hex, w.nullifierMap[hex]);
      var i :| Own(k, outs, i) && hex == Encode(NullifierAt(k, outs, i)) &&
        w.nullifierMap[hex] == NameAt(k, outs, i).short;
      var n := NameAt(k, outs, i);
      assert n in w.unspent && w.unspent[n] == DescriptionAt(k, outs, i);
    }
  }

  /** For every interleaving on a new wallet: each file is that of a note which its output carries
      and its leaf commits to, each note that an output carries has exactly one file, and the
      nullifier map lists exactly the unspent ones. */
  lemma NotesOpenCommitments(k: Keys, capacity: nat, ops: seq<Op>)
    requires Distinct(k, Outputs(ops)) && |Outputs(ops)| <= capacity
    ensures
      var r, outs := RunOps(k, capacity, NEW_WALLET, ops), Outputs(ops);
      && r.Ok?
      && FilesOpenLeaves(k, outs, r.value.leaves, r.value.unspent)
      && FilesOpenLeaves(k, outs, r.value.leaves, r.value.spent)
      && EveryNoteFiled(k, outs, r.value)
      && MapListsUnspent(k, r.value)
  {
    InterleavingKeepsWallet(k, capacity, ops);
    var w, outs := RunOps(k, capacity, NEW_WALLET, ops).value, Outputs(ops);
    FilesOpen(k, outs, w);
    NotesFiled(k, outs, w);
    MapListed(k, outs, w);
  }

  lemma PublishedStep(k: Keys, ops: seq<Op>, i: nat)
    requires ops != [] && Own(k, Outputs(ops), i)
    ensures
      var ops0, op, outs := ops[..|ops| - 1], ops[|ops| - 1], Outputs(ops);
      Published(k, outs, ops, i) <==>
        (Own(k, Outputs(ops0), i) && (Published(k, Outputs(ops0), ops0, i) || op == Nullifier(NullifierAt(k, outs, i))))
  {
    var ops0, op, outs := ops[..|ops| - 1], ops[|ops| - 1], Outputs(ops);
    var outs0 := Outputs(ops0);
    if op.Output? {
      EarlierOutputs(k, outs0, op.event);
    }
    assert i < |outs0| ==> Own(k, outs0, i) && NullifierAt(k, outs0, i) == NullifierAt(k, outs, i);
    if Published(k, outs, ops, i) {
      var q :| 0 <= q < |ops| && PublishedAt(k, outs, ops, i, q);
      if q < |ops0| {
        assert ops[..q] == ops0[..q];
        OutputsGrow(ops0, q);
        assert PublishedAt(k, outs0, ops0, i, q);
      } else {
        assert ops[..q] == ops0;
      }
    }
    if Own(k, outs0, i) && Published(k, outs0, ops0, i) {
      var q :| 0 <= q < |ops0| && PublishedAt(k, outs0, ops0, i, q);
      assert ops[..q] == ops0[..q];
      assert PublishedAt(k, outs, ops, i, q);
    }
    if Own(k, outs0, i) && op == Nullifier(NullifierAt(k, outs, i)) {
      assert PublishedAt(k, outs, ops, i, |ops0|);
    }
  }

  lemma {:induction false} OutputsGrow(ops: seq<Op>, q: nat)
    requires q <= |ops|
    ensures |Outputs(ops[..q])| <= |Outputs(ops)|
  {
    if q < |ops| {
      var ops0 := ops[..|ops| - 1];
      assert ops0[..q] == ops[..q];
      OutputsGrow(ops0, q);
    } else {
      assert ops[..q] == ops;
    }
  }
}
