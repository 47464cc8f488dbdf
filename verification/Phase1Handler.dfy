/** The phase 1 (powers of tau) contribution handler: one challenge file that is replaced in
    place, a transcript that grows, and a persisted count of valid contributions. A contribution
    takes two steps, verifying it against the challenge and recording it; the installed timer of
    the server can finalize the ceremony in between. */
module Phase1Handler {
  import opened Bytes
  import opened Outcomes

  /** The external powersoftau commands. `verify` yields the new challenge for a valid response;
      `body` is what is appended to the transcript; `verifyTranscript` gets the round count. */
  datatype PowersOfTau = PowersOfTau(
    initial: Bytes,
    verify: (Bytes, Bytes) -> Option<Bytes>,
    body: Bytes -> Bytes,
    verifyTranscript: (seq<Bytes>, nat) -> bool)

  /** A response that was verified against this challenge and is not recorded yet. */
  datatype Pending = Pending(challenge: Bytes, response: Bytes)

  /** An absent transcript is []; `responses` are those appended since it was last absent, and
      `archive` holds those of each finalized ceremony. */
  datatype State = State(
    challenge: Option<Bytes>,
    transcript: seq<Bytes>,
    count: nat,
    savedCount: Option<nat>,
    output: Option<Bytes>,
    finalTranscript: seq<Bytes>,
    pending: Option<Pending>,
    responses: seq<Bytes>,
    archive: seq<seq<Bytes>>)

  datatype Event = Verify(response: Bytes) | Record | Complete | Reopen

  function Init(p: PowersOfTau): State
  {
    State(Some(p.initial), [], 0, None, None, [], None, [], [])
  }

  /** Nothing is verified, and the handler is not reopened, while a response is pending. */
  function Step(p: PowersOfTau, s: State, e: Event): State
  {
    match e
    case Verify(response) =>
      if s.pending.Some? || s.challenge.None? || p.verify(s.challenge.value, response).None? then s
      else s.(pending := Some(Pending(s.challenge.value, response)))
    case Record =>
      if s.pending.None? then s
      else
        var r := s.pending.value.response;
        s.(challenge := p.verify(s.pending.value.challenge, r), transcript := s.transcript + [p.body(r)],
           count := s.count + 1, savedCount := Some(s.count + 1), pending := None, responses := s.responses + [r])
    case Complete =>
      if s.transcript == [] || s.challenge.None? || !p.verifyTranscript(s.transcript, s.count) then s
      else s.(challenge := None, transcript := [], output := s.challenge, finalTranscript := s.transcript,
              responses := [], archive := s.archive + [s.responses])
    case Reopen =>
      if s.pending.Some? then s
      else s.(count := if s.savedCount.Some? then s.savedCount.value else 0,
              challenge := if s.challenge.Some? then s.challenge else Some(p.initial))
  }

  function Run(p: PowersOfTau, events: seq<Event>): State
  {
    if events == [] then Init(p) else Step(p, Run(p, events[..|events| - 1]), events[|events| - 1])
  }

  function Chain(p: PowersOfTau, challenge: Bytes, responses: seq<Bytes>): Option<Bytes>
  {
    if responses == [] then Some(challenge)
    else
      var before := Chain(p, challenge, responses[..|responses| - 1]);
      if before.None? then None else p.verify(before.value, responses[|responses| - 1])
  }

  function Bodies(p: PowersOfTau, responses: seq<Bytes>): seq<Bytes>
  {
    seq(|responses|, i requires 0 <= i < |responses| => p.body(responses[i]))
  }

  function Total(archive: seq<seq<Bytes>>): nat
  {
    if archive == [] then 0 else Total(archive[..|archive| - 1]) + |archive[|archive| - 1]|
  }

  // ----- What every run keeps

  ghost predicate Inv(p: PowersOfTau, s: State)
  {
    && s.transcript == Bodies(p, s.responses)
    && (s.savedCount == Some(s.count) || (s.savedCount.None? && s.count == 0))
    && s.count == |s.responses| + Total(s.archive)
    && (s.challenge.None? ==> s.responses == [])
    && (s.pending.Some? ==>
          && p.verify(s.pending.value.challenge, s.pending.value.response).Some?
          && (s.challenge.None? || s.challenge == Some(s.pending.value.challenge)))
    && ArchiveInv(p, s)
  }

  /** The final transcript is that of the ceremony finalized last, which was not empty and which
      the verifier accepted for the count at that time. */
  ghost predicate ArchiveInv(p: PowersOfTau, s: State)
  {
    if s.archive == [] then s.output.None? && s.challenge.Some?
    else
      var last := s.archive[|s.archive| - 1];
      && last != [] && s.finalTranscript == Bodies(p, last) && s.output.Some?
      && p.verifyTranscript(s.finalTranscript, Total(s.archive))
  }

  lemma {:induction false} RunInv(p: PowersOfTau, events: seq<Event>)
    ensures Inv(p, Run(p, events))
  {
    if events != [] {
      RunInv(p, events[..|events| - 1]);
      StepInv(p, Run(p, events[..|events| - 1]), events[|events| - 1]);
    }
  }

  lemma StepInv(p: PowersOfTau, s: State, e: Event)
    requires Inv(p, s)
    ensures Inv(p, Step(p, s, e))
  {
    var s' := Step(p, s, e);
    if e.Record? && s.pending.Some? {
      var r := s.pending.value.response;
      assert Bodies(p, s.responses + [r]) == Bodies(p, s.responses) + [p.body(r)];
    }
    if e.Complete? && s != s' {
      assert s'.archive[..|s.archive|] == s.archive;
      assert Bodies(p, []) == [];
    }
  }

  /** In every run the count, in memory and on disk, is the number of responses ever appended.
      It is the number of transcript entries, which the transcript verifier is told, if and
      only if no ceremony was finalized before. */
  lemma CountMatchesTranscript(p: PowersOfTau, events: seq<Event>)
    ensures
      var s := Run(p, events);
      && s.count == |s.transcript| + Total(s.archive)
      && (s.savedCount == Some(s.count) || (s.savedCount.None? && s.count == 0))
      && (s.count == |s.transcript| <==> s.output.None?)
  {
    RunInv(p, events);
  }

  // ----- The chain of responses

  /** The challenge on offer and the final output are what chains of responses, each verified
      against the challenge before it, lead to from the initial challenge. */
  ghost predicate Chained(p: PowersOfTau, s: State)
  {
    && (s.challenge.Some? ==> s.challenge == Chain(p, p.initial, s.responses))
    && (s.archive != [] ==> s.output == Chain(p, p.initial, s.archive[|s.archive| - 1]))
  }

  /** A response is recorded after finalization moved its challenge away, and it does not lead to
      the same place from the initial challenge. */
  predicate Orphaned(p: PowersOfTau, s: State, e: Event)
  {
    && e.Record? && s.pending.Some? && s.challenge.None?
    && p.verify(s.pending.value.challenge, s.pending.value.response) != p.verify(p.initial, s.pending.value.response)
  }

  ghost predicate ChainedThroughout(p: PowersOfTau, events: seq<Event>)
  {
    forall k :: 0 <= k <= |events| ==> Chained(p, Run(p, events[..k]))
  }

  ghost predicate OrphanFree(p: PowersOfTau, events: seq<Event>)
  {
    forall k :: 0 <= k < |events| ==> !Orphaned(p, Run(p, events[..k]), events[k])
  }

  lemma ChainedStep(p: PowersOfTau, s: State, e: Event)
    requires Inv(p, s) && Chained(p, s)
    ensures Chained(p, Step(p, s, e)) <==> !Orphaned(p, s, e)
  {
    if e.Record? && s.pending.Some? {
      var r := s.pending.value.response;
      var rs := s.responses + [r];
      assert rs[..|rs| - 1] == s.responses;
      var before := Chain(p, p.initial, s.responses);
      assert Chain(p, p.initial, rs) == if before.None? then None else p.verify(before.value, r);
    }
  }

  /** Challenge and final output come from chains of verified responses throughout a run if and
      only if no response is orphaned. */
  lemma {:induction false} ChainedIffOrphanFree(p: PowersOfTau, events: seq<Event>)
    ensures ChainedThroughout(p, events) <==> OrphanFree(p, events)
  {
    if events != [] {
      var n := |events| - 1;
      var init := events[..n];
      ChainedIffOrphanFree(p, init);
      ThroughoutSplit(p, events);
      OrphanFreeSplit(p, events);
      RunInv(p, init);
      if ChainedThroughout(p, init) {
        assert init[..n] == init;
        ChainedStep(p, Run(p, init), events[n]);
      }
    }
  }

  lemma ThroughoutSplit(p: PowersOfTau, events: seq<Event>)
    requires events != []
    ensures
      var init := events[..|events| - 1];
      ChainedThroughout(p, events) <==> ChainedThroughout(p, init) && Chained(p, Run(p, events))
  {
    var n := |events| - 1;
    assert events[..n + 1] == events;
    assert forall k :: 0 <= k <= n ==> events[..n][..k] == events[..k];
  }

  lemma OrphanFreeSplit(p: PowersOfTau, events: seq<Event>)
    requires events != []
    ensures
      var n := |events| - 1;
      OrphanFree(p, events) <==> OrphanFree(p, events[..n]) && !Orphaned(p, Run(p, events[..n]), events[n])
  {
    var n := |events| - 1;
    assert forall k :: 0 <= k <= n ==> events[..n][..k] == events[..k];
  }

  /** In every run the transcripts are those of the recorded responses, and the verifier has
      accepted the final one for the number of responses recorded by then; without orphans the
      challenge on offer and the final output are what these responses lead to. */
  lemma FilesAreChains(p: PowersOfTau, events: seq<Event>)
    ensures
      var s := Run(p, events);
      && s.transcript == Bodies(p, s.responses)
      && (OrphanFree(p, events) && s.challenge.Some? ==> s.challenge == Chain(p, p.initial, s.responses))
      && (s.output.Some? ==>
            && s.archive != []
            && var last := s.archive[|s.archive| - 1];
               && last != [] && s.finalTranscript == Bodies(p, last)
               && p.verifyTranscript(s.finalTranscript, Total(s.archive))
               && (OrphanFree(p, events) ==> s.output == Chain(p, p.initial, last)))
  {
    RunInv(p, events);
    ChainedIffOrphanFree(p, events);
    assert events[..|events|] == events;
  }

  lemma FiveSteps(p: PowersOfTau, e0: Event, e1: Event, e2: Event, e3: Event, e4: Event)
    ensures Run(p, [e0, e1, e2, e3, e4]) == Step(p, Step(p, Step(p, Step(p, Step(p, Init(p), e0), e1), e2), e3), e4)
  {
    assert [e0, e1, e2, e3, e4][..4] == [e0, e1, e2, e3];
    assert [e0, e1, e2, e3][..3] == [e0, e1, e2];
    assert [e0, e1, e2][..2] == [e0, e1];
    assert [e0, e1][..1] == [e0];
    assert Run(p, [e0]) == Step(p, Init(p), e0);
    assert Run(p, [e0, e1]) == Step(p, Step(p, Init(p), e0), e1);
    assert Run(p, [e0, e1, e2]) == Step(p, Step(p, Step(p, Init(p), e0), e1), e2);
  }

  /** Commands for which a response is one byte longer than the challenge that it answers. */
  function CountingTau(): PowersOfTau
  {
    PowersOfTau([], (challenge, r) => if |r| == |challenge| + 1 then Some(r) else None, r => r, (_, _) => true)
  }

  /** Finalizing while the second response is pending leaves a challenge that the recorded
      responses do not lead to. */
  lemma FinalizingOrphans()
    ensures
      var s := Run(CountingTau(), [Verify([7]), Record, Verify([7, 8]), Complete, Record]);
      s.challenge == Some([7, 8]) && s.responses == [[7, 8]] && Chain(CountingTau(), [], s.responses) == None
  {
    var p := CountingTau();
    FiveSteps(p, Verify([7]), Record, Verify([7, 8]), Complete, Record);
    var s1 := Step(p, Init(p), Verify([7]));
    assert s1.pending == Some(Pending([], [7]));
    var s2 := Step(p, s1, Record);
    assert s2.challenge == Some([7]) && s2.transcript == [[7]];
    var s3 := Step(p, s2, Verify([7, 8]));
    assert s3.pending == Some(Pending([7], [7, 8]));
    var s4 := Step(p, s3, Complete);
    assert s4.challenge.None? && s4.responses == [];
    var s5 := Step(p, s4, Record);
    assert s5.responses == [[7, 8]] && [[7, 8]][..0] == [];
    assert Chain(p, [], [[7, 8]][..0]) == Some([]);
  }

  /** Reopening a finalized ceremony starts a new challenge but keeps the old count, so from
      then on the count no longer matches the transcript. */
  lemma ReopenAfterFinalKeepsCount(p: PowersOfTau, r: Bytes)
    requires p.verify(p.initial, r).Some? && p.verifyTranscript([p.body(r)], 1)
    ensures
      var s := Run(p, [Verify(r), Record, Complete, Reopen, Verify(r)] + [Record]);
      s.count == 2 && |s.transcript| == 1
  {
    var five := [Verify(r), Record, Complete, Reopen, Verify(r)];
    FiveSteps(p, Verify(r), Record, Complete, Reopen, Verify(r));
    assert (five + [Record])[..5] == five;
    var s2 := Step(p, Step(p, Init(p), Verify(r)), Record);
    assert s2.count == 1 && s2.transcript == [p.body(r)];
    var s3 := Step(p, s2, Complete);
    assert s3.challenge.None? && s3.savedCount == Some(1) && s3.pending.None?;
  }

  // ----- The handler

  class Phase1ContributionHandler {
    const tools: PowersOfTau
    var challenge: Option<Bytes>
    var transcript: seq<Bytes>
    var numValidContributions: nat
    var stateFile: Option<nat>
    var output: Option<Bytes>
    var finalTranscript: seq<Bytes>
    var pending: Option<Pending>
    ghost var responses: seq<Bytes>
    ghost var archive: seq<seq<Bytes>>

    ghost function View(): State
      reads this
    {
      State(challenge, transcript, numValidContributions, stateFile, output, finalTranscript, pending, responses,
        archive)
    }

    constructor (tools: PowersOfTau)
      ensures this.tools == tools && View() == Init(tools)
    {
      this.tools := tools;
      challenge, transcript, numValidContributions, stateFile := Some(tools.initial), [], 0, None;
      output, finalTranscript, pending, responses, archive := None, [], None, [], [];
    }

    /** A later start, from the files that `previous` left. */
    constructor Reopen(previous: Phase1ContributionHandler)
      requires previous.pending.None?
      ensures tools == previous.tools && View() == Step(tools, previous.View(), Event.Reopen)
    {
      tools := previous.tools;
      transcript, stateFile, output, finalTranscript :=
        previous.transcript, previous.stateFile, previous.output, previous.finalTranscript;
      numValidContributions := if previous.stateFile.Some? then previous.stateFile.value else 0;
      challenge := if previous.challenge.Some? then previous.challenge else Some(previous.tools.initial);
      pending, responses, archive := None, previous.responses, previous.archive;
    }

    /** First part of process_contribution, up to the end of the verification command. */
    method VerifyContribution(response: Bytes) returns (valid: bool)
      requires pending.None?
      modifies this
      ensures View() == Step(tools, old(View()), Verify(response))
      ensures valid <==> old(challenge).Some? && tools.verify(old(challenge).value, response).Some?
      ensures valid <==> pending.Some?
      ensures !valid ==> View() == old(View())
    {
      if challenge.None? {
        return false;
      }
      var newChallenge := tools.verify(challenge.value, response);
      if newChallenge.None? {
        return false;
      }
      pending := Some(Pending(challenge.value, response));
      return true;
    }

    /** The rest of it: transcript, count, state file and challenge as they are now. */
    method RecordContribution()
      requires pending.Some?
      modifies this
      ensures View() == Step(tools, old(View()), Record)
    {
      var response := pending.value.response;
      transcript := transcript + [tools.body(response)];
      numValidContributions := numValidContributions + 1;
      stateFile := Some(numValidContributions);
      challenge := tools.verify(pending.value.challenge, response);
      pending, responses := None, responses + [response];
    }

    /** process_contribution when nothing comes in between. */
    method ProcessContribution(response: Bytes) returns (valid: bool)
      requires pending.None?
      modifies this
      ensures View() == Step(tools, Step(tools, old(View()), Verify(response)), Record)
      ensures valid <==> old(challenge).Some? && tools.verify(old(challenge).value, response).Some?
    {
      valid := VerifyContribution(response);
      if valid {
        RecordContribution();
      }
    }

    method OnCompleted() returns (ok: bool)
      modifies this
      ensures View() == Step(tools, old(View()), Complete)
      ensures ok <==>
        && old(transcript) != [] && old(challenge).Some?
        && tools.verifyTranscript(old(transcript), old(numValidContributions))
      ensures ok ==> output == old(challenge) && finalTranscript == old(transcript)
      ensures ok ==> challenge.None? && transcript == []
      ensures !ok ==> View() == old(View())
    {
      if transcript == [] {
        return false;
      }
      if challenge.None? || !tools.verifyTranscript(transcript, numValidContributions) {
        return false;
      }
      challenge, output := None, challenge;
      transcript, finalTranscript := [], transcript;
      responses, archive := [], archive + [responses];
      return true;
    }
  }
}
