/** What every run of the coordinator keeps. */
module CoordinatorRuns {
  import opened Bytes
  import opened Outcomes
  import opened ServerState
  import opened CoordinatorSpec

  function Reached(c: Config, t: Tools, events: seq<Event>): Sys
  {
    Run(c, t, Init(c), events)
  }

  lemma ReachedSnoc(c: Config, t: Tools, events: seq<Event>, e: Event)
    ensures Reached(c, t, events + [e]) == Step(c, t, Reached(c, t, events), e)
  {
    assert (events + [e])[..|events|] == events;
  }

  /** What one step can do to the index, the thread and the list of acceptances. */
  ghost predicate Follows(c: Config, t: Tools, s: Sys, e: Event, s': Sys)
  {
    && (!e.Restart? ==> s.turn.index <= s'.turn.index)
    && (e.Restart? ==>
          || s'.turn.index == s.turn.index
          || (s.turn.index == |c.keys| && s'.turn.index == s.turn.index - 1 && s.saved != s.turn))
    && (s'.history.accepted == s.history.accepted || Accepts(s, s'))
    && (s'.worker.Idle? || s'.worker == s.worker || Moves(c, t, s, e, s'))
  }

  predicate Accepts(s: Sys, s': Sys)
  {
    && !s.worker.Idle? && s'.worker.Idle? && s'.turn.index == s.turn.index + 1
    && s'.history.accepted == s.history.accepted + [Acceptance(s.worker.checked, s.turn.index)]
  }

  predicate Moves(c: Config, t: Tools, s: Sys, e: Event, s': Sys)
  {
    && !s'.worker.Idle?
    && s'.history.accepted == s.history.accepted
    && if s.worker.Idle? then
         s'.worker.checked == s'.turn.index && 0 <= s'.turn.index < |c.keys| && VouchedBy(c, t, e, s'.turn.index)
       else s'.worker.checked == s.worker.checked
  }

  lemma StepFollows(c: Config, t: Tools, s: Sys, e: Event)
    requires c.Ok() && Inv(c, t, s)
    ensures Follows(c, t, s, e, Step(c, t, s, e))
  {}

  lemma {:induction false} RunAppend(c: Config, t: Tools, s: Sys, a: seq<Event>, b: seq<Event>)
    ensures Run(c, t, s, a + b) == Run(c, t, Run(c, t, s, a), b)
  {
    if b == [] {
      assert a + b == a;
    } else {
      RunAppend(c, t, s, a, b[..|b| - 1]);
      assert (a + b)[..|a + b| - 1] == a + b[..|b| - 1];
    }
  }

  // ----- Single steps, in plain terms

  /** Events at which the server looks at the clock. */
  predicate LooksAtClock(s: Sys, e: Event)
  {
    e.InstalledTick? || (s.worker.Idle? && (e.GuardedTick? || e.Challenge? || e.Contribute?))
  }

  /** A contributor's turn ends with the first such event at or after a positive deadline. The next
      one then has a whole interval, unless there is none. Otherwise the turn stays as it is. */
  lemma TurnEndsAtDeadline(c: Config, t: Tools, s: Sys, e: Event)
    requires LooksAtClock(s, e)
    ensures
      var turn, turn' := s.turn, Step(c, t, s, e).turn;
      if 0.0 < turn.deadline <= e.now then
        && turn'.index == turn.index + 1 && turn'.total == turn.total
        && turn'.deadline == if turn.index + 1 >= turn.total then 0.0 else e.now + c.interval
      else turn' == turn
  {}

  /** While a contribution is processed, requests, guarded ticks and restarts change nothing. */
  lemma BusyServerWaits(c: Config, t: Tools, s: Sys, e: Event)
    requires !s.worker.Idle? && (e.Challenge? || e.Contribute? || e.GuardedTick? || e.Restart?)
    ensures Step(c, t, s, e) == s
  {}

  /** Within the slot, a request that does not carry the current contributor's key, a signature
      that verifies and an upload changes nothing. */
  lemma RefusedLeavesNoTrace(c: Config, t: Tools, s: Sys, now: real, r: Request)
    requires s.worker.Idle? && now < s.turn.deadline && 0 <= s.turn.index < |c.keys|
    requires
      var key := c.keys[s.turn.index];
      key != r.publicKey || !t.verifySignature(r.signature, key, r.digest) || r.upload.None?
    ensures Step(c, t, s, Contribute(now, r)) == s
  {}

  /** A restart with an up-to-date state file changes nothing but the process. */
  lemma RestartIsHarmless(c: Config, t: Tools, s: Sys)
    requires Inv(c, t, s) && s.saved == s.turn
    ensures Step(c, t, s, Restart) == s || Step(c, t, s, Restart) == s.(history := s.history.(completionCalls := 0))
  {}

  /** The first contributor's slot: the first look at the clock ends it exactly from the start time
      plus one interval on. */
  lemma FirstSlot(c: Config, t: Tools, e: Event)
    requires c.Ok() && LooksAtClock(Init(c), e) && c.startTime + c.interval > 0.0
    ensures Reached(c, t, [e]).turn.index == if e.now < c.startTime + c.interval then 0 else 1
  {
    ReachedSnoc(c, t, [], e);
    assert [] + [e] == [e];
    TurnEndsAtDeadline(c, t, Init(c), e);
  }

  // ----- What holds throughout a run

  /** After every prefix of the run. */
  ghost predicate Throughout(c: Config, t: Tools, events: seq<Event>, good: Sys -> bool)
  {
    forall k :: 0 <= k <= |events| ==> good(Reached(c, t, events[..k]))
  }

  /** No event of the run comes in a state that is bad for it. */
  ghost predicate Avoids(c: Config, t: Tools, events: seq<Event>, bad: (Sys, Event) -> bool)
  {
    forall k :: 0 <= k < |events| ==> !bad(Reached(c, t, events[..k]), events[k])
  }

  /** The steps that lose `good` are the bad ones. */
  ghost predicate LosesExactlyBy(c: Config, t: Tools, good: Sys -> bool, bad: (Sys, Event) -> bool)
  {
    forall s, e :: Inv(c, t, s) && good(s) ==> (good(Step(c, t, s, e)) <==> !bad(s, e))
  }

  /** If every bad step loses it and no other step does, it holds throughout a run if and only if
      the run avoids bad steps. */
  lemma {:induction false} ThroughoutIffAvoids(c: Config, t: Tools, events: seq<Event>, good: Sys -> bool,
                                               bad: (Sys, Event) -> bool)
    requires c.Ok() && good(Init(c)) && LosesExactlyBy(c, t, good, bad)
    ensures Throughout(c, t, events, good) <==> Avoids(c, t, events, bad)
  {
    if events != [] {
      var n := |events| - 1;
      var init := events[..n];
      ThroughoutIffAvoids(c, t, init, good, bad);
      ThroughoutSplit(c, t, events, good);
      AvoidsSplit(c, t, events, bad);
      RunInv(c, t, init);
      if Throughout(c, t, init, good) {
        assert init[..n] == init;
        assert good(Step(c, t, Reached(c, t, init), events[n])) <==> !bad(Reached(c, t, init), events[n]);
      }
    }
  }

  lemma ThroughoutSplit(c: Config, t: Tools, events: seq<Event>, good: Sys -> bool)
    requires events != []
    ensures
      var init := events[..|events| - 1];
      Throughout(c, t, events, good) <==> Throughout(c, t, init, good) && good(Reached(c, t, events))
  {
    var n := |events| - 1;
    assert events[..n + 1] == events;
    assert forall k :: 0 <= k <= n ==> events[..n][..k] == events[..k];
  }

  lemma AvoidsSplit(c: Config, t: Tools, events: seq<Event>, bad: (Sys, Event) -> bool)
    requires events != []
    ensures
      var n := |events| - 1;
      Avoids(c, t, events, bad) <==> Avoids(c, t, events[..n], bad) && !bad(Reached(c, t, events[..n]), events[n])
  {
    var n := |events| - 1;
    assert forall k :: 0 <= k <= n ==> events[..n][..k] == events[..k];
  }

  // ----- The contributor index

  predicate UpToDate(s: Sys)
  {
    s.saved == s.turn
  }

  /** The index stays within bounds and only grows, except that a restart undoes the step that
      closed the ceremony, exactly if the state file is behind. */
  lemma {:induction false} IndexNeverDecreases(c: Config, t: Tools, events: seq<Event>, more: seq<Event>)
    requires c.Ok()
    ensures 0 <= Reached(c, t, events + more).turn.index <= |c.keys|
    ensures Restart !in more ==> Reached(c, t, events).turn.index <= Reached(c, t, events + more).turn.index
    ensures more == [Restart] ==>
      var s, index := Reached(c, t, events), Reached(c, t, events + more).turn.index;
      if s.worker.Idle? && !UpToDate(s) then index == |c.keys| - 1 == s.turn.index - 1 else index == s.turn.index
  {
    RunInv(c, t, events + more);
    if more == [] {
      assert events + more == events;
    } else {
      var init, e := more[..|more| - 1], more[|more| - 1];
      IndexNeverDecreases(c, t, events, init);
      RunInv(c, t, events + init);
      assert events + more == (events + init) + [e];
      ReachedSnoc(c, t, events + init, e);
      StepFollows(c, t, Reached(c, t, events + init), e);
      if |more| == 1 {
        assert events + init == events;
      }
    }
  }

  /** The turn is past every credited contributor, and each of them was checked after every earlier
      one had been credited. */
  ghost predicate Increasing(s: Sys)
  {
    var a := s.history.accepted;
    && (forall i :: 0 <= i < |a| ==> 0 <= a[i].checked <= a[i].credited < s.turn.index)
    && (forall i, j :: 0 <= i < j < |a| ==> a[i].credited < a[j].checked)
    && (!s.worker.Idle? ==> forall i :: 0 <= i < |a| ==> a[i].credited < s.worker.checked)
  }

  ghost predicate Credited(s: Sys, i: int)
  {
    exists k :: 0 <= k < |s.history.accepted| && s.history.accepted[k].credited == i
  }

  /** A restart, with a state file that is behind, after the last contributor was credited. */
  ghost predicate Replays(c: Config, s: Sys, e: Event)
  {
    e.Restart? && s.worker.Idle? && !UpToDate(s) && Credited(s, |c.keys| - 1)
  }

  ghost predicate ReplayFree(c: Config, t: Tools, events: seq<Event>)
  {
    forall k :: 0 <= k < |events| ==> !Replays(c, Reached(c, t, events[..k]), events[k])
  }

  /** Even with the installed tick, the turn stays past every credited contributor throughout a run
      if and only if the last contributor, once credited, is not given back the turn by a restart. */
  lemma IncreasingIffReplayFree(c: Config, t: Tools, events: seq<Event>)
    requires c.Ok()
    ensures (forall k :: 0 <= k <= |events| ==> Increasing(Reached(c, t, events[..k]))) <==> ReplayFree(c, t, events)
  {
    var bad := (s, e) => Replays(c, s, e);
    forall s, e | Inv(c, t, s) && Increasing(s)
      ensures Increasing(Step(c, t, s, e)) <==> !bad(s, e)
    {
      IncreasingStep(c, t, s, e);
    }
    ThroughoutIffAvoids(c, t, events, Increasing, bad);
    assert Throughout(c, t, events, Increasing) <==>
      forall k :: 0 <= k <= |events| ==> Increasing(Reached(c, t, events[..k]));
    assert Avoids(c, t, events, bad) <==> ReplayFree(c, t, events);
  }

  lemma IncreasingStep(c: Config, t: Tools, s: Sys, e: Event)
    requires c.Ok() && Inv(c, t, s) && Increasing(s)
    ensures Increasing(Step(c, t, s, e)) <==> !Replays(c, s, e)
  {
    StepFollows(c, t, s, e);
    if e.Restart? {
      RestartKeepsOrder(c, t, s);
    } else {
      ForwardKeepsOrder(c, t, s, e, Step(c, t, s, e));
    }
  }

  lemma RestartKeepsOrder(c: Config, t: Tools, s: Sys)
    requires c.Ok() && Inv(c, t, s) && Increasing(s)
    ensures Increasing(Step(c, t, s, Restart)) <==> !Replays(c, s, Restart)
  {
    if s.worker.Idle? && !UpToDate(s) && !Credited(s, |c.keys| - 1) {
      var a := s.history.accepted;
      assert forall i :: 0 <= i < |a| ==> a[i].credited != |c.keys| - 1;
    }
  }

  lemma ForwardKeepsOrder(c: Config, t: Tools, s: Sys, e: Event, s': Sys)
    requires Follows(c, t, s, e, s') && Increasing(s) && !e.Restart?
    requires !s.worker.Idle? ==> 0 <= s.worker.checked <= s.turn.index
    ensures Increasing(s')
  {
    var a, a' := s.history.accepted, s'.history.accepted;
    forall i | 0 <= i < |a'|
      ensures 0 <= a'[i].checked <= a'[i].credited < s'.turn.index
    {
      assert i < |a| ==> a'[i] == a[i];
    }
  }

  /** Without any provision about restarts: the last contributor's slot may be credited again. */
  ghost predicate NonDecreasing(c: Config, s: Sys)
  {
    var a, last := s.history.accepted, |c.keys| - 1;
    && (forall i :: 0 <= i < |a| ==>
          0 <= a[i].checked <= a[i].credited && (a[i].credited < s.turn.index || a[i].credited == last == s.turn.index))
    && (forall i, j :: 0 <= i < j < |a| ==>
          a[i].credited < a[j].checked || a[i].credited == a[j].checked == a[j].credited == last)
    && (!s.worker.Idle? ==>
          forall i :: 0 <= i < |a| ==> a[i].credited < s.worker.checked || a[i].credited == s.worker.checked == last)
  }

  /** In every run whatever, credits come in increasing order of contributor, but for repeated
      credits of the last one. */
  lemma {:induction false} OnlyLastRepeats(c: Config, t: Tools, events: seq<Event>)
    requires c.Ok()
    ensures NonDecreasing(c, Reached(c, t, events))
  {
    if events != [] {
      var init := events[..|events| - 1];
      OnlyLastRepeats(c, t, init);
      RunInv(c, t, init);
      RunInv(c, t, events);
      var s, e := Reached(c, t, init), events[|events| - 1];
      StepFollows(c, t, s, e);
      NonDecreasingStep(c, t, s, e, Step(c, t, s, e));
    }
  }

  lemma NonDecreasingStep(c: Config, t: Tools, s: Sys, e: Event, s': Sys)
    requires Follows(c, t, s, e, s') && NonDecreasing(c, s) && 0 <= s.turn.index && s'.turn.index <= |c.keys|
    requires !s.worker.Idle? ==> 0 <= s.worker.checked <= s.turn.index
    ensures NonDecreasing(c, s')
  {
    var a, a', last := s.history.accepted, s'.history.accepted, |c.keys| - 1;
    assert forall i :: 0 <= i < |a| ==> a'[i] == a[i];
    if a' != a {
      assert Accepts(s, s');
      assert a'[|a|] == Acceptance(s.worker.checked, s.turn.index);
    }
  }

  /** Accepted contributors have strictly increasing indices: each was checked at a higher index
      than every earlier one was credited at. */
  ghost predicate Ordered(s: Sys)
  {
    var a := s.history.accepted;
    forall i, j :: 0 <= i < j < |a| ==> a[i].credited < a[j].checked
  }

  /** A contribution is about to be credited although the last contributor was. */
  ghost predicate Recredits(c: Config, s: Sys, e: Event)
  {
    e.FinishWorker? && s.worker.Handled? && !s.turn.HaveAll() && Credited(s, |c.keys| - 1)
  }

  ghost predicate RecreditFree(c: Config, t: Tools, events: seq<Event>)
  {
    forall k :: 0 <= k < |events| ==> !Recredits(c, Reached(c, t, events[..k]), events[k])
  }

  /** Even with the installed tick, the order of acceptances is strict throughout a run if and only
      if nothing is credited after the last contributor was. */
  lemma OrderedIffRecreditFree(c: Config, t: Tools, events: seq<Event>)
    requires c.Ok()
    ensures (forall k :: 0 <= k <= |events| ==> Ordered(Reached(c, t, events[..k]))) <==> RecreditFree(c, t, events)
  {
    var good, bad := s => Ordered(s) && NonDecreasing(c, s), (s, e) => Recredits(c, s, e);
    forall s, e | Inv(c, t, s) && good(s)
      ensures good(Step(c, t, s, e)) <==> !bad(s, e)
    {
      OrderedStep(c, t, s, e);
    }
    ThroughoutIffAvoids(c, t, events, good, bad);
    forall k | 0 <= k <= |events|
      ensures good(Reached(c, t, events[..k])) <==> Ordered(Reached(c, t, events[..k]))
    {
      OnlyLastRepeats(c, t, events[..k]);
    }
    assert Throughout(c, t, events, good) <==>
      forall k :: 0 <= k <= |events| ==> Ordered(Reached(c, t, events[..k]));
    assert Avoids(c, t, events, bad) <==> RecreditFree(c, t, events);
  }

  lemma OrderedStep(c: Config, t: Tools, s: Sys, e: Event)
    requires c.Ok() && Inv(c, t, s) && Ordered(s) && NonDecreasing(c, s)
    ensures NonDecreasing(c, Step(c, t, s, e)) && (Ordered(Step(c, t, s, e)) <==> !Recredits(c, s, e))
  {
    var s' := Step(c, t, s, e);
    StepFollows(c, t, s, e);
    StepInv(c, t, s, e);
    NonDecreasingStep(c, t, s, e, s');
    if s'.history.accepted != s.history.accepted {
      NewCredit(c, s, s');
    }
  }

  /** A new credit is in order exactly if the last contributor had none. */
  lemma NewCredit(c: Config, s: Sys, s': Sys)
    requires Accepts(s, s') && Ordered(s) && NonDecreasing(c, s)
    requires s.worker.checked <= s.turn.index < |c.keys|
    ensures Ordered(s') <==> !Credited(s, |c.keys| - 1)
  {
    var a, a', last := s.history.accepted, s'.history.accepted, |c.keys| - 1;
    assert forall i :: 0 <= i < |a| ==> a'[i] == a[i];
    if Credited(s, last) {
      var i :| 0 <= i < |a| && a[i].credited == last;
      assert a'[i].credited == last >= a'[|a|].checked;
    }
  }

  /** So at the end of such a run the order is strict. */
  lemma AcceptedIncrease(c: Config, t: Tools, events: seq<Event>)
    requires c.Ok() && RecreditFree(c, t, events)
    ensures Ordered(Reached(c, t, events))
  {
    OrderedIffRecreditFree(c, t, events);
    assert events[..|events|] == events;
  }

  // ----- An undisturbed contribution

  /** The steps from a contributor's request to the end of its processing. */
  function Contribution(now: real, r: Request): seq<Event>
  {
    [Contribute(now, r), LoadChallenge, RecordResponse, FinishWorker(now)]
  }

  /** The state in which the server accepts the request and then finds the response valid. */
  predicate Welcomes(c: Config, t: Tools, s: Sys, now: real, r: Request)
  {
    && s.worker.Idle? && !s.turn.Expired(now) && Admissible(c, t, s.turn, r)
    && CurrentChallenge(t, s.files, s.turn.index).Some?
    && t.verifyResponse(CurrentChallenge(t, s.files, s.turn.index).value, r.upload.value)
  }

  /** It is recorded and credited, and the turn passes on. */
  lemma ContributionRuns(c: Config, t: Tools, s: Sys, now: real, r: Request)
    requires Welcomes(c, t, s, now, r)
    ensures
      var i, upload := s.turn.index, r.upload.value;
      Run(c, t, s, Contribution(now, r)) ==
        OnNextContributor(t, s.(turn := s.turn.Next(now + c.interval), files := Recorded(t, s.files, upload),
          history := s.history.(accepted := s.history.accepted + [Acceptance(i, i)],
                                responses := s.history.responses + [upload]))).0
  {
    FourSteps(c, t, s, Contribute(now, r), LoadChallenge, RecordResponse, FinishWorker(now));
    var i := s.turn.index;
    var s1 := Step(c, t, s, Contribute(now, r));
    assert s1 == s.(worker := Launched(i, r.upload.value));
    var s2 := Step(c, t, s1, LoadChallenge);
    assert s2.worker.Verifying? && s2 == s1.(worker := s2.worker);
    var s3 := Step(c, t, s2, RecordResponse);
    assert s3.worker == Handled(i) && s3.turn == s.turn;
  }

  /** A response that does not verify leaves no trace: the server is as before the request. */
  lemma RejectedLeavesNoTrace(c: Config, t: Tools, s: Sys, now: real, r: Request)
    requires s.worker.Idle? && !s.turn.Expired(now) && Admissible(c, t, s.turn, r)
    requires
      var challenge := CurrentChallenge(t, s.files, s.turn.index);
      challenge.None? || !t.verifyResponse(challenge.value, r.upload.value)
    ensures Run(c, t, s, Contribution(now, r)) == s
  {
    FourSteps(c, t, s, Contribute(now, r), LoadChallenge, RecordResponse, FinishWorker(now));
    var s1 := Step(c, t, s, Contribute(now, r));
    assert s1 == s.(worker := Launched(s.turn.index, r.upload.value));
    var s2 := Step(c, t, s1, LoadChallenge);
    assert s2 == s || s2.worker.Verifying?;
    assert Step(c, t, s2, RecordResponse) == s;
  }

  /** Every processing thread ends, whatever it has reached and however it goes on. */
  lemma ThreadEnds(c: Config, t: Tools, s: Sys, now: real)
    ensures Run(c, t, s, [LoadChallenge, RecordResponse, FinishWorker(now)]).worker.Idle?
  {
    var e0, e1, e2 := LoadChallenge, RecordResponse, FinishWorker(now);
    assert [e0, e1, e2][..2] == [e0, e1];
    assert [e0, e1][..1] == [e0];
    assert Run(c, t, s, [e0]) == Step(c, t, s, e0);
    assert Run(c, t, s, [e0, e1]) == Step(c, t, Step(c, t, s, e0), e1);
  }

  /** When on_completed has raised at the end of the ceremony, a restart gives the last
      contributor another turn, and any valid response is credited to them once more. */
  lemma StaleRestartRepeatsLast(c: Config, t: Tools, events: seq<Event>, now: real, r: Request)
    requires c.Ok() && Reached(c, t, events).worker.Idle? && !UpToDate(Reached(c, t, events))
    requires Welcomes(c, t, Reached(c, t, events + [Restart]), now, r)
    ensures
      var accepted, last := Reached(c, t, events).history.accepted, |c.keys| - 1;
      Reached(c, t, events + [Restart] + Contribution(now, r)).history.accepted == accepted + [Acceptance(last, last)]
  {
    RunInv(c, t, events);
    ReachedSnoc(c, t, events, Restart);
    RunAppend(c, t, Init(c), events + [Restart], Contribution(now, r));
    ContributionRuns(c, t, Reached(c, t, events + [Restart]), now, r);
  }

  /** Tools that accept everything but the transcript. */
  function PickyTools(): Tools
  {
    Tools([], (_, _) => true, _ => [], r => r, (_, _, _) => false, (_, _, _) => true)
  }

  /** A run from the first start in which contributor 1 of 2 is credited twice. */
  lemma LastCreditedTwice()
    ensures
      var c := Config(1.0, 10.0, ["a", "b"]);
      var a, b := Contribution(5.0, Request("a", [], [], Some([7]))),
        Contribution(6.0, Request("b", [], [], Some([8])));
      var s := Reached(c, PickyTools(), a + b + [Restart] + b);
      s.history.accepted == [Acceptance(0, 0), Acceptance(1, 1), Acceptance(1, 1)] && !Ordered(s)
  {
    var c, t := Config(1.0, 10.0, ["a", "b"]), PickyTools();
    var ra, rb := Request("a", [], [], Some([7])), Request("b", [], [], Some([8]));
    var a, b := Contribution(5.0, ra), Contribution(6.0, rb);
    ContributionRuns(c, t, Init(c), 5.0, ra);
    var s1 := Reached(c, t, a);
    assert s1.turn == s1.saved == Turn(1, 2, 15.0) && s1.worker.Idle? && s1.files.next == Some([7]);
    ContributionRuns(c, t, s1, 6.0, rb);
    RunAppend(c, t, Init(c), a, b);
    var s2 := Reached(c, t, a + b);
    assert s2.turn.HaveAll() && s2.saved == Turn(1, 2, 15.0) && s2.worker.Idle? && s2.files.next == Some([8]);
    ReachedSnoc(c, t, a + b, Restart);
    StaleRestartRepeatsLast(c, t, a + b, 6.0, rb);
    var s := Reached(c, t, a + b + [Restart] + b);
    assert s.history.accepted == [Acceptance(0, 0), Acceptance(1, 1), Acceptance(1, 1)];
    assert s.history.accepted[1].credited == s.history.accepted[2].checked;
  }

  // ----- Who gets credited

  /** Some contribute request of the run carried contributor i's key and a valid signature. */
  ghost predicate Vouched(c: Config, t: Tools, events: seq<Event>, i: int)
  {
    0 <= i < |c.keys| && exists k :: 0 <= k < |events| && VouchedBy(c, t, events[k], i)
  }

  predicate VouchedBy(c: Config, t: Tools, e: Event, i: int)
    requires 0 <= i < |c.keys|
  {
    && e.Contribute? && e.request.publicKey == c.keys[i]
    && t.verifySignature(e.request.signature, c.keys[i], e.request.digest)
  }

  lemma VouchedLater(c: Config, t: Tools, events: seq<Event>, i: int)
    requires events != [] && Vouched(c, t, events[..|events| - 1], i)
    ensures Vouched(c, t, events, i)
  {
    var k :| 0 <= k < |events| - 1 && VouchedBy(c, t, events[k], i);
  }

  /** In every run, `checked` really was checked: a request of the run vouches for it. */
  lemma {:induction false} CheckedIsVouched(c: Config, t: Tools, events: seq<Event>)
    requires c.Ok()
    ensures
      var s := Reached(c, t, events);
      && (!s.worker.Idle? ==> Vouched(c, t, events, s.worker.checked))
      && forall a :: a in s.history.accepted ==> Vouched(c, t, events, a.checked)
  {
    if events != [] {
      var init, e := events[..|events| - 1], events[|events| - 1];
      CheckedIsVouched(c, t, init);
      RunInv(c, t, init);
      var s0, s := Reached(c, t, init), Reached(c, t, events);
      forall i | Vouched(c, t, init, i)
        ensures Vouched(c, t, events, i)
      {
        VouchedLater(c, t, events, i);
      }
      StepFollows(c, t, s0, e);
      VouchedStep(c, t, s0, e, s, events);
    }
  }

  lemma VouchedStep(c: Config, t: Tools, s0: Sys, e: Event, s: Sys, events: seq<Event>)
    requires events != [] && e == events[|events| - 1] && Follows(c, t, s0, e, s)
    requires !s0.worker.Idle? ==> Vouched(c, t, events, s0.worker.checked)
    requires forall a :: a in s0.history.accepted ==> Vouched(c, t, events, a.checked)
    ensures !s.worker.Idle? ==> Vouched(c, t, events, s.worker.checked)
    ensures forall a :: a in s.history.accepted ==> Vouched(c, t, events, a.checked)
  {
    if s0.worker.Idle? && !s.worker.Idle? {
      assert VouchedBy(c, t, events[|events| - 1], s.worker.checked);
    }
  }

  ghost predicate Guarded(events: seq<Event>)
  {
    forall k :: 0 <= k < |events| ==> !events[k].InstalledTick?
  }

  ghost predicate GuardedInv(s: Sys)
  {
    && (!s.worker.Idle? ==> s.worker.checked == s.turn.index < s.turn.total)
    && (forall a :: a in s.history.accepted ==> a.checked == a.credited)
    && !s.history.assertionFailed
    && (s.files.output.Some? ==> s.files.next.None?)
    && |s.history.responses| + |s.history.finalResponses| == |s.history.accepted| + (if s.worker.Handled? then 1 else 0)
    && (s.history.completedOnce || s.history.finalResponses == [])
  }

  lemma {:induction false} GuardedRunInv(c: Config, t: Tools, events: seq<Event>)
    requires c.Ok() && Guarded(events)
    ensures GuardedInv(Reached(c, t, events))
  {
    if events != [] {
      var init, e := events[..|events| - 1], events[|events| - 1];
      assert !e.InstalledTick?;
      assert Guarded(init);
      GuardedRunInv(c, t, init);
      RunInv(c, t, init);
      GuardedStepInv(c, t, Reached(c, t, init), e);
    }
  }

  lemma GuardedStepInv(c: Config, t: Tools, s: Sys, e: Event)
    requires c.Ok() && Inv(c, t, s) && GuardedInv(s) && !e.InstalledTick?
    ensures GuardedInv(Step(c, t, s, e))
  {
    match e {
      case LoadChallenge =>
      case RecordResponse =>
      case Restart =>
      case InstalledTick(_) =>
      case FinishWorker(now) =>
        if s.worker.Handled? {
          var entry := Acceptance(s.worker.checked, s.turn.index);
          var s1 := s.(worker := Idle, history := s.history.(accepted := s.history.accepted + [entry]));
          GuardedNext(t, s1, now + c.interval);
        }
      case Challenge(now) => GuardedUpdate(c, t, s, now);
      case Contribute(now, _) => GuardedUpdate(c, t, s, now);
      case GuardedTick(now) => GuardedUpdate(c, t, s, now);
    }
  }

  lemma GuardedNext(t: Tools, s: Sys, deadline: real)
    requires GuardedInv(s) && s.worker.Idle? && (s.history.completedOnce ==> s.finalized)
    requires s.files.output.Some? ==> s.history.completedOnce
    ensures GuardedInv(OnNextContributor(t, s.(turn := s.turn.Next(deadline))).0)
  {}

  lemma GuardedUpdate(c: Config, t: Tools, s: Sys, now: real)
    requires Inv(c, t, s) && GuardedInv(s)
    ensures s.worker.Idle? ==> GuardedInv(UpdateState(c, t, s, now).0)
  {
    if s.worker.Idle? && s.turn.Expired(now) {
      GuardedNext(t, s, now + c.interval);
    }
  }

  /** With a tick that is guarded atomically, every acceptance credits exactly the contributor
      whose key and signature were checked, the assertion in received_contribution never
      fails, and finishing a contribution moves the index exactly one past that contributor. */
  lemma GuardedCredit(c: Config, t: Tools, events: seq<Event>, now: real)
    requires c.Ok() && Guarded(events)
    ensures
      var s := Reached(c, t, events);
      && !s.history.assertionFailed
      && (forall a :: a in s.history.accepted ==> a.checked == a.credited && Vouched(c, t, events, a.credited))
      && (s.worker.Handled? ==>
            var s' := Reached(c, t, events + [FinishWorker(now)]);
            && s'.turn.index == s.worker.checked + 1
            && s'.history.accepted == s.history.accepted + [Acceptance(s.worker.checked, s.worker.checked)])
  {
    GuardedRunInv(c, t, events);
    CheckedIsVouched(c, t, events);
    ReachedSnoc(c, t, events, FinishWorker(now));
  }

  // ----- What the installed tick breaks, and exactly when

  /** Events that can fall between accepting an upload and finishing its contribution. */
  predicate InWindow(e: Event)
  {
    e.InstalledTick? || e.LoadChallenge? || e.RecordResponse?
  }

  predicate SlotOutlives(deadline: real, e: Event)
  {
    e.InstalledTick? ==> deadline <= 0.0 || e.now < deadline
  }

  /** From the moment an upload is accepted, the index stays at the checked contributor if and
      only if no installed tick comes at or after the deadline that held then. */
  lemma {:induction false} CreditedIffSlotOutlives(c: Config, t: Tools, s: Sys, window: seq<Event>)
    requires forall k :: 0 <= k < |window| ==> InWindow(window[k])
    ensures
      var held := forall k :: 0 <= k < |window| ==> SlotOutlives(s.turn.deadline, window[k]);
      && (held ==> Run(c, t, s, window).turn == s.turn)
      && (!held ==> Run(c, t, s, window).turn.index > s.turn.index)
  {
    if window != [] {
      var init, e := window[..|window| - 1], window[|window| - 1];
      CreditedIffSlotOutlives(c, t, s, init);
      var s0 := Run(c, t, s, init);
      assert s0.turn.index <= Step(c, t, s0, e).turn.index;
      if SlotOutlives(s.turn.deadline, e) {
        assert forall k :: 0 <= k < |window| ==> k < |init| || window[k] == e;
      }
    }
  }

  /** So a contribution is credited to the contributor that was checked exactly when the slot
      outlives every installed tick of its window. */
  lemma FinishCreditsIffSlotOutlives(c: Config, t: Tools, s: Sys, window: seq<Event>, now: real)
    requires c.Ok() && Inv(c, t, s) && s.worker.Launched? && s.worker.checked == s.turn.index
    requires forall k :: 0 <= k < |window| ==> InWindow(window[k])
    requires Run(c, t, s, window).worker.Handled?
    ensures
      var before := Run(c, t, s, window);
      var after := Step(c, t, before, FinishWorker(now));
      (forall k :: 0 <= k < |window| ==> SlotOutlives(s.turn.deadline, window[k]))
        <==> after.history.accepted == before.history.accepted + [Acceptance(s.worker.checked, s.worker.checked)]
  {
    CreditedIffSlotOutlives(c, t, s, window);
    WindowKeepsChecked(c, t, s, window);
    var before := Run(c, t, s, window);
    var entry := Acceptance(s.worker.checked, before.turn.index);
    assert (before.history.accepted + [entry])[|before.history.accepted|] == entry;
  }

  lemma {:induction false} WindowKeepsChecked(c: Config, t: Tools, s: Sys, window: seq<Event>)
    requires s.worker.Launched?
    requires forall k :: 0 <= k < |window| ==> InWindow(window[k])
    ensures
      var s' := Run(c, t, s, window);
      && (s'.worker.Idle? || s'.worker.checked == s.worker.checked)
      && s'.history.accepted == s.history.accepted && s'.history.assertionFailed == s.history.assertionFailed
  {
    if window != [] {
      WindowKeepsChecked(c, t, s, window[..|window| - 1]);
      assert InWindow(window[|window| - 1]);
    }
  }

  /** The turn after the ticks among these events, from their times alone. */
  function TickTurn(c: Config, turn: Turn, window: seq<Event>): Turn
  {
    if window == [] then turn
    else
      var before, e := TickTurn(c, turn, window[..|window| - 1]), window[|window| - 1];
      if e.InstalledTick? && before.Expired(e.now) then before.Next(e.now + c.interval) else before
  }

  lemma {:induction false} WindowTurn(c: Config, t: Tools, s: Sys, window: seq<Event>)
    requires forall k :: 0 <= k < |window| ==> InWindow(window[k])
    ensures Run(c, t, s, window).turn == TickTurn(c, s.turn, window)
  {
    if window != [] {
      WindowTurn(c, t, s, window[..|window| - 1]);
      assert InWindow(window[|window| - 1]);
    }
  }

  /** What finishing a contribution does, from the tick times of its window alone: the assertion
      in received_contribution fails if and only if the ticks used up the last turn; otherwise
      the contributor whose turn they leave is credited. */
  lemma FinishFailsIffTicksEndTurns(c: Config, t: Tools, s: Sys, window: seq<Event>, now: real)
    requires s.worker.Launched? && !s.history.assertionFailed
    requires forall k :: 0 <= k < |window| ==> InWindow(window[k])
    requires Run(c, t, s, window).worker.Handled?
    ensures
      var after := Step(c, t, Run(c, t, s, window), FinishWorker(now));
      var turn := TickTurn(c, s.turn, window);
      && (after.history.assertionFailed <==> turn.HaveAll())
      && after.history.accepted ==
           if turn.HaveAll() then s.history.accepted
           else s.history.accepted + [Acceptance(s.worker.checked, turn.index)]
  {
    WindowTurn(c, t, s, window);
    WindowKeepsChecked(c, t, s, window);
  }

  /** Tools that accept everything. */
  function YesTools(): Tools
  {
    Tools([], (_, _) => true, _ => [], r => r, (_, _, _) => true, (_, _, _) => true)
  }

  /** With the installed tick a contribution checked for contributor 0 can be credited to
      contributor 1, who then never gets a turn. */
  lemma InstalledTickMiscredits()
    ensures
      var c := Config(1.0, 10.0, ["a", "b"]);
      var upload := Contribute(5.0, Request("a", [], [], Some([7])));
      var window := [InstalledTick(11.0), LoadChallenge, RecordResponse];
      var s := Reached(c, YesTools(), [upload] + window + [FinishWorker(12.0)]);
      s.history.accepted == [Acceptance(0, 1)] && s.turn.HaveAll()
  {
    LateTick(Config(1.0, 10.0, ["a", "b"]));
  }

  /** With one contributor, the same interleaving trips the assertion. */
  lemma InstalledTickTripsAssertion()
    ensures
      var c := Config(1.0, 10.0, ["a"]);
      var upload := Contribute(5.0, Request("a", [], [], Some([7])));
      var window := [InstalledTick(11.0), LoadChallenge, RecordResponse];
      Reached(c, YesTools(), [upload] + window + [FinishWorker(12.0)]).history.assertionFailed
  {
    LateTick(Config(1.0, 10.0, ["a"]));
  }

  /** A tick at the deadline, before the thread reads the challenge. */
  lemma LateTick(c: Config)
    requires c.startTime == 1.0 && c.interval == 10.0 && |c.keys| >= 1 && c.keys[0] == "a"
    ensures
      var upload := Contribute(5.0, Request("a", [], [], Some([7])));
      var window := [InstalledTick(11.0), LoadChallenge, RecordResponse];
      var s := Reached(c, YesTools(), [upload] + window + [FinishWorker(12.0)]);
      if |c.keys| == 1 then s.history.assertionFailed
      else s.history.accepted == [Acceptance(0, 1)] && s.turn.index == 2 && s.turn.total == |c.keys|
  {
    var t, upload := YesTools(), Contribute(5.0, Request("a", [], [], Some([7])));
    var window := [InstalledTick(11.0), LoadChallenge, RecordResponse];
    FourSteps(c, t, Init(c), upload, window[0], window[1], window[2]);
    assert [upload] + window == [upload, window[0], window[1], window[2]];
    var s1 := Step(c, t, Init(c), upload);
    assert s1.worker == Launched(0, [7]) && s1.turn == Turn(0, |c.keys|, 11.0);
    var s2 := Step(c, t, s1, window[0]);
    assert s2.turn.index == 1 && s2.worker == s1.worker && s2.files.next.None?;
    assert Step(c, t, s2, LoadChallenge).worker == Verifying(0, [7], []);
    ReachedSnoc(c, t, [upload] + window, FinishWorker(12.0));
  }

  lemma FourSteps(c: Config, t: Tools, s: Sys, e0: Event, e1: Event, e2: Event, e3: Event)
    ensures Run(c, t, s, [e0, e1, e2, e3]) == Step(c, t, Step(c, t, Step(c, t, Step(c, t, s, e0), e1), e2), e3)
  {
    assert [e0, e1, e2, e3][..3] == [e0, e1, e2];
    assert [e0, e1, e2][..2] == [e0, e1];
    assert [e0, e1][..1] == [e0];
    assert Run(c, t, s, [e0]) == Step(c, t, s, e0);
    assert Run(c, t, s, [e0, e1]) == Step(c, t, Step(c, t, s, e0), e1);
  }

  // ----- Deadlines and completion

  predicate HasTime(e: Event)
  {
    !e.LoadChallenge? && !e.RecordResponse? && !e.Restart?
  }

  /** No slot of the run is given the end time 0.0, which the source reserves for "complete". */
  ghost predicate TimesOk(c: Config, events: seq<Event>)
  {
    && c.startTime + c.interval != 0.0
    && forall k :: 0 <= k < |events| && HasTime(events[k]) ==> events[k].now + c.interval != 0.0
  }

  /** The deadline is zero exactly when all turns are over, in memory and on disk. */
  lemma {:induction false} DeadlineZeroIffComplete(c: Config, t: Tools, events: seq<Event>)
    requires c.Ok() && TimesOk(c, events)
    ensures
      var s := Reached(c, t, events);
      && (s.turn.deadline == 0.0 <==> s.turn.index == |c.keys|)
      && (s.saved.deadline == 0.0 <==> s.saved.index == |c.keys|)
  {
    RunInv(c, t, events);
    if events != [] {
      var init, e := events[..|events| - 1], events[|events| - 1];
      DeadlineZeroIffComplete(c, t, init);
      RunInv(c, t, init);
      assert e == events[|init|];
    }
  }

  /** In every run, on_completed is called at most once per process; and if the state file
      says "complete", then some call of on_completed has returned normally, the final files
      exist, the transcript verifier accepted them and they come from a non-empty chain of
      verified responses. */
  lemma CompletionIsRecordedLast(c: Config, t: Tools, events: seq<Event>)
    requires c.Ok()
    ensures
      var s := Reached(c, t, events);
      && s.history.completionCalls <= 1
      && (s.saved.HaveAll() ==>
            && s.history.completedOnce
            && s.history.finalResponses != []
            && s.files.finalTranscript == PublicKeys(t, s.history.finalResponses)
            && s.files.output.Some? && s.files.output == Replay(t, t.challenge0, s.history.finalResponses)
            && t.verifyTranscript(t.challenge0, s.files.finalTranscript, s.files.output.value))
  {
    RunInv(c, t, events);
  }

  /** The transcript verifier accepts every non-empty chain of verified responses. */
  ghost predicate Faithful(t: Tools)
  {
    forall rs: seq<Bytes> :: rs != [] && Replay(t, t.challenge0, rs).Some? ==> AcceptsChain(t, rs)
  }

  predicate AcceptsChain(t: Tools, rs: seq<Bytes>)
    requires Replay(t, t.challenge0, rs).Some?
  {
    t.verifyTranscript(t.challenge0, PublicKeys(t, rs), Replay(t, t.challenge0, rs).value)
  }

  /** With faithful tools and a guarded tick, a ceremony whose turns are over is recorded as
      complete if and only if at least one contribution was accepted. */
  lemma {:induction false} CompletesIffContributed(c: Config, t: Tools, events: seq<Event>)
    requires c.Ok() && Guarded(events) && Faithful(t)
    ensures
      var s := Reached(c, t, events);
      s.turn.HaveAll() ==> (s.saved.HaveAll() <==> s.history.accepted != [])
  {
    if events != [] {
      var init, e := events[..|events| - 1], events[|events| - 1];
      assert !e.InstalledTick?;
      assert Guarded(init);
      CompletesIffContributed(c, t, init);
      RunInv(c, t, init);
      GuardedRunInv(c, t, init);
      var s := Reached(c, t, init);
      RunInv(c, t, events);
      GuardedRunInv(c, t, events);
      if s.history.responses != [] {
        assert AcceptsChain(t, s.history.responses);
      }
    }
  }

  /** What a step does to the state file of a ceremony whose turns are over. */
  lemma CompletionStep(c: Config, t: Tools, s: Sys, e: Event)
    requires c.Ok() && Inv(c, t, s) && Faithful(t) && Step(c, t, s, e).turn.HaveAll()
    ensures
      var s' := Step(c, t, s, e);
      if s.turn.HaveAll() then s'.saved == s.saved else s'.saved.HaveAll() <==> s.history.responses != []
  {
    if !s.turn.HaveAll() && s.history.responses != [] {
      assert AcceptsChain(t, s.history.responses);
    }
  }

  lemma CompletionLastStep(c: Config, t: Tools, events: seq<Event>)
    requires c.Ok() && Faithful(t) && Reached(c, t, events).turn.HaveAll()
    ensures events != []
    ensures
      var before, after := Reached(c, t, events[..|events| - 1]), Reached(c, t, events);
      if before.turn.HaveAll() then after.saved == before.saved
      else after.saved.HaveAll() <==> before.history.responses != []
  {
    assert events != [];
    RunInv(c, t, events[..|events| - 1]);
    CompletionStep(c, t, Reached(c, t, events[..|events| - 1]), events[|events| - 1]);
  }

  /** With either tick and a faithful verifier: a ceremony whose turns are over is recorded as
      complete if and only if a response had been recorded when the last turn ended, which is at
      event k. */
  lemma {:induction false} CompletesIffRecorded(c: Config, t: Tools, events: seq<Event>) returns (k: nat)
    requires c.Ok() && Faithful(t) && Reached(c, t, events).turn.HaveAll()
    ensures k < |events| && !Reached(c, t, events[..k]).turn.HaveAll()
    ensures forall j :: k < j <= |events| ==> Reached(c, t, events[..j]).turn.HaveAll()
    ensures Reached(c, t, events).saved.HaveAll() <==> Reached(c, t, events[..k]).history.responses != []
  {
    CompletionLastStep(c, t, events);
    var n := |events| - 1;
    var init := events[..n];
    k := n;
    if Reached(c, t, init).turn.HaveAll() {
      k := CompletesIffRecorded(c, t, init);
      assert init[..k] == events[..k];
    }
    forall j | k < j <= |events|
      ensures Reached(c, t, events[..j]).turn.HaveAll()
    {
      if j <= n {
        assert init[..j] == events[..j];
      } else {
        assert events[..j] == events;
      }
    }
  }

  /** With the installed tick a ceremony can be complete although nothing was ever accepted: the
      slot runs out after the only response was recorded and before it was credited. */
  lemma CompleteWithoutCredit()
    ensures
      var c := Config(1.0, 10.0, ["a"]);
      var upload := Contribute(5.0, Request("a", [], [], Some([7])));
      var s := Reached(c, YesTools(), [upload, LoadChallenge, RecordResponse, InstalledTick(11.0)] +
        [FinishWorker(12.0)]);
      s.saved.HaveAll() && s.files.output == Some([7]) && s.history.accepted == [] && s.history.assertionFailed
  {
    var c, t := Config(1.0, 10.0, ["a"]), YesTools();
    var upload := Contribute(5.0, Request("a", [], [], Some([7])));
    var run := [upload, LoadChallenge, RecordResponse, InstalledTick(11.0)];
    FourSteps(c, t, Init(c), upload, LoadChallenge, RecordResponse, InstalledTick(11.0));
    var s1 := Step(c, t, Init(c), upload);
    assert s1.worker == Launched(0, [7]) && s1.turn == Turn(0, 1, 11.0);
    var s2 := Step(c, t, s1, LoadChallenge);
    assert s2.worker == Verifying(0, [7], []) && s2.turn == s1.turn;
    var s3 := Step(c, t, s2, RecordResponse);
    assert s3.worker == Handled(0) && s3.files.next == Some([7]) && s3.turn == s1.turn;
    var s4 := Step(c, t, s3, InstalledTick(11.0));
    assert s4.saved.HaveAll() && s4.files.output == Some([7]);
    ReachedSnoc(c, t, run, FinishWorker(12.0));
  }

  // ----- Serving challenges

  /** A next-challenge file is there only after somebody's turn has ended, except while the
      processing thread is between handler and state update. */
  ghost predicate ServingInv(s: Sys)
  {
    && !s.history.challengeFailed
    && (s.files.next.Some? && !s.worker.Handled? ==> s.turn.index >= 1)
  }

  /** A restart that will make the server forget the only contributor's turn, but not the file. */
  predicate Jams(c: Config, s: Sys, e: Event)
  {
    e.Restart? && |c.keys| == 1 && s.worker.Idle? && !UpToDate(s) && s.files.next.Some?
  }

  /** Never so in a run with two contributors. */
  ghost predicate JamFree(c: Config, t: Tools, events: seq<Event>)
  {
    forall k :: 0 <= k < |events| ==> !Jams(c, Reached(c, t, events[..k]), events[k])
  }

  /** Challenges can be served throughout a run if and only if the server is never restarted
      with one contributor, a state file that is behind and a next-challenge file. */
  lemma ServesThroughoutIffJamFree(c: Config, t: Tools, events: seq<Event>)
    requires c.Ok()
    ensures (forall k :: 0 <= k <= |events| ==> ServingInv(Reached(c, t, events[..k]))) <==> JamFree(c, t, events)
  {
    var bad := (s, e) => Jams(c, s, e);
    forall s, e | Inv(c, t, s) && ServingInv(s)
      ensures ServingInv(Step(c, t, s, e)) <==> !bad(s, e)
    {
      ServingStep(c, t, s, e);
    }
    ThroughoutIffAvoids(c, t, events, ServingInv, bad);
    assert Throughout(c, t, events, ServingInv) <==>
      forall k :: 0 <= k <= |events| ==> ServingInv(Reached(c, t, events[..k]));
    assert Avoids(c, t, events, bad) <==> JamFree(c, t, events);
  }

  /** So at the end of such a run, which every run with two contributors is, serving never raised. */
  lemma ServingNeverFails(c: Config, t: Tools, events: seq<Event>)
    requires c.Ok() && JamFree(c, t, events)
    ensures ServingInv(Reached(c, t, events))
  {
    ServesThroughoutIffJamFree(c, t, events);
    assert events[..|events|] == events;
  }

  lemma ServingStep(c: Config, t: Tools, s: Sys, e: Event)
    requires c.Ok() && Inv(c, t, s) && ServingInv(s)
    ensures ServingInv(Step(c, t, s, e)) <==> !Jams(c, s, e)
  {}

  // ----- The chain of responses

  /** A valid response to a challenge that was moved away while it was being verified, and that
      would not be valid for challenge_0, on which the files now start again. */
  predicate Orphaned(t: Tools, s: Sys, e: Event)
  {
    && e.RecordResponse? && s.worker.Verifying? && s.files.next.None?
    && t.verifyResponse(s.worker.challenge, s.worker.response)
    && !t.verifyResponse(t.challenge0, s.worker.response)
  }

  ghost predicate OrphanFree(c: Config, t: Tools, events: seq<Event>)
  {
    forall k :: 0 <= k < |events| ==> !Orphaned(t, Reached(c, t, events[..k]), events[k])
  }

  /** The recorded responses chain from challenge_0 to the challenge file throughout a run if and
      only if no response that does not answer challenge_0 is recorded after its challenge was
      moved away by finalization. */
  lemma ChainedIffOrphanFree(c: Config, t: Tools, events: seq<Event>)
    requires c.Ok()
    ensures (forall k :: 0 <= k <= |events| ==> Chained(t, Reached(c, t, events[..k]))) <==> OrphanFree(c, t, events)
  {
    var good, bad := s => Chained(t, s), (s, e) => Orphaned(t, s, e);
    forall s, e | Inv(c, t, s) && good(s)
      ensures good(Step(c, t, s, e)) <==> !bad(s, e)
    {
      ChainedStep(c, t, s, e);
    }
    ThroughoutIffAvoids(c, t, events, good, bad);
    assert Throughout(c, t, events, good) <==>
      forall k :: 0 <= k <= |events| ==> Chained(t, Reached(c, t, events[..k]));
    assert Avoids(c, t, events, bad) <==> OrphanFree(c, t, events);
  }

  lemma ChainedStep(c: Config, t: Tools, s: Sys, e: Event)
    requires c.Ok() && Inv(c, t, s) && Chained(t, s)
    ensures Chained(t, Step(c, t, s, e)) <==> !Orphaned(t, s, e)
  {
    if e.RecordResponse? && s.worker.Verifying? && t.verifyResponse(s.worker.challenge, s.worker.response) {
      var rs, r := s.history.responses, s.worker.response;
      if t.verifyResponse(CurrentOr0(t, s.files), r) {
        ReplaySnoc(t, t.challenge0, rs, r);
      } else {
        assert rs == [] && s.files.next.None?;
        assert rs + [r] == [r];
      }
    }
  }

  /** With the guarded tick nothing is ever orphaned. */
  lemma GuardedIsOrphanFree(c: Config, t: Tools, events: seq<Event>)
    requires c.Ok() && Guarded(events)
    ensures OrphanFree(c, t, events)
  {
    forall k | 0 <= k < |events|
      ensures !Orphaned(t, Reached(c, t, events[..k]), events[k])
    {
      RunInv(c, t, events[..k]);
      GuardedRunInv(c, t, events[..k]);
    }
  }

  /** Responses that are longer by one byte than the challenge they answer. */
  function CountingTools(): Tools
  {
    Tools([], (challenge, r) => |r| == |challenge| + 1, r => r, r => r, (_, _, _) => true, (_, _, _) => true)
  }

  /** With the installed tick it happens: the second of two slots runs out, and the ceremony is
      finalized, while the second response is being verified. */
  lemma InstalledTickOrphans()
    ensures
      var c := Config(1.0, 10.0, ["a", "b"]);
      var a, b := Contribution(5.0, Request("a", [], [], Some([7]))),
        Contribute(6.0, Request("b", [], [], Some([7, 8])));
      var s := Reached(c, CountingTools(), a + [b, LoadChallenge, InstalledTick(15.0), RecordResponse]);
      s.saved.HaveAll() && s.files.transcript == [[7, 8]] && !Chained(CountingTools(), s)
  {
    var c, t := Config(1.0, 10.0, ["a", "b"]), CountingTools();
    var ra, rb := Request("a", [], [], Some([7])), Request("b", [], [], Some([7, 8]));
    var a, b := Contribution(5.0, ra), Contribute(6.0, rb);
    ContributionRuns(c, t, Init(c), 5.0, ra);
    var s1 := Reached(c, t, a);
    assert s1.turn == s1.saved == Turn(1, 2, 15.0) && s1.worker.Idle? && s1.files.next == Some([7]);
    RunAppend(c, t, Init(c), a, [b, LoadChallenge, InstalledTick(15.0), RecordResponse]);
    FourSteps(c, t, s1, b, LoadChallenge, InstalledTick(15.0), RecordResponse);
    var s2 := Step(c, t, s1, b);
    assert s2.worker == Launched(1, [7, 8]) && s2.files == s1.files && s2.turn == s1.turn;
    var s3 := Step(c, t, s2, LoadChallenge);
    assert s3.worker == Verifying(1, [7, 8], [7]);
    var s4 := Step(c, t, s3, InstalledTick(15.0));
    assert s4.files.next.None? && s4.files.transcript == [] && s4.history.responses == [] && s4.saved.HaveAll();
    var s5 := Step(c, t, s4, RecordResponse);
    assert s5.history.responses == [[7, 8]];
    assert Replay(t, [], [[7, 8]]) == None;
  }

  /** Between processing steps, the next-challenge file exists exactly if the transcript does, and
      the challenge served is what replaying the recorded responses from challenge_0 gives. Only
      after all turns are over, when nothing is served any more, can there be an orphan. */
  lemma ServedChallengeIsReplay(c: Config, t: Tools, events: seq<Event>)
    requires c.Ok() && JamFree(c, t, events)
    ensures
      var s := Reached(c, t, events);
      && !s.history.challengeFailed
      && (s.files.next.Some? <==> s.files.transcript != [])
      && s.files.transcript == PublicKeys(t, s.history.responses)
      && (!s.worker.Handled? && (!s.turn.HaveAll() || OrphanFree(c, t, events)) ==>
            CurrentChallenge(t, s.files, s.turn.index) == Replay(t, t.challenge0, s.history.responses))
  {
    RunInv(c, t, events);
    assert events[..|events|] == events;
    ServingNeverFails(c, t, events);
    ChainedIffOrphanFree(c, t, events);
  }

  /** A lone contributor whose transcript the final check rejects leaves, after a restart, a
      server that can no longer serve its challenge. */
  lemma LoneContributorCanJam(c: Config, t: Tools, r: Request, now: real)
    requires c.Ok() && |c.keys| == 1 && now < c.startTime + c.interval
    requires Vouches(c, t, 0, r) && r.upload.Some? && t.verifyResponse(t.challenge0, r.upload.value)
    requires !t.verifyTranscript(t.challenge0, [t.publicKey(r.upload.value)], t.nextChallenge(r.upload.value))
    ensures Reached(c, t, Contribution(now, r) + [Restart] + [Challenge(now)]).history.challengeFailed
  {
    var run := Contribution(now, r);
    ContributionRuns(c, t, Init(c), now, r);
    var s := Reached(c, t, run);
    assert [] + [t.publicKey(r.upload.value)] == [t.publicKey(r.upload.value)];
    assert s.saved == Init(c).turn && s.files.next.Some? && s.worker.Idle?;
    ReachedSnoc(c, t, run, Restart);
    ReachedSnoc(c, t, run + [Restart], Challenge(now));
  }
}
