/** The MPC coordinator as a step machine: requests, the processing thread, timer ticks and
    restarts, over the phase 2 contribution handler and its files.

    `Step` is one atomic step; runs are sequences of events. Requests are serialised by the
    single worker thread of the web server, so a request is one step. The processing thread
    takes three steps (reading the challenge, verifying and recording the response, then the
    state update), and ticks may fall in between. */
module CoordinatorSpec {
  import opened Bytes
  import opened ServerState
  import opened Outcomes

  /** The external tools and checks, uninterpreted. */
  datatype Tools = Tools(
    challenge0: Bytes,
    verifyResponse: (Bytes, Bytes) -> bool,
    publicKey: Bytes -> Bytes,
    nextChallenge: Bytes -> Bytes,
    verifyTranscript: (Bytes, seq<Bytes>, Bytes) -> bool,
    verifySignature: (Bytes, string, Bytes) -> bool)

  /** Contributors are identified by their exported verification keys. */
  datatype Config = Config(startTime: real, interval: real, keys: seq<string>) {
    /** The assertions of initial_server_state. */
    predicate Ok() {
      startTime != 0.0 && interval != 0.0 && |keys| != 0
    }
  }

  // ----- Phase 2 handler

  /** `next` and `transcript` are the files of those names; an absent transcript is []. */
  datatype Files = Files(next: Option<Bytes>, transcript: seq<Bytes>, output: Option<Bytes>,
                         finalTranscript: seq<Bytes>)

  /** get_current_challenge_file; None is the "unexpected next challenge" exception. */
  function CurrentChallenge(t: Tools, f: Files, index: int): Option<Bytes>
  {
    if f.next.Some? then (if index == 0 then None else f.next) else Some(t.challenge0)
  }

  /** The end of process_contribution, for a valid response. */
  function Recorded(t: Tools, f: Files, response: Bytes): Files
  {
    f.(next := Some(t.nextChallenge(response)), transcript := f.transcript + [t.publicKey(response)])
  }

  /** on_completed; None when it raises, in which case no file has been touched. */
  function OnCompleted(t: Tools, f: Files): Option<Files>
  {
    if f.next.None? || !t.verifyTranscript(t.challenge0, f.transcript, f.next.value) then None
    else Some(Files(None, [], f.next, f.transcript))
  }

  // ----- System state

  /** Where the processing thread is; `checked` is the contributor whose key and signature
      were verified when the upload was accepted, `challenge` what the response is verified
      against. */
  datatype Worker =
    | Idle
    | Launched(checked: int, response: Bytes)
    | Verifying(checked: int, response: Bytes, challenge: Bytes)
    | Handled(checked: int)

  /** `credited` is the contributor index at which the contribution was counted. */
  datatype Acceptance = Acceptance(checked: int, credited: int)

  /** What happened so far. `responses` are those the handler took since the files were last
      finalized, `finalResponses` those it had taken by then; `completionCalls` counts calls
      of on_completed in this process. */
  datatype History = History(
    accepted: seq<Acceptance>,
    responses: seq<Bytes>,
    finalResponses: seq<Bytes>,
    completionCalls: nat,
    completedOnce: bool,
    assertionFailed: bool,
    challengeFailed: bool)

  datatype Sys = Sys(turn: Turn, saved: Turn, finalized: bool, worker: Worker, files: Files, history: History)

  datatype Request = Request(publicKey: string, signature: Bytes, digest: Bytes, upload: Option<Bytes>)

  datatype Event =
    | Challenge(now: real)
    | Contribute(now: real, request: Request)
    | LoadChallenge
    | RecordResponse
    | FinishWorker(now: real)
    | GuardedTick(now: real)    // the method _tick, with test and update in one step
    | InstalledTick(now: real)  // the closure that the server really gives to its timer
    | Restart

  function Init(c: Config): Sys
  {
    var turn := Turn(0, |c.keys|, c.startTime + c.interval);
    Sys(turn, turn, false, Idle, Files(None, [], None, []), History([], [], [], 0, false, false, false))
  }

  /** _on_next_contributor, with the outcome "raised". */
  function OnNextContributor(t: Tools, s: Sys): (Sys, bool)
  {
    if !s.finalized && s.turn.HaveAll() then
      var s1 := s.(finalized := true, history := s.history.(completionCalls := s.history.completionCalls + 1));
      var done := OnCompleted(t, s.files);
      if done.None? then (s1, true)
      else (s1.(files := done.value, saved := s1.turn,
              history := s1.history.(completedOnce := true, finalResponses := s.history.responses, responses := [])),
            false)
    else (s.(saved := s.turn), false)
  }

  /** _update_state, with the outcome "raised". */
  function UpdateState(c: Config, t: Tools, s: Sys, now: real): (Sys, bool)
  {
    if s.turn.Expired(now) then OnNextContributor(t, s.(turn := s.turn.Next(now + c.interval))) else (s, false)
  }

  function Step(c: Config, t: Tools, s: Sys, e: Event): Sys
  {
    match e
    case Challenge(now) =>
      if !s.worker.Idle? then s
      else
        var (s1, raised) := UpdateState(c, t, s, now);
        if raised || s1.turn.HaveAll() || CurrentChallenge(t, s1.files, s1.turn.index).Some? then s1
        else s1.(history := s1.history.(challengeFailed := true))
    case Contribute(now, request) =>
      if !s.worker.Idle? then s
      else
        var (s1, raised) := UpdateState(c, t, s, now);
        if raised || !Admissible(c, t, s1.turn, request) then s1
        else s1.(worker := Launched(s1.turn.index, request.upload.value))
    case LoadChallenge =>
      if !s.worker.Launched? then s
      else
        var challenge := CurrentChallenge(t, s.files, s.turn.index);
        s.(worker := if challenge.None? then Idle else Verifying(s.worker.checked, s.worker.response, challenge.value))
    case RecordResponse =>
      if !s.worker.Verifying? then s
      else if !t.verifyResponse(s.worker.challenge, s.worker.response) then s.(worker := Idle)
      else s.(worker := Handled(s.worker.checked), files := Recorded(t, s.files, s.worker.response),
              history := s.history.(responses := s.history.responses + [s.worker.response]))
    case FinishWorker(now) =>
      if !s.worker.Handled? then s
      else if s.turn.HaveAll() then s.(worker := Idle, history := s.history.(assertionFailed := true))
      else
        var entry := Acceptance(s.worker.checked, s.turn.index);
        var s1 := s.(turn := s.turn.Next(now + c.interval),
                     history := s.history.(accepted := s.history.accepted + [entry]));
        OnNextContributor(t, s1).0.(worker := Idle)
    case GuardedTick(now) => if s.worker.Idle? then UpdateState(c, t, s, now).0 else s
    case InstalledTick(now) => UpdateState(c, t, s, now).0
    case Restart =>
      if !s.worker.Idle? then s
      else s.(turn := s.saved, finalized := s.saved.HaveAll(), history := s.history.(completionCalls := 0))
  }

  /** The checks a contribution passes before it is handed to the processing thread. */
  predicate Admissible(c: Config, t: Tools, turn: Turn, r: Request)
  {
    !turn.HaveAll() && Vouches(c, t, turn.index, r) && r.upload.Some?
  }

  /** The request carries contributor i's key and a signature that it verifies. */
  predicate Vouches(c: Config, t: Tools, i: int, r: Request)
  {
    0 <= i < |c.keys| && c.keys[i] == r.publicKey && t.verifySignature(r.signature, c.keys[i], r.digest)
  }

  function Run(c: Config, t: Tools, s: Sys, events: seq<Event>): Sys
  {
    if events == [] then s
    else Step(c, t, Run(c, t, s, events[..|events| - 1]), events[|events| - 1])
  }

  // ----- Invariant of every run

  ghost predicate Inv(c: Config, t: Tools, s: Sys)
  {
    && s.turn.total == s.saved.total == |c.keys|
    && 0 <= s.turn.index <= s.turn.total
    && 0 <= s.saved.index <= s.turn.index
    && (s.turn.HaveAll() ==> s.turn.deadline == 0.0)
    && (s.saved.HaveAll() ==> s.saved.deadline == 0.0 && s.history.completedOnce)
    && s.finalized == s.turn.HaveAll()
    && s.history.completionCalls <= (if s.finalized then 1 else 0)
    && (s.saved == s.turn || (s.turn.HaveAll() && s.saved.index == s.turn.total - 1))
    && (!s.worker.Idle? ==> 0 <= s.worker.checked <= s.turn.index && s.worker.checked < s.turn.total)
    && FilesInv(t, s)
  }

  lemma {:induction false} RunInv(c: Config, t: Tools, events: seq<Event>)
    requires c.Ok()
    ensures Inv(c, t, Run(c, t, Init(c), events))
  {
    if events != [] {
      RunInv(c, t, events[..|events| - 1]);
      StepInv(c, t, Run(c, t, Init(c), events[..|events| - 1]), events[|events| - 1]);
    }
  }

  lemma StepInv(c: Config, t: Tools, s: Sys, e: Event)
    requires c.Ok() && Inv(c, t, s)
    ensures Inv(c, t, Step(c, t, s, e))
  {
    match e {
      case LoadChallenge =>
      case RecordResponse =>
        if s.worker.Verifying? {
          HandlerKeepsFiles(c, t, s);
        }
      case FinishWorker(now) =>
        if s.worker.Handled? && !s.turn.HaveAll() {
          NextKeepsInv(c, t, s, now);
        }
      case Restart =>
      case Challenge(now) => UpdateKeepsInv(c, t, s, now);
      case Contribute(now, _) => UpdateKeepsInv(c, t, s, now);
      case GuardedTick(now) => UpdateKeepsInv(c, t, s, now);
      case InstalledTick(now) => UpdateKeepsInv(c, t, s, now);
    }
  }

  /** Giving the turn to the next contributor, for whatever reason. */
  lemma NextKeepsInv(c: Config, t: Tools, s: Sys, now: real)
    requires c.Ok() && Inv(c, t, s) && !s.turn.HaveAll()
    ensures Inv(c, t, OnNextContributor(t, s.(turn := s.turn.Next(now + c.interval))).0)
  {}

  lemma UpdateKeepsInv(c: Config, t: Tools, s: Sys, now: real)
    requires c.Ok() && Inv(c, t, s)
    ensures Inv(c, t, UpdateState(c, t, s, now).0)
  {
    if s.turn.Expired(now) {
      NextKeepsInv(c, t, s, now);
    }
  }

  // ----- Files

  /** Replay responses from a challenge with the verifier; None if one does not verify. */
  function Replay(t: Tools, challenge: Bytes, responses: seq<Bytes>): Option<Bytes>
    decreases |responses|
  {
    if responses == [] then Some(challenge)
    else if !t.verifyResponse(challenge, responses[0]) then None
    else Replay(t, t.nextChallenge(responses[0]), responses[1..])
  }

  lemma {:induction false} ReplaySnoc(t: Tools, challenge: Bytes, responses: seq<Bytes>, r: Bytes)
    requires Replay(t, challenge, responses).Some?
    requires t.verifyResponse(Replay(t, challenge, responses).value, r)
    ensures Replay(t, challenge, responses + [r]) == Some(t.nextChallenge(r))
    decreases |responses|
  {
    if responses == [] {
      assert responses + [r] == [r];
    } else {
      assert (responses + [r])[1..] == responses[1..] + [r];
      ReplaySnoc(t, t.nextChallenge(responses[0]), responses[1..], r);
    }
  }

  function PublicKeys(t: Tools, responses: seq<Bytes>): seq<Bytes>
  {
    seq(|responses|, i requires 0 <= i < |responses| => t.publicKey(responses[i]))
  }

  function CurrentOr0(t: Tools, f: Files): Bytes
  {
    if f.next.Some? then f.next.value else t.challenge0
  }

  /** Until the files are finalized, transcript and next challenge come from one chain of
      verified responses, which the thread is about to extend; final transcript and output do
      too. */
  ghost predicate FilesInv(t: Tools, s: Sys)
  {
    var f, rs, last := s.files, s.history.responses, s.history.finalResponses;
    && (f.next.Some? <==> f.transcript != [])
    && f.transcript == PublicKeys(t, rs)
    && (!s.history.completedOnce ==> Chained(t, s))
    && (s.worker.Verifying? ==> s.worker.challenge == CurrentOr0(t, f) || (s.history.completedOnce && rs == []))
    && (f.output.Some? <==> s.history.completedOnce)
    && (f.output.Some? ==>
          && s.saved.HaveAll() && last != []
          && f.finalTranscript == PublicKeys(t, last)
          && Replay(t, t.challenge0, last) == f.output
          && t.verifyTranscript(t.challenge0, f.finalTranscript, f.output.value))
  }

  /** The recorded responses chain from challenge_0 to the current challenge. */
  predicate Chained(t: Tools, s: Sys)
  {
    Replay(t, t.challenge0, s.history.responses) == Some(CurrentOr0(t, s.files))
  }

  lemma HandlerKeepsFiles(c: Config, t: Tools, s: Sys)
    requires c.Ok() && Inv(c, t, s) && s.worker.Verifying?
    ensures FilesInv(t, Step(c, t, s, RecordResponse))
  {
    var rs, r := s.history.responses, s.worker.response;
    if t.verifyResponse(s.worker.challenge, r) {
      if !s.history.completedOnce {
        ReplaySnoc(t, t.challenge0, rs, r);
      }
      assert PublicKeys(t, rs + [r]) == PublicKeys(t, rs) + [t.publicKey(r)];
    }
  }
}
