/** The coordinator server itself: an object whose methods update the turn, the state file and
    the phase 2 files in place. Each method is proved to be one step of CoordinatorSpec. */
module Server {
  import opened Bytes
  import opened Outcomes
  import opened ServerState
  import opened CoordinatorSpec

  datatype Reply = Reply(status: nat, body: Bytes)

  class Server {
    const config: Config
    const tools: Tools
    const state: ServerState
    var stateFile: Turn
    var handlerFinalized: bool
    var processing: bool
    var worker: Worker
    var files: Files
    ghost var history: History

    ghost predicate Valid()
      reads this, state
    {
      && (processing <==> !worker.Idle?)
      && state.numContributors == |config.keys|
      && 0 <= state.nextContributorIndex
    }

    ghost function View(): Sys
      reads this, state
    {
      Sys(state.View(), stateFile, handlerFinalized, worker, files, history)
    }

    /** First start: no state file, and (as the handler checks) no transcript. */
    constructor Start(config: Config, tools: Tools)
      requires config.Ok()
      ensures Valid() && fresh(state) && this.config == config && this.tools == tools
      ensures View() == Init(config)
    {
      var turn := Turn(0, |config.keys|, config.startTime + config.interval);
      var st := new ServerState(turn);
      this.config, this.tools, state := config, tools, st;
      stateFile, handlerFinalized, processing, worker := turn, turn.HaveAll(), false, Idle;
      files := Files(None, [], None, []);
      history := History([], [], [], 0, false, false, false);
    }

    /** A later start, from the state file and the handler's files that `previous` left. */
    constructor Reopen(previous: Server)
      requires previous.Valid() && !previous.processing
      requires previous.config.Ok()
      requires previous.stateFile.total == |previous.config.keys| && 0 <= previous.stateFile.index
      ensures Valid() && fresh(state) && config == previous.config && tools == previous.tools
      ensures View() == Step(config, tools, previous.View(), Restart)
    {
      var st := new ServerState(previous.stateFile);
      config, tools, state := previous.config, previous.tools, st;
      stateFile, handlerFinalized := previous.stateFile, previous.stateFile.HaveAll();
      processing, worker := false, Idle;
      files := previous.files;
      history := previous.history.(completionCalls := 0);
    }

    /** _on_next_contributor; an exception from on_completed skips writing the state file. */
    method OnNextContributor() returns (raised: bool)
      modifies this
      ensures (View(), raised) == CoordinatorSpec.OnNextContributor(tools, old(View()))
      ensures processing == old(processing)
    {
      if !handlerFinalized && state.HaveAllContributions() {
        handlerFinalized := true;
        history := history.(completionCalls := history.completionCalls + 1);
        if files.next.None? {
          return true;
        }
        if !tools.verifyTranscript(tools.challenge0, files.transcript, files.next.value) {
          return true;
        }
        files := Files(None, [], files.next, files.transcript);
        history := history.(completedOnce := true, finalResponses := history.responses, responses := []);
      }
      stateFile := state.View();
      return false;
    }

    method UpdateState(now: real) returns (raised: bool)
      requires Valid()
      modifies this, state
      ensures Valid() && processing == old(processing)
      ensures (View(), raised) == CoordinatorSpec.UpdateState(config, tools, old(View()), now)
    {
      raised := false;
      var moved := state.Update(now, config.interval);
      if moved {
        raised := OnNextContributor();
      }
    }

    /** The method _tick, taken as one step. */
    method GuardedTick(now: real)
      requires Valid()
      modifies this, state
      ensures Valid() && View() == Step(config, tools, old(View()), CoordinatorSpec.GuardedTick(now))
    {
      if processing {
        return;
      }
      var _ := UpdateState(now);
    }

    /** The closure passed to the timer, which ignores `processing`. */
    method InstalledTick(now: real)
      requires Valid()
      modifies this, state
      ensures Valid() && View() == Step(config, tools, old(View()), CoordinatorSpec.InstalledTick(now))
    {
      var _ := UpdateState(now);
    }

    method GetCurrentChallenge(index: int) returns (r: Option<Bytes>)
      ensures r == CurrentChallenge(tools, files, index)
    {
      if files.next.Some? {
        if index == 0 {
          return None;
        }
        return files.next;
      }
      return Some(tools.challenge0);
    }

    method Challenge(now: real) returns (reply: Reply)
      requires Valid()
      modifies this, state
      ensures Valid() && View() == Step(config, tools, old(View()), CoordinatorSpec.Challenge(now))
      ensures reply.status in {200, 400, 405, 503}
      ensures reply.status == 503 <==> old(processing)
      ensures
        var raised := CoordinatorSpec.UpdateState(config, tools, old(View()), now).1;
        var challenge := CurrentChallenge(tools, files, state.nextContributorIndex);
        && (reply.status == 405 <==> !processing && !raised && state.HaveAllContributions())
        && (reply.status == 200 <==> !processing && !raised && !state.HaveAllContributions() && challenge.Some?)
        && (reply.status == 200 ==> reply.body == challenge.value)
    {
      if processing {
        return Reply(503, []);
      }
      var raised := UpdateState(now);
      if raised {
        return Reply(400, []);
      }
      if state.HaveAllContributions() {
        return Reply(405, []);
      }
      var challenge := GetCurrentChallenge(state.nextContributorIndex);
      if challenge.None? {
        history := history.(challengeFailed := true);
        return Reply(400, []);
      }
      return Reply(200, challenge.value);
    }

    method Contribute(now: real, request: Request) returns (reply: Reply)
      requires Valid()
      modifies this, state
      ensures Valid() && View() == Step(config, tools, old(View()), CoordinatorSpec.Contribute(now, request))
      ensures reply.status in {200, 400, 403, 405, 503}
      ensures reply.status == 503 <==> old(processing)
      ensures reply.status == 200 <==> !old(processing) && processing
      ensures reply.status == 200 ==> Admissible(config, tools, state.View(), request)
      ensures
        var raised := CoordinatorSpec.UpdateState(config, tools, old(View()), now).1;
        var active := !old(processing) && !raised && !state.HaveAllContributions();
        && (reply.status == 405 <==> !old(processing) && !raised && state.HaveAllContributions())
        && (reply.status == 403 <==> active && !Vouches(config, tools, state.nextContributorIndex, request))
    {
      if processing {
        return Reply(503, []);
      }
      var raised := UpdateState(now);
      if raised {
        return Reply(400, []);
      }
      if state.HaveAllContributions() {
        return Reply(405, []);
      }
      var index := state.nextContributorIndex;
      var key := config.keys[index];
      if key != request.publicKey {
        return Reply(403, []);
      }
      if !tools.verifySignature(request.signature, key, request.digest) {
        return Reply(403, []);
      }
      if request.upload.None? {
        return Reply(400, []);
      }
      processing := true;
      worker := Launched(index, request.upload.value);
      return Reply(200, []);
    }

    /** The processing thread starts: the handler picks the challenge for the index read now. */
    method LoadChallenge()
      requires Valid()
      modifies this
      ensures Valid() && View() == Step(config, tools, old(View()), CoordinatorSpec.LoadChallenge)
      ensures old(worker).Launched? ==>
        (processing <==> !(files.next.Some? && state.nextContributorIndex == 0))
    {
      if !worker.Launched? {
        return;
      }
      var challenge := GetCurrentChallenge(state.nextContributorIndex);
      if challenge.None? {
        worker, processing := Idle, false;
      } else {
        worker := Verifying(worker.checked, worker.response, challenge.value);
      }
    }

    /** The rest of the handler: a valid response goes into the files as they are now. */
    method RecordResponse()
      requires Valid()
      modifies this
      ensures Valid() && View() == Step(config, tools, old(View()), CoordinatorSpec.RecordResponse)
      ensures old(worker).Verifying? ==>
        (processing <==> tools.verifyResponse(old(worker).challenge, old(worker).response))
      ensures !processing ==> files == old(files)
    {
      if !worker.Verifying? {
        return;
      }
      var response := worker.response;
      if !tools.verifyResponse(worker.challenge, response) {
        worker, processing := Idle, false;
        return;
      }
      files := files.(transcript := files.transcript + [tools.publicKey(response)]);
      files := files.(next := Some(tools.nextChallenge(response)));
      history := history.(responses := history.responses + [response]);
      worker := Handled(worker.checked);
    }

    /** The end of _process_contribution: _on_contribution and the clean-up. */
    method FinishWorker(now: real)
      requires Valid()
      modifies this, state
      ensures Valid() && View() == Step(config, tools, old(View()), CoordinatorSpec.FinishWorker(now))
      ensures old(worker).Handled? ==> !processing
    {
      if !worker.Handled? {
        return;
      }
      ghost var entry := Acceptance(worker.checked, state.nextContributorIndex);
      var ok := state.ReceivedContribution(now + config.interval);
      if ok {
        history := history.(accepted := history.accepted + [entry]);
        var _ := OnNextContributor();
      } else {
        history := history.(assertionFailed := true);
      }
      worker, processing := Idle, false;
    }
  }
}
