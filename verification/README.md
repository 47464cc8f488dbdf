# Zeth in Dafny: client state, MPC coordinator, encodings

Zeth runs shielded payments on Ethereum. Its client keeps a Merkle tree of note commitments and a
wallet in step with the chain; its MPC coordinator runs the ceremony that produces the proving
keys; its libraries hash, encode and generate randomness. This project models these parts and
proves, for all inputs and all runs, what they are relied on for:

- **Merkle tree** (`MerkleSpec`, `MerkleTree`). However insertions and recomputations are
  interleaved, the stored layers are a function of the leaf list, every node is the plain
  recursive hash of its slice of the zero-padded leaves, each affected parent is hashed exactly
  once, sibling paths open the root, and a second opening contains a hash collision. `MimcTree`
  brings this down to MiMC: a second opening that differs in some field element contains a
  collision of `hash_int`.
- **MPC coordinator** (`ServerState`, `CoordinatorSpec`, `CoordinatorRuns`, `Server`,
  `Phase1Handler`). The server is a class whose every method is one step of a state machine;
  safety is proved over all runs of that machine, for the tick the server defines and for the tick
  it really installs. Where a promise fails, the failing run is given, together with the exact
  condition under which the promise holds.
- **Wallet and chain sync** (`WalletSpec`, `SyncSpec`, `WalletRetry`, `Wallet`). The persisted
  wallet is a function of the event log: any number of sessions with any batch sizes equals one
  sync. What a sync that fails leaves on disk is specified, and when it can be made up for.
- **Buffered and streaming code** (`ChachaRng`, `Upload`), proved against one plain stream.
- **MiMC and the input hasher** (`PrimeField`, `FieldRoots`, `MiMC`): encryption is a permutation of
  the field if and only if 17 does not divide p - 1, and equal hashes of different lists give a
  collision of the compression function.
- **Encodings and values** (`Hex`, `MpcHash`, `Numerals`, `Encodings`, `FloatDivision`,
  `JoinSplit`): round trips, domain separation of the PRF inputs, and conservation of value, with
  the floating-point division that the conversion to zeth units really does.

`Bytes`, `Outcomes` and `Sums` hold shared types and functions. Hashes, signatures, the ChaCha block function,
encryption and the external MPC tools are function-valued parameters about which nothing is
assumed. `dafny verify dfyconfig.toml` checks the whole project.

How the coordinator is cut into steps: the web server has one worker thread, so a request is one
step; the processing thread takes three steps, reading the challenge (`LoadChallenge`), verifying
and recording the response (`RecordResponse`) and updating the state (`FinishWorker`), and ticks
may fall between them; the guarded tick tests `processing` and updates in one step; a restart
happens only while no contribution is being processed. Time is a real argument of each step.

Places where the code does not do what its comments or its structure suggest; the model follows
the code:

- The timer is given a closure that ignores `processing` (mpc/coordinator/server.py:324-328), not
  the method `_tick`. A slot can then run out while its contribution is being verified, and the
  contribution is credited to the next contributor or trips an assertion
  (`InstalledTickMiscredits`, `InstalledTickTripsAssertion`). `FinishCreditsIffSlotOutlives` says
  exactly when it is credited rightly, and `FinishFailsIffTicksEndTurns` exactly when the assertion
  fails and who is credited otherwise. The tick can also finalize the ceremony meanwhile, after
  which the response is recorded in a new transcript that does not start from challenge_0
  (`InstalledTickOrphans`, and for phase 1 `FinalizingOrphans`; exactly when,
  `ChainedIffOrphanFree` for either phase). And the ceremony can be complete although nothing was
  ever accepted (`CompleteWithoutCredit`; exactly when it completes, `CompletesIffRecorded`).
- When `on_completed` raises, the state file is not written. A restart then gives the last
  contributor another turn, so that they can be credited twice (`LastCreditedTwice`), and with a
  single contributor it leaves a server that cannot serve its challenge (`LoneContributorCanJam`).
  `OrderedIffRecreditFree` and `ServesThroughoutIffJamFree` say exactly in which runs this happens.
- Reopening phase 1 after its final output starts a new challenge with the old count
  (`ReopenAfterFinalKeepsCount`); `CountMatchesTranscript` has the exact condition.
- `receive_notes` overwrites `merkle_tree_changed` at every event, so a last event without outputs
  leaves the tree unhashed and the closing root check fails (`EmptyEventMakesBatchingMatter`);
  `SyncOutcome` and `SplitAgreesIff` have the exact condition. The state file has moved on by then,
  so the leaves are missing for good (`StaleTreeIsLasting`).
- Events are fetched lazily and note files are moved as events come, but the state file is written
  last. A sync that stops half way, because a query or an event failed, can be repeated if and only
  if it had not moved a note that was unspent when it started (`RetryAfterFailure`); otherwise no
  later sync succeeds (`MovedIsStuck`, `StuckIsLasting`).
- A mix that balances in wei need not balance in zeth units. `to_zeth_units` divides in floating
  point, so it not only cuts off fractions (`FractionsCanLoseValue`) but rounds amounts from 16385
  units less one wei on up (`FirstRoundedUp`, `RoundingCanCreateValue`), and is inexact even for
  whole units from 2^53 on (`LargeAmountsCanLoseValue`). `BalancedIffCutOffs` has the exact
  condition; `FloorsIff`, `SmallAmountsFloor` and `WholeUnitsFloor` say which amounts are exact.
- `hex_to_bytes` with one argument refuses prefixed text (`StringFormRoundTrip`);
  `bytes_to_hex_reversed` drops the prefix of an empty input, and `hex_to_bytes_reversed` into an
  empty buffer accepts any text.
- At depth 0 the leaf layer is the pre-filled root layer, so `insert` can never succeed
  (`MerkleTree.MerkleTree.Empty`).

## Model

| member | source | states |
|---|---|---|
| MerkleSpec.HalvingMeaning | client/zeth/core/merkle_tree.py:278-287 | repeated halving down and up gives exactly floor(n / 2^k) and ceil(n / 2^k) |
| MerkleSpec.NodeStable | client/zeth/core/merkle_tree.py:255-304 | appending leaves changes no node whose subtree was already full |
| MerkleSpec.NodeBeyond | client/zeth/core/merkle_tree.py:116-123 | every node to the right of the leaves is the default value of its height |
| MerkleSpec.NodeIsSubtreeRoot | client/zeth/core/merkle_tree.py:116-123 | the node at any height and index is the recursive hash of its own slice of the zero-padded leaf list |
| MerkleSpec.RootIsTopNode | client/zeth/core/merkle_tree.py:132-134 | the top node is the recursive root of all 2^depth padded leaves |
| MerkleSpec.SiblingPathFolds | client/zeth/core/merkle_tree.py:188-206 | folding any node along its siblings gives its ancestor, for every start, height and length |
| MerkleSpec.PathCollision | client/zeth/core/merkle_tree.py:188-206 | two different openings of one address to one root yield an explicit collision of the tree hash |
| MerkleSpec.RootCollision | client/zeth/core/merkle_tree.py:132-134 | two different full leaf lists with one root yield an explicit collision of the tree hash |
| MerkleSpec.UpdateCostBound | client/zeth/core/merkle_tree.py:142-175 | the widths ceil(n/2^k) - floor(old/2^k) over all levels sum to fewer than m + 2 * depth for m new leaves |
| MerkleTree.UpdateLogMinimal | client/zeth/core/merkle_tree.py:278-304 | the hashes of one recomputation are exactly the ancestors of new leaves, none twice, fewer than m + 2 * depth in all |
| MerkleTree.RecomputeLayer | client/zeth/core/merkle_tree.py:255-304 | nodes in [start/2, ceil(end/2)) get the hash of their children, the default standing in for a missing right child; all others stay; each is hashed once, from the right |
| MerkleTree.LayerStep | client/zeth/core/merkle_tree.py:255-304 | one layer update turns the parent layer of the old leaves into the parent layer of all leaves |
| MerkleTree.RehashLayers | client/zeth/core/merkle_tree.py:154-173 | the loop brings every layer from the old leaves to all leaves, with exactly the logged hashes |
| MerkleTree.MerkleTree.Empty | client/zeth/core/merkle_tree.py:76-96 | a new tree is valid and has no leaves, or at depth 0 the single pre-filled one |
| MerkleTree.MerkleTree.FromData | client/zeth/core/merkle_tree.py:222-237 | opening saved data gives back the tree of those leaves with nothing pending |
| MerkleTree.MerkleTree.Insert | client/zeth/core/merkle_tree.py:136-140 | appends the leaf exactly if the tree is not full; the hashed part is untouched |
| MerkleTree.MerkleTree.GetRoot | client/zeth/core/merkle_tree.py:132-134 | fails exactly while insertions are pending; otherwise the recursive root of the padded leaves |
| MerkleTree.MerkleTree.GetNode | client/zeth/core/merkle_tree.py:116-123 | fails exactly while insertions are pending, above the root or for an index too far below zero; otherwise the reference node, stored or default, counted from the end of the layer for a negative index |
| MerkleTree.NegativeIndex | client/zeth/core/merkle_tree.py:116-123 | leaf -1 is the last one, -2 the one before, and before the first there is none |
| MerkleTree.MerkleTree.RecomputeRoot | client/zeth/core/merkle_tree.py:142-175 | keeps the leaves, makes all stored data the function of the leaves, returns the recursive root, and hashes exactly the affected parents |
| MerkleTree.MerkleTree.ComputeMerklePath | client/zeth/core/merkle_tree.py:188-206 | the siblings from leaf to root, depth of them, which fold from the leaf to the root; empty for address -1; taken from the ends of the layers for lower addresses; fails exactly while insertions are pending or out of range |
| MerkleTree.MerkleTree.CleanData | client/zeth/core/merkle_tree.py:142-175 | whenever nothing is pending, depth, defaults and layers are a function of the leaf list |
| MerkleTree.PathOpensRoot | client/zeth/core/merkle_tree.py:188-206 | for every address below 2^depth the sibling path folds from the leaf to the root |
| MerkleTree.OpeningIsBinding | client/zeth/core/merkle_tree.py:188-206 | any other leaf and path of length depth that fold to the tree's root at that address yield a hash collision |
| MerkleTree.BatchingIrrelevant | client/zeth/core/merkle_tree.py:136-175 | dropping all recomputations from a history leaves the same leaves |
| MerkleTree.RunHistory | client/zeth/core/merkle_tree.py:136-175 | any history of insertions and recomputations ends in exactly the data, and the root, of one batch insertion |
| ServerState.ServerState.ReceivedContribution | mpc/coordinator/server_state.py:42-47 | the assertion fails exactly if all turns are over; otherwise the turn passes on with the new deadline |
| ServerState.ServerState.Update | mpc/coordinator/server_state.py:49-61 | the turn passes on exactly if a positive deadline has been reached |
| ServerState.ServerState.NextContributor | mpc/coordinator/server_state.py:63-68 | index plus one, and deadline zero exactly when that was the last |
| CoordinatorSpec.RunInv | mpc/coordinator/server.py:98-120 | the invariant of index, deadline, state file, completion and files holds after every run |
| CoordinatorSpec.StepInv | mpc/coordinator/server.py:103-149 | every kind of step keeps that invariant |
| CoordinatorSpec.ReplaySnoc | mpc_tools/mpc_phase2/cli/mpc_phase2_verify_contribution.cpp:103-134 | a verified response extends the chain from challenge_0 by its own next challenge |
| CoordinatorSpec.HandlerKeepsFiles | mpc/coordinator/phase2_contribution_handler.py:95-113 | processing keeps transcript and next challenge in agreement with one chain of verified responses |
| CoordinatorRuns.TurnEndsAtDeadline | mpc/coordinator/server_state.py:49-68 | at every look at the clock, the turn passes on exactly from a positive deadline on; the next contributor has a whole interval, and after the last the deadline is zero |
| CoordinatorRuns.FirstSlot | mpc/coordinator/server_state.py:86-99 | the first slot ends exactly at the start time plus one interval |
| CoordinatorRuns.BusyServerWaits | mpc/coordinator/server.py:293-307 | while a contribution is processed, requests and guarded ticks change nothing |
| CoordinatorRuns.RefusedLeavesNoTrace | mpc/coordinator/server.py:213-259 | within the slot, a request without the current contributor's key, a valid signature and an upload changes nothing |
| CoordinatorRuns.RejectedLeavesNoTrace | mpc/coordinator/server.py:261-287 | a contribution whose response does not verify leaves the server as it was before the request |
| CoordinatorRuns.ThreadEnds | mpc/coordinator/server.py:261-287 | from every state the processing thread ends, and the server is ready again |
| CoordinatorRuns.RestartIsHarmless | mpc/coordinator/server.py:68-78 | a restart with an up-to-date state file changes nothing but the count of calls in this process |
| CoordinatorRuns.IndexNeverDecreases | mpc/coordinator/server.py:108-120 | in every run, with either tick, the index is between 0 and the number of contributors and does not decrease, except that a restart takes back the final step exactly if the state file is behind |
| CoordinatorRuns.OrderedIffRecreditFree | mpc/coordinator/server.py:210-287 | with either tick, accepted contributors have strictly increasing indices throughout a run, each checked above where the earlier ones were credited, if and only if nothing is credited after the last contributor was |
| CoordinatorRuns.IncreasingIffReplayFree | mpc/coordinator/server.py:47-78 | with either tick, the turn stays past every credited contributor throughout a run if and only if no restart finds a stale state file after the last contributor was credited |
| CoordinatorRuns.AcceptedIncrease | mpc/coordinator/server.py:210-287 | so at the end of every run in which nothing is credited after the last contributor was, the order is strict |
| CoordinatorRuns.OnlyLastRepeats | mpc/coordinator/server.py:210-287 | in every run whatever, the order is strict except for repeated credits of the last contributor |
| CoordinatorRuns.StaleRestartRepeatsLast | mpc/coordinator/server.py:47-78 | after a failed on_completed, a restart and any valid response credit the last contributor once more |
| CoordinatorRuns.LastCreditedTwice | mpc/coordinator/server.py:47-120 | a run from the first start in which contributor 1 of 2 is credited twice |
| CoordinatorRuns.ContributionRuns | mpc/coordinator/server.py:182-287 | a contribution that nothing disturbs is recorded, credited to its contributor and passes on the turn |
| CoordinatorRuns.CheckedIsVouched | mpc/coordinator/server.py:210-240 | whoever is recorded as checked, a request of the run carried that contributor's key and a valid signature |
| CoordinatorRuns.GuardedCredit | mpc/coordinator/server.py:143-149 | with the guarded tick, every acceptance credits exactly the contributor checked, the assertion never fails, and finishing moves the index one past that contributor |
| CoordinatorRuns.CreditedIffSlotOutlives | mpc/coordinator/server.py:324-328 | while a contribution is processed the turn stays put if and only if no installed tick reaches the deadline |
| CoordinatorRuns.FinishCreditsIffSlotOutlives | mpc/coordinator/server.py:261-287 | the contribution is credited to the contributor checked if and only if no installed tick of its window reaches the deadline |
| CoordinatorRuns.FinishFailsIffTicksEndTurns | mpc/coordinator/server_state.py:42-61 | from the tick times of the window alone: the assertion fails if and only if they use up the last turn; otherwise the contributor they arrive at is credited |
| CoordinatorRuns.InstalledTickMiscredits | mpc/coordinator/server.py:324-328 | a run in which contributor 0's contribution is credited to contributor 1 |
| CoordinatorRuns.InstalledTickTripsAssertion | mpc/coordinator/server_state.py:42-47 | a run with one contributor in which the assertion fails |
| CoordinatorRuns.DeadlineZeroIffComplete | mpc/coordinator/server_state.py:49-68 | with positive times, the deadline is zero exactly when all turns are over, in memory and on disk |
| CoordinatorRuns.CompletionIsRecordedLast | mpc/coordinator/server.py:98-120 | on_completed is called at most once per process; if the state file says complete, a call has returned normally, the verifier accepted the final files and they come from a non-empty verified chain |
| CoordinatorRuns.CompletesIffContributed | mpc/coordinator/phase2_contribution_handler.py:115-131 | with the guarded tick and a transcript verifier that accepts verified chains, a finished ceremony is recorded as complete if and only if something was accepted |
| CoordinatorRuns.CompletesIffRecorded | mpc/coordinator/server.py:98-120 | with either tick and such a verifier, a finished ceremony is recorded as complete if and only if a response had been recorded when the last turn ended |
| CoordinatorRuns.CompleteWithoutCredit | mpc/coordinator/server.py:324-328 | a run with the installed tick that ends complete, with nothing accepted and a failed assertion |
| CoordinatorRuns.ServesThroughoutIffJamFree | mpc/coordinator/phase2_contribution_handler.py:82-93 | challenges can be served throughout a run if and only if there is no restart with one contributor, a stale state file and a next-challenge file |
| CoordinatorRuns.ServingNeverFails | mpc/coordinator/phase2_contribution_handler.py:82-93 | so at the end of every run without such a restart serving never raised, and the next-challenge file exists only from index 1 on |
| CoordinatorRuns.ChainedIffOrphanFree | mpc/coordinator/phase2_contribution_handler.py:95-131 | the recorded responses chain from challenge_0 to the challenge file throughout a run if and only if no response is recorded after finalization moved its challenge away and that does not answer challenge_0 |
| CoordinatorRuns.GuardedIsOrphanFree | mpc/coordinator/server.py:143-149 | with the guarded tick no response is ever recorded so |
| CoordinatorRuns.InstalledTickOrphans | mpc/coordinator/server.py:324-328 | a run in which the ceremony is finalized while a response is verified, and the response then starts a transcript that does not replay |
| CoordinatorRuns.ServedChallengeIsReplay | mpc/coordinator/phase2_contribution_handler.py:82-113 | in every run without the jamming restart, serving never raised, the next-challenge file exists iff the transcript is non-empty, and the challenge served is the replay of the recorded responses from challenge_0 |
| CoordinatorRuns.LoneContributorCanJam | mpc/coordinator/phase2_contribution_handler.py:82-93 | every rejected transcript of a lone contributor, followed by a restart, makes serving the challenge raise |
| Server.Server.Start | mpc/coordinator/server.py:47-78 | a first start is the initial state of the machine |
| Server.Server.Reopen | mpc/coordinator/server.py:68-78 | a later start is the restart step of the machine |
| Server.Server.OnNextContributor | mpc/coordinator/server.py:103-120 | finalizes once, and writes the state file only if that did not raise |
| Server.Server.UpdateState | mpc/coordinator/server.py:108-110 | the state update of the machine, with its outcome |
| Server.Server.GuardedTick | mpc/coordinator/server.py:143-149 | the guarded tick step of the machine |
| Server.Server.InstalledTick | mpc/coordinator/server.py:324-328 | the unguarded tick step of the machine |
| Server.Server.GetCurrentChallenge | mpc/coordinator/phase2_contribution_handler.py:82-93 | the challenge on offer, or the exception at index 0 with a next challenge |
| Server.Server.Challenge | mpc/coordinator/server.py:157-180 | the challenge step; exactly when 503, 405 and 200 are sent (400 otherwise), and a 200 carries the current challenge |
| Server.Server.Contribute | mpc/coordinator/server.py:182-259 | the contribute step; 503 exactly while processing, 405 exactly when all turns are over, 403 exactly for a wrong key or signature of the current contributor, 200 exactly when processing starts |
| Server.Server.LoadChallenge | mpc/coordinator/phase2_contribution_handler.py:95-103 | the first step of the processing thread: the challenge for the index read now |
| Server.Server.RecordResponse | mpc/coordinator/phase2_contribution_handler.py:99-113 | the second step: a response that answers the challenge read before goes into the files as they are now; any other ends the processing |
| Server.Server.FinishWorker | mpc/coordinator/server.py:112-115 | the last step of the processing thread |
| Phase1Handler.RunInv | mpc/coordinator/phase1_contribution_handler.py:131-176 | the invariant of challenge, transcript, count, saved count and final files holds after every run |
| Phase1Handler.CountMatchesTranscript | mpc/coordinator/phase1_contribution_handler.py:131-168 | in every run the count, in memory and on disk, is the number of responses ever appended; it equals the transcript's length if and only if nothing was finalized before |
| Phase1Handler.FilesAreChains | mpc/coordinator/phase1_contribution_handler.py:131-168 | in every run the transcripts are those of the recorded responses and the verifier has accepted the final one; without orphans the challenge and the final output are what these lead to |
| Phase1Handler.ChainedIffOrphanFree | mpc/coordinator/phase1_contribution_handler.py:131-168 | challenge and final output come from chains of verified responses throughout a run if and only if no response is recorded after finalization moved its challenge away, with another result than from the initial challenge |
| Phase1Handler.FinalizingOrphans | mpc/coordinator/phase1_contribution_handler.py:131-168 | a run that is finalized while a response is being verified, and then offers a challenge that the recorded responses do not lead to |
| Phase1Handler.ReopenAfterFinalKeepsCount | mpc/coordinator/phase1_contribution_handler.py:109-125 | a run after whose finalization the count is off by one |
| Phase1Handler.Phase1ContributionHandler.constructor | mpc/coordinator/phase1_contribution_handler.py:109-125 | a first start is the initial state |
| Phase1Handler.Phase1ContributionHandler.Reopen | mpc/coordinator/phase1_contribution_handler.py:109-125 | a later start is the reopen step |
| Phase1Handler.Phase1ContributionHandler.VerifyContribution | mpc/coordinator/phase1_contribution_handler.py:131-138 | the verification step; valid exactly if the response verifies against the challenge |
| Phase1Handler.Phase1ContributionHandler.RecordContribution | mpc/coordinator/phase1_contribution_handler.py:139-150 | the recording step, on the files as they are now |
| Phase1Handler.Phase1ContributionHandler.ProcessContribution | mpc/coordinator/phase1_contribution_handler.py:131-152 | the two steps without anything in between; accepted exactly if the response verifies against the challenge |
| Phase1Handler.Phase1ContributionHandler.OnCompleted | mpc/coordinator/phase1_contribution_handler.py:154-168 | the completion step; succeeds exactly if there is a transcript that the verifier accepts for the count, and then challenge and transcript become the final files |
| WalletSpec.InterleavingKeepsWallet | client/zeth/core/wallet.py:145-210 | for every interleaving of outputs and nullifiers no step fails, every own note is in exactly one of the unspent and spent sets, the nullifier map lists exactly the unspent notes, addresses index their own commitments, and a note is spent exactly if its nullifier came after its output |
| WalletSpec.NotesOpenCommitments | client/zeth/core/wallet.py:145-210 | in terms of decryption, commitment and nullifier alone: every file is that of a note its output decrypts to and its leaf commits to, with name and content; every such note has exactly one file; the nullifier map lists exactly the unspent ones |
| WalletSpec.OutputKeepsInv | client/zeth/core/wallet.py:145-166 | receiving an output keeps that invariant |
| WalletSpec.NullifierKeepsInv | client/zeth/core/wallet.py:198-210 | seeing a nullifier never fails, keeps that invariant and spends exactly the unspent note it belongs to |
| WalletSpec.NullifierFindsNote | client/zeth/core/wallet.py:255-311 | the nullifier of an unspent note leads through the map to its own file and no other |
| WalletSpec.RunOpsAppend | client/zeth/core/wallet.py:168-210 | processing two lists of operations in turn is processing their concatenation, errors included |
| SyncSpec.EventsSplit | client/zeth/core/contracts.py:209-223 | the events of a block range are those of its two parts, in order |
| SyncSpec.MatchingPositions | client/zeth/core/contracts.py:219-222 | the matching events are those at the ascending positions of exactly the logs with the topic |
| SyncSpec.EventsOfBlock | client/zeth/core/contracts.py:209-223 | the events of one block are those of its logs with the topic |
| SyncSpec.SyncedRootMatches | client/zeth/cli/utils.py:327-330 | a sync with events succeeds only if the wallet's root is the last one reported, and fails for another |
| SyncSpec.SyncOutcome | client/zeth/cli/utils.py:304-328 | if the last event carries the root of all leaves, a sync succeeds exactly when the events can be applied and the tree gets saved |
| SyncSpec.HonestSync | client/zeth/cli/utils.py:304-328 | with a contract that reports its roots, the closing root assertion holds and a sync fails only if an event cannot be applied |
| SyncSpec.SyncEventsCompose | client/zeth/cli/utils.py:304-328 | syncing two batches of events in turn equals syncing them at once |
| SyncSpec.TwoSyncs | client/zeth/cli/utils.py:300-332 | syncing to two heights in turn equals syncing to the higher one, whichever comes first |
| SyncSpec.SessionsEqualOneSync | client/zeth/cli/utils.py:300-332 | any sequence of sessions equals one sync to the greatest height, errors included |
| SyncSpec.SyncedWalletFromLog | client/zeth/cli/utils.py:300-332 | read off the log: a new wallet synced with a contract that reports its roots has the commitments of all outputs as leaves, files for exactly the notes carried for it, spent if and only if the nullifier is in an event with or after the output, and the nullifiers of exactly the unspent ones |
| SyncSpec.SeenIffInLog | client/zeth/cli/utils.py:311-324 | a nullifier is processed after an output was received if and only if it is in an event that comes with or after the output |
| SyncSpec.SplitAgreesIff | client/zeth/core/wallet.py:168-246 | whatever the outputs, two sessions agree with one if and only if the tree is saved in the one exactly when it is saved in both of the two |
| SyncSpec.EmptyEventMakesBatchingMatter | client/zeth/core/wallet.py:178 | an event without outputs after one with outputs succeeds in a session of its own and fails in a common one |
| SyncSpec.MissingLeavesShow | client/zeth/core/merkle_tree.py:132-134 | a tree that misses leaves has the full tree's root only with a hash collision, unless the missing and all later leaves are zero |
| SyncSpec.StaleTreeIsLasting | client/zeth/core/wallet.py:229-245 | after a sync that left the tree unsaved, reopening the files gives a wallet whose next sync that sees events fails, unless there is a hash collision (or all missing and later commitments are zero) |
| Wallet.FilterLogs | client/zeth/core/contracts.py:219-222 | keeps exactly the logs of the topic, in order |
| WalletRetry.RetryOutcome | client/zeth/core/wallet.py:145-266 | repeating a sync that stopped after some operations, and going on, gives exactly the wallet of an undisturbed sync if no note that was unspent at its start had been moved; otherwise it fails |
| WalletRetry.RetryAfterFailure | client/zeth/core/wallet.py:145-266 | the same for a stop anywhere among the operations of a sync, whatever later operations follow |
| WalletRetry.MovedIsStuck | client/zeth/core/wallet.py:255-266 | after such a stop with a moved note, the files list its nullifier but no file for it |
| WalletRetry.StuckIsLasting | client/zeth/core/wallet.py:198-210 | from such files every sync that comes to that nullifier fails, and leaves such files behind |
| Wallet.GetEventLogs | client/zeth/core/contracts.py:209-223 | for every batch size, each block's events once and in order, up to the block whose query fails |
| Wallet.Wallet.New | client/zeth/core/wallet.py:121-143 | a wallet without files is the empty wallet at block 1 |
| Wallet.Wallet.Reopen | client/zeth/core/wallet.py:121-143 | opening the files that a wallet left, saved or not, gives the wallet they hold |
| Wallet.Wallet.ReceiveNote | client/zeth/core/wallet.py:145-166 | stores the note under its address, short commitment and value, and lists its nullifier, exactly if the ciphertext decrypts to a note with that commitment |
| Wallet.Wallet.ReceiveNotes | client/zeth/core/wallet.py:168-196 | is the fold of the output operation, returns exactly the recognised notes, and overwrites the changed flag |
| Wallet.NewNotesListed | client/zeth/core/wallet.py:168-196 | the returned notes are those at the ascending positions of exactly the outputs that carry a note for the wallet |
| Wallet.Wallet.FindNoteFile | client/zeth/core/wallet.py:294-310 | the file with that short commitment if there is exactly one |
| Wallet.Wallet.MarkNullifiersUsed | client/zeth/core/wallet.py:198-210 | is the fold of the nullifier operation, the missing-file error included |
| Wallet.Wallet.UpdateAndSaveState | client/zeth/core/wallet.py:229-245 | writes the state; hashes and writes the tree exactly if it is marked as changed |
| Wallet.Wallet.ApplyMixResult | client/zeth/cli/utils.py:311-324 | outputs first, then nullifiers, of one event |
| Wallet.Wallet.ApplyMixResults | client/zeth/cli/utils.py:311-324 | all events in order, and exactly when leaves are pending and the flag is set afterwards |
| Wallet.Wallet.FinishSync | client/zeth/cli/utils.py:325-330 | saves, then fails exactly for a stale tree or a different root; the files hold what was saved either way |
| Wallet.Wallet.ApplyChain | client/zeth/cli/utils.py:308-324 | applies the events in order until a query or an event fails; then the wallet is that of the operations done so far |
| Wallet.Wallet.DoSync | client/zeth/cli/utils.py:300-332 | one sync is the specified one for every batch size; on success everything is on disk; after each error, what state file, tree file and note files hold |
| Wallet.SyncSessions | client/zeth/cli/utils.py:300-332 | sessions with any batch sizes, reopening the files in between, end in the saved wallet of one sync to the greatest height |
| ChachaRng.CounterDenotes | libzeth/core/chacha_rng.cpp:57-98 | the four words denote the block number modulo 2^128 in base 2^32 |
| ChachaRng.FirstWordCounts | libzeth/core/chacha_rng.cpp:57-98 | the first word counts up and carries into the second |
| ChachaRng.StreamIsBlocks | libzeth/core/chacha_rng.cpp:35-55 | 64 bytes of the stream from a multiple of 64 on are one block as it is |
| ChachaRng.KeyOf | libzeth/core/chacha_rng.cpp:20-30 | byte i of the key is byte i of the seed, or zero after its end |
| ChachaRng.IncrementedCounts | libzeth/core/chacha_rng.cpp:57-98 | adding one with carries between words goes to the next block number |
| ChachaRng.ChachaRng.constructor | libzeth/core/chacha_rng.cpp:20-33 | the key is the seed cut or zero-padded to the key size, nothing is consumed, the first request generates block 0 |
| ChachaRng.ChachaRng.Update | libzeth/core/chacha_rng.cpp:57-98 | the next block of the stream replaces the used one; no byte is skipped |
| ChachaRng.ChachaRng.AdvanceCounter | libzeth/core/chacha_rng.cpp:57-98 | the word-by-word carry |
| ChachaRng.ChachaRng.Random | libzeth/core/chacha_rng.cpp:35-55 | the buffer gets exactly the next bytes of the stream |
| ChachaRng.RandomRequests | libzeth/core/chacha_rng.cpp:35-55 | for every seed and request sizes, the concatenated outputs are a prefix of block(0), block(1), ... |
| Upload.ReadPartHeaders | mpc/coordinator/upload_utils.py:14-29 | consumes exactly up to the first blank line; fails exactly if a line up to there does not decode, or there is no blank line |
| Upload.ReadToFile | mpc/coordinator/upload_utils.py:32-54 | for any short reads, exactly the wanted bytes go to the file and the digest is theirs; fails exactly if the stream is shorter |
| Upload.ReadToMemory | mpc/coordinator/upload_utils.py:57-69 | for any short reads, returns exactly the wanted bytes; fails exactly if the stream is shorter |
| Upload.HandleUploadRequest | mpc/coordinator/upload_utils.py:72-113 | returns if and only if all texts decode and the body is headers, content, final boundary with the expected digest; the file then holds exactly the content, and exactly content_length bytes are consumed if and only if the part length is not negative; every failure names its cause |
| Upload.AcceptOrdinaryUpload | mpc/coordinator/upload_utils.py:72-113 | in plain bytes: header lines, a blank line, the content, CR LF, two dashes, the boundary, two dashes, CR LF, with the length of all that and the digest of the content, is accepted; the file is the content and nothing is left unread |
| Upload.PlacedOrNoSplit | mpc/coordinator/upload_utils.py:72-113 | the pieces can lie in one place only; if one is wrong there, the body has no such form at all |
| MiMC.GenerateRoundConstants | client/zeth/core/mimc.py:121-135 | zero, then the seed hashed once, twice, ...; the assertion fails exactly for fewer than one round |
| MiMC.ConstantsMeaning | client/zeth/core/mimc.py:41-57 | the first round has the constant zero, the second the update of the seed, each later one the update of the one before |
| MiMC.Encrypt | client/zeth/core/mimc.py:41-57 | the inline stream of constants is the generated list: the result folds the round function over it and adds the key |
| MiMC.RoundsInverse | client/zeth/core/mimc.py:84-93 | the rounds are undone, in both directions, by 17th roots taken in reverse order |
| MiMC.DecryptInverse | client/zeth/core/mimc.py:41-57 | decryption inverts encryption and encryption inverts decryption |
| MiMC.EncryptIsPermutation | client/zeth/core/mimc.py:41-57 | for every key, constants and prime p where 17 does not divide p - 1, encryption is one-to-one and onto on [0, p) |
| MiMC.RoundCollision | client/zeth/core/mimc.py:84-93 | if 17 divides p - 1, every round sends two different messages to one |
| MiMC.PermutesIff | client/zeth/core/mimc.py:41-57 | for every key, prime and positive number of rounds, encryption is a permutation of [0, p) if and only if 17 does not divide p - 1 |
| MiMC.DeployedPrimes | client/zeth/core/mimc.py:96-118 | both primes in use meet the condition on 17 |
| MiMC.HashIntChecked | client/zeth/core/mimc.py:67-73 | the Miyaguchi-Preneel value, or a failed range assertion exactly for an argument not below the prime |
| MiMC.HashIntOpens | client/zeth/core/mimc.py:67-73 | taking both arguments off the hash and decrypting under the second gives the first: y is the key, x the message, both are fed forward |
| MiMC.HashIntOfOneRound | client/zeth/core/mimc.py:67-93 | with one round the hash is (x + y)^e + x + 2y in the field |
| MiMC.ChainFront | client/zeth/core/input_hasher.py:32-36 | the values go in from the first to the last |
| MiMC.InputHashOfShort | client/zeth/core/input_hasher.py:27-36 | the hashes of lists of up to two values, from the reduced initial value to the length |
| MiMC.Hash | client/zeth/core/input_hasher.py:32-36 | fails exactly if a value or the length is not below the prime; otherwise the chain over the values closed by the length |
| MiMC.ChainCollision | client/zeth/core/input_hasher.py:32-36 | two different equally long lists with one chain value yield a collision of hash_int |
| MiMC.HasherCollision | client/zeth/core/input_hasher.py:27-36 | two different lists of field elements with one hash, of equal length or not, yield a collision of hash_int |
| MimcTree.OpeningIsBindingInField | client/zeth/core/mimc.py:59-65 | a second opening of an address against the root of a MiMC tree that differs in some field element yields a collision of hash_int |
| MimcTree.RootIsBindingInField | client/zeth/core/mimc.py:59-65 | two full leaf lists that differ in some field element and have one root yield a collision of hash_int |
| MimcTree.AddingPrimeCollides | client/zeth/core/mimc.py:59-65 | digests that differ by the prime are hashed alike, so bytes are bound only modulo the prime |
| MimcTree.PaddingIsZero | client/zeth/core/merkle_tree.py:76-96 | the padding leaf is 32 bytes that denote zero |
| Hex.NibbleRoundTrip | libzeth/core/utils.cpp:15-49 | exactly the hex digits are accepted; reading inverts writing a nibble, and writing inverts reading up to letter case |
| Hex.DecodeEncode | libzeth/core/utils.cpp:33-49 | decoding inverts encoding for every byte string |
| Hex.EncodeAt | libzeth/core/utils.cpp:39-49 | two lower-case digits for each byte in order, the higher one first |
| Hex.EncodeDecode | libzeth/core/utils.cpp:33-49 | encoding inverts decoding up to letter case for every hex text |
| Hex.FindHexString | libzeth/core/utils.cpp:51-66 | the digits after an optional prefix, if there are exactly twice as many as bytes |
| Hex.BytesToHex | libzeth/core/utils.cpp:105-124 | the prefix, if wanted, and the digits of all bytes in order |
| Hex.BytesToHexReversed | libzeth/core/utils.cpp:126-152 | the same for the reversed bytes; nothing for an empty input |
| Hex.HexToBytes | libzeth/core/utils.cpp:68-78 | fills the buffer with the decoded bytes, or fails exactly for a wrong length or digit |
| Hex.HexToBytesReversed | libzeth/core/utils.cpp:80-93 | fills the buffer with the decoded bytes in reverse |
| Hex.HexToBytesString | libzeth/core/utils.cpp:95-103 | decodes into half the text's length; fails for odd lengths |
| Hex.ParsedRoundTrip | libzeth/core/utils.cpp:68-124 | the buffer form restores every byte string, with or without the prefix |
| Hex.StringFormRoundTrip | libzeth/core/utils.cpp:95-124 | the one-argument form restores a byte string if and only if there is no prefix |
| Hex.ReversedRoundTrip | libzeth/core/utils.cpp:80-152 | the reversed pair restores every non-empty byte string |
| MpcHash.Write | libzeth/mpc/groth16/mpc_hash.cpp:53-61 | sixteen hex words, four to a line |
| MpcHash.TextLayout | libzeth/mpc/groth16/mpc_hash.cpp:53-61 | word by word: eight digits of its four bytes, then a line feed after every fourth word and a space after the others |
| MpcHash.WhiteSpace | libzeth/mpc/groth16/mpc_hash.cpp:69 | the six white-space characters of the C locale separate words |
| MpcHash.Read | libzeth/mpc/groth16/mpc_hash.cpp:63-84 | fails exactly if a word is missing, not hex or not four bytes; otherwise the bytes of sixteen words and the unread rest |
| MpcHash.HashTextRoundTrip | libzeth/mpc/groth16/mpc_hash.cpp:53-84 | reading back written words restores exactly their bytes, whatever follows them |
| Encodings.HexToUint256List | client/zeth/core/utils.py:172-186 | ceil(len/64) words below 2^256 whose base-2^256 value is the number; errors for odd length and for text that is not hex |
| Encodings.NumWordsIsCeiling | client/zeth/core/utils.py:172-186 | as many words of 64 digits as are needed, and no more |
| Encodings.WordBaseIsPowerOfTwo | client/zeth/core/utils.py:172-186 | 64 hex digits make the base 2^256 |
| Encodings.WordsUnique | client/zeth/core/utils.py:172-186 | number, bound and count determine the words |
| Encodings.WordsInjective | client/zeth/core/utils.py:172-186 | equally long texts with the same words are the same up to letter case |
| Encodings.LegBitsBack | client/zeth/core/mixer_client.py:718-731 | the bits of a leg can be read back from its bytes |
| Encodings.DigestBitsAt | client/zeth/core/utils.py:168-169 | bits 8i to 8i + 7 of a digest are its byte i, most significant bit first |
| Encodings.LegByteAt | client/zeth/core/mixer_client.py:718-731 | byte i of a leg is made of its bits 8i to 8i + 7 |
| Encodings.SecretLegs | client/zeth/core/mixer_client.py:718-731 | the legs of a_pk and nullifier bit by bit: 1100 or 1110, then the secret from its first bit on, all but the last four |
| Encodings.RhoLeg | client/zeth/core/mixer_client.py:797-831 | the leg of rho_i bit by bit: 0, the index, 10, then phi from its first bit on, all but the last four |
| Encodings.LegsSeparate | client/zeth/core/mixer_client.py:797-831 | for all secrets and indices the legs of a_pk, nullifier and rho_i differ, and each determines its index and the secret bits kept |
| Encodings.HexRoute | client/zeth/core/ownership.py:66-80 | the variable-width hex format of a number with leading bits 1100 decodes to its fixed-width bytes |
| Encodings.ApkLegIsFixedWidth | client/zeth/core/ownership.py:66-80 | for every secret key the leg of a_pk is 32 bytes, the same as a fixed-width conversion gives |
| FloatDivision.RoundedIsNearest | client/zeth/core/utils.py:220-224 | rounding a quotient errs by at most one half |
| FloatDivision.TieIsEven | client/zeth/core/utils.py:220-224 | half-way quotients go to the even neighbour |
| FloatDivision.IntOfSmallQuotient | client/zeth/core/utils.py:220-224 | below 2^53 the cut-off double quotient is the floor, or one more exactly if the quotient is within half a unit in the last place of the next integer |
| FloatDivision.IntOfWholeQuotient | client/zeth/core/utils.py:220-224 | a whole quotient comes out as it is if and only if it has at most 53 significant bits |
| FloatDivision.ReachesPower | client/zeth/core/utils.py:220-224 | the result reaches 2^53 * 2^j if and only if the quotient is at most half a unit in the last place below |
| JoinSplit.FloorsIff | client/zeth/core/utils.py:220-224 | below 2^53 units, the conversion to zeth units is the floor if and only if the quotient does not round up, and else one more |
| JoinSplit.SmallAmountsFloor | client/zeth/core/utils.py:220-224 | below 16384 units the conversion is the floor |
| JoinSplit.FirstRoundedUp | client/zeth/core/utils.py:220-224 | 16385 units less one wei are converted to 16385 units |
| JoinSplit.WholeUnitsFloor | client/zeth/core/utils.py:220-224 | a whole number of units comes out as it is if and only if it has at most 53 significant bits |
| JoinSplit.TooLargeIff | client/zeth/core/utils.py:158-159 | the converted value does not fit 64 bits if and only if the amount is 2^64 - 1024 units or more |
| JoinSplit.CreateProverValues | client/zeth/cli/zeth_mix.py:57-83 | exactly when each check fails, in order; otherwise each value goes to the prover in its place, converted, with zeros for the missing inputs and outputs |
| JoinSplit.BalancedIffCutOffs | client/zeth/core/mixer_client.py:463-497 | for all amounts, a mix that balances in wei balances in zeth units if and only if what the conversions cut off, negative if they round up, balances |
| JoinSplit.BalancedIffRemainders | client/zeth/core/mixer_client.py:463-497 | if no amount is rounded up, that is if and only if the remainders of the amounts balance |
| JoinSplit.WholeUnitsBalance | client/zeth/core/mixer_client.py:463-497 | whole units of at most 53 significant bits always balance |
| JoinSplit.FractionsCanLoseValue | client/zeth/core/utils.py:220-231 | a mix that balances in wei and not in zeth units, because fractions are cut off |
| JoinSplit.RoundingCanCreateValue | client/zeth/core/utils.py:220-231 | a mix that balances in wei and in remainders and not in zeth units, because one amount is rounded up |
| JoinSplit.LargeAmountsCanLoseValue | client/zeth/core/utils.py:220-231 | a mix of whole units, all within 64 bits, that balances in wei and not in zeth units |

## Left out

- The zk-SNARK circuits and other template code of libzeth, and the Solidity contracts: a different
  kind of model; phase 2 verification is an uninterpreted tool.
- Web server, RPC, web3, e-mail, TLS, logging and command-line parsing: input and output without a
  state of their own.
- JSON and protobuf conversions: they copy field by field.
- Crashes in the middle of a step, chain forks, data races inside a step and the timer's threading.
  Picking the challenge file and reading it are one step, and so are appending to the transcript
  and replacing the challenge file.
- The server reads its state file relative to the working directory and writes it into the server
  directory; the model takes the two to be the same.
- Floating point: `int(x / 2)` and `int((len - 1) / 64)` are exact integer arithmetic here, which is
  what division by a power of two computes below 2^53; deadlines are reals; doubles have no largest
  exponent. The conversion to zeth units is modelled with its rounding.
- `get_leaf`, `get_layers`, the wallet's note summaries and the spent commitments returned for
  printing: they read what is modelled and change nothing.
- Key generation, which is randomness.
- MerkleTree.MerkleTree.ComputeMerklePath: path elements are digests rather than their hex text.
- MerkleTree.MerkleTree.FromData: takes the stored record itself, not its JSON text.
- CoordinatorRuns.DeadlineZeroIffComplete: asks that no slot be given the end time zero, which the
  code takes to mean "complete".
- CoordinatorRuns.CompletesIffContributed: asks for a transcript verifier that accepts chains of
  verified responses; the real verifier is an external tool.
- Server.Server.Contribute: missing or malformed headers, which are answered before any state
  changes, are not modelled.
- Wallet.GetEventLogs: negative batch sizes, for which the loop need not terminate, are not
  modelled.
- Wallet.Wallet.FindNoteFile: file name patterns are matched on the parts of the name; only look-up
  by short commitment is modelled.
- WalletSpec.InterleavingKeepsWallet: asks that own notes have distinct nullifiers and distinct
  short commitments, without which files and map entries overwrite each other, and that the outputs
  fit into the tree.
- SyncSpec.SessionsEqualOneSync: asks for at least one output in every event; SplitAgreesIff says
  what happens without.
- JoinSplit.BalancedIffRemainders: asks that no amount be rounded up; BalancedIffCutOffs covers all
  amounts.
- JoinSplit.WholeUnitsBalance: asks for at most 53 significant bits, without which it is false
  (LargeAmountsCanLoseValue).
- WalletRetry.RetryOutcome: asks, like WalletSpec.InterleavingKeepsWallet, for distinct own notes.
- MiMC.PermutesIff: that the deployed primes are prime is a premise.
- MiMC.GenerateRoundConstants: the hash that updates a constant is a parameter.
- Upload.HandleUploadRequest: which texts decode is a parameter, and boundaries are bytes.
- Encodings.HexToUint256List: of the texts that Python's `int(s, 16)` accepts, only plain hex digits
  count as hex.
- Hex.NibbleRoundTrip: characters from 128 up are invalid here; in C++ that depends on the locale.
