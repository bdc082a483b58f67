# Verification of the Modbus registry

This project models the parts of the registry in which a mistake would be silent
and lasting, and proves what they promise:

* **The runtime attempt ledger.** Attempts reserve blocks of terminal sequences,
  are claimed, sealed, published or cancelled, and leave audit tombstones in a
  bounded, truncatable durable history. The model is a protocol whose events are
  the lock-held sections of the source; a committer call is split into the
  request computed under the lock and the reply processed under it, with the
  committer's answer in the event. So every interleaving of attempts, replies,
  retries, truncation, exhaustion of the 64-bit sequence and restart is a
  sequence of events, and the theorems are about every such sequence. Beside it
  stand the classes `RuntimeAttempt` and `SampleLedger`, whose methods update the
  source's fields in place and are proved to take exactly the protocol's steps.
* **Observation coherence.** When logical views are consistent slices of shared
  physical responses, in which order those were acquired and how far apart.
* **The Huawei read-only provider.** A cycle runs on a clone of the provider
  state; a fenced or failed cycle is discarded, but the groups it learned to be
  refused are not forgotten. The paced exchange loop, and the last-known-good
  store of monitoring readings.
* **Inventories, detection, bounded histories and encodings.** Paginated device
  inventories in two dialects, profile detection against its durable validator,
  dependency cycles, the Luna optional-state history, the digest preimages.

Wherever the source updates state in place, a method does so too and is proved
against a declarative specification; the lemmas are about that specification.

## Findings

* *A committed publication can be reported as failed.* When an overlapping
  attempt's terminal commit is recorded while the committer is deciding a
  publication, the accepted reply no longer fits and the attempt ends as
  `publish_failed`, the revision not advanced. `OverlapSchedule.AcceptedPublicationCanFail`
  is a complete run from a fresh ledger. `LedgerTheorems.RepliesOnEveryRun` says
  exactly when it happens: in every state of every run, processing an accepted
  reply records it if and only if the durable state is still the one the request
  was computed from, or its watermark has reached the request's; otherwise the
  ledger is left unchanged and the publication abandoned. Terminal commits
  likewise. What does hold on every run is that a locally published attempt was
  accepted by the committer after the capability of every claim reported success,
  and that every durable tombstone is the account of what the run's events reported
  (`EventHistory.DoneIsReported`, `EventHistory.DurableTombstonesAreTold`).
* *Activation admits limits under which a terminal commit is refused.* Activation
  bounds the retained history by its encoded bytes, while the commit charges the
  serialization preflight, which is larger: up to 782 n - 48 (n div (m + 1)) for n
  tombstones with at most m claims per attempt. No run ever has a terminal commit
  refused if and only if 434 more than that, at the two limits, is within the four
  megabytes of the aggregate bound (`BudgetSchedule.CommitsAreNeverRefusedIff`).
  At most 5363 tombstones are always safe (the default is 4096), and from 315
  claims per attempt on (the default is 4096) that is the exact bound
  (`HistoryBudget.LargestSafeLimit`). `BudgetSchedule.CommitCanBeRefused` is the
  refusing run of a fresh ledger, and `TerminalMerge.TargetIs` the exact condition
  for a single merge.
* *Whatever a crash leaves can be restarted from.* In every state of every run from
  activation, a restart accepts the recorded pair of sample state and restart state
  and the pair of every publication the committer is still deciding
  (`CrashRestart.EveryCrashRestarts`).
* *Response sizes decide in the observed inventory dialect.* The verdict on a
  documentary inventory depends on the concatenated objects alone; in the observed
  dialect the same objects can be refused in one response, for its size, and
  accepted in two (`ObservedInventory.ResponseSizeDecides`). Among well-sent lists
  of responses the division does not matter there either.
* *The watermark order alone does not compose.* A state may cover another that
  has truncated what it disagrees with a third about; with a truncation watermark
  that never goes back, which the protocol guarantees, it composes
  (`RestartHistory.CoversComposes`, `RestartHistory.CoversNeedsMonotoneTruncation`).
* The duplicate check in `finalizeTerminalAttempt` that would insert tombstones
  for an uncommitted attempt, and its refusals, are never reached from
  `persistTerminalOutcome` (`LedgerSteps.FinalizeNeverRefused`).

## Model

| member | source | states |
|---|---|---|
| RestartHistory.ScanRecords | runtime_ledger.go:548-567 | the first loop accepts exactly consecutive sequences from the truncation watermark up, each within its encoded bound, and its index finds every one of them |
| RestartHistory.ScanLeading | runtime_ledger.go:568-594 | the scan of claims of truncated attempts forces them into one run with consecutive ordinals, and refuses no history that is tiled by blocks |
| RestartHistory.ScanAttempt | runtime_ledger.go:621-643 | an attempt is accepted exactly when it is followed by all its claims, in ordinal order, with outcomes its own outcome allows |
| RestartHistory.ScanClaim | runtime_ledger.go:598-620 | an accepted claim names its retained attempt at the right distance and continues its ordinals; no tiled history is refused here |
| RestartHistory.ScanBlocks | runtime_ledger.go:595-647 | the main loop makes every record coherent and refuses no tiled history |
| RestartHistory.ScanReservations | runtime_ledger.go:648-657 | the last loop accepts exactly when no claim lies outside the reservation of the attempt it names |
| RestartHistory.TilesPointwise | runtime_ledger.go:568-657 | in a history tiled by whole blocks after one claim suffix, every check of the three loops holds of every record |
| RestartHistory.TilesFromPointwise | runtime_ledger.go:568-657 | conversely, records that pass all the loops tile: nothing but a claim suffix of one truncated attempt and whole attempt-plus-claims blocks passes |
| RestartHistory.ValidateLedgerRestartState | runtime_ledger.go:520-668 | the multi-loop validator accepts exactly the histories that consist of a consecutive claim suffix of one truncated attempt followed by whole blocks tiling the interval up to the watermark, subject to the outcome, ordinal and size rules |
| RestartHistory.DropPrefix | runtime_ledger.go:2135-2139 | valid histories are closed under forgetting any prefix and raising the truncation watermark past it, wherever it cuts a block |
| RestartHistory.AppendBlock | runtime_ledger.go:2099-2153 | a valid history extended by the whole block that starts at its watermark is valid |
| RestartHistory.CoversTerminalWatermark | runtime_ledger.go:210-239 | the comparison is decided as specified: both states valid, the watermark not lower, every tombstone of the prior state above the truncation watermark retained unchanged |
| RestartHistory.RetainedHistoryAgrees | runtime_ledger.go:221-238 | the index and the loop decide that every prior tombstone above the truncation watermark is still retained |
| RestartHistory.ValidUnderMaximum | runtime_ledger.go:249-255 | a state valid under any ledger limits is valid under the limits the comparison uses, so the comparison never fails a ledger for its own limits |
| RestartHistory.CoversComposes | runtime_ledger.go:210-239 | covering composes when the truncation watermark does not go back |
| RestartHistory.CoversNeedsMonotoneTruncation | runtime_ledger.go:210-239 | without that it does not: whenever the middle state has truncated more than the last, some first state is covered by the middle one and not by the last |
| TerminalMerge.ActivatedTombstoneFits | runtime_ledger.go:670-695 | after activation no tombstone the ledger can write exceeds the per-tombstone bound, because the two largest were measured |
| TombstoneText.EncodedBytesAreLength | runtime_ledger.go:81-146 | the encoded size of a tombstone is the length of the text of its closed projection |
| TombstoneText.ChargeIsOfTexts | limits.go:156-172 | the preflight charges six for every character of a tombstone's two texts, beside a fixed charge |
| TombstoneText.WellFormedIffProjectable | runtime_ledger.go:98-146 | a tombstone is well formed exactly when its closed projection loses nothing of it and its numbers and outcome are those of its kind |
| TerminalMerge.AttemptBlockValid | runtime_ledger.go:2070-2097 | the terminal tombstones of an attempt are a well-formed block the validator accepts |
| TerminalMerge.RetainedShape | runtime_ledger.go:2099-2141 | for a block apart from the durable history the merge keeps the history with the block behind it, or the block alone, or nothing; never a mixture with a gap |
| TerminalMerge.MergedHistoryValid | runtime_ledger.go:2099-2153 | what the merge keeps, cut to the newest records the limit allows, is a valid history at its raised truncation watermark |
| TerminalMerge.TargetIs | runtime_ledger.go:2099-2153 | computing the restart state for a live attempt finds no conflict and always tiles; it fails exactly when the resulting history exceeds the aggregate serialization budget |
| TerminalMerge.TargetCovers | runtime_ledger.go:2099-2153 | the target covers the durable state it was computed from, ends at the in-memory watermark and never lowers the truncation watermark |
| TerminalMerge.TargetApart | runtime_ledger.go:2099-2153 | the target neither records nor splits the interval of any other unrecorded attempt |
| TerminalMerge.CompleteMergeIsExtension | runtime_ledger.go:2118-2141 | a target that has truncated nothing is the durable history followed by the block |
| TerminalMerge.TargetPublications | runtime_ledger.go:445-483 | a merge adds at most the block's own publication to the retained ones, and exactly that when nothing has been truncated; it invents no tombstone |
| HistoryBudget.ValidHistoryCharge | runtime_ledger.go:520-668 | a valid history of n tombstones with at most m claims per attempt is charged at most 782 n - 48 (n div (m + 1)) by the aggregate preflight, whatever its claim suffix and blocks |
| HistoryBudget.LargestSafeLimit | runtime_ledger.go:379-391 | up to 5363 retained tombstones every history fits the budget; with room for 315 claims per attempt it is the exact bound |
| HistoryBudget.TargetNeverFailsWithinBudget | runtime_ledger.go:2099-2153 | where the limits leave no history beyond the budget the merge of a live block never fails |
| HistoryBudget.NextMerge | runtime_ledger.go:2099-2153 | under limits that do, the merge of one more attempt whose claims were all rejected succeeds exactly while the history is complete and within the budget, and gives the history with that block |
| HistoryBudget.MergeCanExceedBudget | runtime_ledger.go:2142-2151 | so some number of such attempts leaves a durable history behind which the next cannot be merged |
| HistoryBudget.MergeAlwaysFitsIff | runtime_ledger.go:2142-2151 | under any activated limits, the merge of every live block beside every durable history succeeds if and only if the largest charge at the two limits is within the budget |
| MergeLoop.SortBySequence | runtime_ledger.go:2102-2106 | the sort yields an ascending arrangement of the same tombstones |
| MergeLoop.DropDuplicates | runtime_ledger.go:2107-2117 | the scan over the sorted list fails exactly when two different tombstones share a sequence, and otherwise keeps one of each |
| MergeLoop.SearchSequence | runtime_ledger.go:2122-2124 | the binary search finds the first tombstone at or above the watermark |
| MergeLoop.WalkBack | runtime_ledger.go:2128-2132 | the backward walk finds the start of the gap-free run |
| MergeLoop.RetainedFromRun | runtime_ledger.go:2125-2141 | the run found by the walk is what the specification retains, or nothing when it does not reach down to the truncation watermark |
| MergeLoop.RetainedRecords | runtime_ledger.go:2102-2141 | sort, duplicate scan, search and walk together retain exactly the specified records, whatever order the sort leaves equal sequences in |
| MergeLoop.TerminalRestartState | runtime_ledger.go:2099-2153 | the source's steps compute exactly the target the theorems are about |
| LedgerInvariant.AttemptStaysOk | runtime_ledger.go:1561-2015 | every event of an attempt keeps its claims called at most once, its phase and stages consistent, its reservation and identity |
| LedgerSteps.RequestIsSound | runtime_ledger.go:2167-2182 | a request computed for a live attempt is valid, covers what it was computed from and contains nothing but that and the attempt's own block |
| LedgerSteps.RequestLeavesApart | runtime_ledger.go:2167-2182 | no request records or splits another uncommitted attempt |
| LedgerSteps.ApplyMonotone | runtime_ledger.go:2199-2209 | the post-commit check lets the durable state move only to a state that covers it and has recorded the attempt |
| LedgerSteps.ApplyApart | runtime_ledger.go:2199-2209 | after a reply is recorded every other uncommitted attempt is still unrecorded and unsplit |
| LedgerSteps.BeginEvent | runtime_ledger.go:1118-1182 | beginning an attempt keeps the invariant: a disjoint block at the watermark, capacity counted, nothing durable changed |
| LedgerSteps.FinalizeNeverRefused | runtime_ledger.go:2228-2238 | once the terminal state is recorded the refusals of finalization cannot occur and the tombstone insertion is skipped |
| LedgerSteps.FinalizeEvent | runtime_ledger.go:2216-2304 | finalization keeps the invariant: exactly that attempt leaves the live set, with its outcomes recorded once |
| LedgerSteps.RestartEvent | runtime_ledger.go:356-443 | exporting and restarting keeps the invariant, under any limits the restart accepts |
| LedgerSteps.StepPreserves | runtime_ledger.go:1093-2304 | every event keeps the invariant - disjoint blocks, unrecorded attempts apart from the durable history and from every pending request, exact capacity counts within the limits, at most one publication at a time, a true audit trail - and the durable state only moves to one that covers it |
| LedgerTheorems.InitialInvariant | runtime_ledger.go:379-443 | every ledger that activation returns satisfies the invariant |
| LedgerTheorems.RunPreserves | runtime_ledger.go:1093-2304 | so does every state of every run |
| LedgerTheorems.LaterCoversEarlier | runtime_ledger.go:210-239 | on every interleaving each later durable restart state covers every earlier one, and neither the sequence watermark nor the truncation watermark ever goes back |
| LedgerTheorems.RestartStateNeverConflicts | runtime_ledger.go:2099-2153 | in every reachable state, for every live attempt whose claims are terminal, computing the restart state finds no conflicting outcomes and tiles; only the aggregate budget can refuse it |
| LedgerTheorems.QuiescentLedgerExports | runtime_ledger.go:732-746 | whatever the finishing order, once no attempt is retained the durable watermark and exhausted flag are the in-memory ones and the export succeeds |
| LedgerTheorems.LimitsStayAccepted | runtime_ledger.go:379-396 | the limits of a running ledger are always ones that activation accepted |
| LedgerTheorems.QuiescentLedgerRestarts | runtime_ledger.go:356-443 | the exported pair of a quiescent ledger is accepted by a restart, which restores the same ledger and re-exports the same state |
| LedgerTheorems.BlocksTile | runtime_ledger.go:796-819 | the blocks reserved since activation are disjoint, tile everything consumed, and each belongs to an attempt that is live or finished but not both |
| LedgerTheorems.PublishedMeansCommitted | runtime_ledger.go:1909-1939 | what a finished attempt has stored: a locally published one carries the committer's acceptance and a successful outcome for every claim |
| LedgerTheorems.CapabilityCalledAtMostOnce | runtime_ledger.go:1561-1602 | the capability of each ordinal is called at most once, and the committer at most once per publication |
| LedgerTheorems.OutcomeIsFinal | runtime_ledger.go:1953-2015 | a terminal outcome never changes and is never reached twice |
| LedgerTheorems.OutcomeStaysFinal | runtime_ledger.go:1953-2015 | over any run |
| LedgerTheorems.AuditTellsTheTruth | runtime_ledger.go:2070-2097 | every durable tombstone written since activation reports what its own attempt did, and no attempt whose commit has not succeeded appears in the history |
| LedgerTheorems.StillCurrentIff | runtime_ledger.go:1917-1920 | the post-commit check holds if and only if the durable state is the expected one or its watermark has reached the target's |
| LedgerTheorems.PublicationReplyIsRecordedIff | runtime_ledger.go:1909-1935 | an accepted publication reply is applied - phase, revision, a durable state that covers the target - if and only if its request is still recordable; otherwise it is abandoned, the token released and the ledger unchanged |
| LedgerTheorems.CommitReplyIsRecordedIff | runtime_ledger.go:2199-2213 | an accepted terminal commit is applied under the same condition, and retained as failed otherwise |
| LedgerTheorems.RepliesOnEveryRun | runtime_ledger.go:1909-1935 | both, in every state of every run that starts with no attempt retained |
| EventHistory.EveryOutcomeIsTold | runtime_ledger.go:1561-2015 | in every state of every run, every resolved claim, live or finished, holds the outcome its own capability call ended with, or cancelled if its capability was never called; no capability is called before admission; only one terminal outcome is ever asked for, and a cancelled one only after the drain |
| EventHistory.DoneIsReported | runtime_ledger.go:1636-1660 | an attempt finishes as published only if the run sealed it, the committer accepted its publication and the capability of every ordinal reported success; any other way only after the committer accepted the commit of that outcome |
| EventHistory.DurableTombstonesAreTold | runtime_ledger.go:2070-2097 | every durable tombstone written since activation is the account of one attempt of the run: an attempt record carries its claim count and a reported outcome, a claim record its ordinal's outcome as reported, each under the sequence reserved for it when the attempt began |
| EventHistory.OnlyAcceptedRepliesMoveTheLedger | runtime_ledger.go:1909-1935 | no event but an accepted reply moves the durable state, and only an accepted publication the sample state: by one revision, to the identity its attempt began with, which is later than the last |
| EventHistory.BeginsIff | runtime_ledger.go:1118-1182 | an attempt can begin exactly when its identity is later than every publication, its key and the capacity for it are free and its sequences are left |
| CrashRestart.RestartsIff | runtime_ledger.go:379-483 | a restart accepts a pair, whatever revision it trusts up to the pair's own, if and only if limits, sample and restart state are valid, the retained publications agree with the revision and two sequences per publication are consumed |
| CrashRestart.RequestedPairRestarts | runtime_ledger.go:1868-1906 | the pair a publication request hands to the committer is one of the next revision, is accepted by a restart and restores the in-memory watermark |
| CrashRestart.StepSafe | runtime_ledger.go:1868-1937 | every event keeps the recorded pair and every pending publication's pair acceptable |
| CrashRestart.EveryCrashRestarts | runtime_ledger.go:356-483 | in every state of every run from activation, a restart accepts the recorded pair and the pair of every publication the committer is still deciding |
| OverlapSchedule.CancelFirst | runtime_ledger.go:1688-1816 | a legal run that begins an attempt, cancels it and leaves its commit pending |
| OverlapSchedule.PublishSecond | runtime_ledger.go:1820-1908 | continued by a second attempt that is claimed, sealed and asks the committer to publish |
| OverlapSchedule.AcceptedPublicationCanFail | runtime_ledger.go:1916-1924 | a legal run from a fresh ledger in which the committer accepts a publication and the attempt finishes as publish_failed with the revision unchanged |
| BudgetSchedule.CommitIsRequested | runtime_ledger.go:2175-2182 | in every state that satisfies the invariant, under limits that leave no history beyond the budget, a terminal commit always becomes a request to the committer |
| BudgetSchedule.RejectClaims | runtime_ledger.go:1561-1602 | one claim after the other is started and rejected, in a legal run |
| BudgetSchedule.CommitCanBeRefused | runtime_ledger.go:2176-2182 | under any other accepted limits, a legal run of a fresh ledger - attempt after attempt loses every claim, is cancelled, recorded and finalized - after which a terminal commit is asked for and refused |
| BudgetSchedule.CommitsAreNeverRefusedIff | runtime_ledger.go:388-396 | under any accepted limits, no run of a ledger activated with them ever has a terminal commit refused if and only if the largest charge at the two limits is within the budget |
| SampleLedgers.RuntimeAttempt.constructor | runtime_ledger.go:1151-1181 | a new attempt is the protocol's new attempt over its reserved block |
| SampleLedgers.RuntimeAttempt.CancelUnresolvedClaims | runtime_ledger.go:1312-1319 | only unresolved entries change, in place, to attempt-cancelled |
| SampleLedgers.RuntimeAttempt.EveryClaimSucceeded | runtime_ledger.go:1640-1644 | the scan of Seal decides that every claim succeeded |
| SampleLedgers.RuntimeAttempt.TerminalTombstones | runtime_ledger.go:2070-2097 | for a resolved attempt the tombstones are its whole block, none skipped |
| SampleLedgers.RuntimeAttempt.Clear | runtime_ledger.go:2276-2299 | the phase becomes the terminal outcome and the entries are given up |
| SampleLedgers.SampleRestartRelationship | runtime_ledger.go:445-483 | the counted publications, the revision and the watermark are compared exactly, without overflow |
| SampleLedgers.ActivateLimits | runtime_ledger.go:385-396 | the limit checks, with their division, accept exactly the limits under which every tombstone and the whole history fit |
| SampleLedgers.NewSampleLedger | runtime_ledger.go:379-443 | activation succeeds exactly on acceptable inputs and starts a protocol run |
| SampleLedgers.SampleLedger.Activate | runtime_ledger.go:423-442 | the new ledger's memory is that of the restart state |
| SampleLedgers.SampleLedger.TerminalBatchAvailable | runtime_ledger.go:821-827 | a batch is available exactly when the sequences for the attempt and all claims are left |
| SampleLedgers.SampleLedger.ReserveTerminalBatch | runtime_ledger.go:796-819 | the reserved block is consecutive, the very last sequence exhausts the ledger instead of wrapping, and a refusal changes nothing |
| SampleLedgers.SampleLedger.BeginAdmitted | runtime_ledger.go:1118-1137 | the admission checks, in order, decide the protocol's guard |
| SampleLedgers.SampleLedger.BeginRuntimeAttempt | runtime_ledger.go:1118-1182 | takes the protocol's begin step when admitted, changes nothing otherwise |
| SampleLedgers.SampleLedger.Admit | runtime_ledger.go:1221-1310 | admission and its two failures are the protocol's events, refused in every other phase |
| SampleLedgers.SampleLedger.StartClaim | runtime_ledger.go:1565-1586 | claiming starts exactly for an unresolved ordinal of an open admitted attempt |
| SampleLedgers.SampleLedger.EndClaim | runtime_ledger.go:1591-1601 | the outcome is stored for that ordinal only |
| SampleLedgers.SampleLedger.Seal | runtime_ledger.go:1629-1647 | sealing succeeds exactly for an open, admitted attempt whose claims all succeeded |
| SampleLedgers.SampleLedger.StartCancel | runtime_ledger.go:1759-1766 | cancelling starts exactly from open or sealed |
| SampleLedgers.SampleLedger.FinishCancellation | runtime_ledger.go:1677-1685 | after the drain every unresolved claim is resolved as cancelled |
| SampleLedgers.SampleLedger.StartPublish | runtime_ledger.go:1826-1839 | publishing starts exactly from sealed |
| SampleLedgers.SampleLedger.TakeCommitSerial | runtime_ledger.go:1846-1852 | the publication token is taken only while nobody holds it |
| SampleLedgers.SampleLedger.AbandonPublication | runtime_ledger.go:1842-1867 | giving up before the committer is asked releases the token and leaves the ledger unchanged |
| SampleLedgers.SampleLedger.PreparePublication | runtime_ledger.go:1868-1888 | a request is computed exactly when the revision can advance, the identity advances and the merge succeeds |
| SampleLedgers.SampleLedger.RequestPublication | runtime_ledger.go:1868-1895 | the request section is the protocol's event |
| SampleLedgers.SampleLedger.RecordTarget | runtime_ledger.go:1917-1930 | a target is recorded exactly when the durable state is the expected one or covers it already, and then only if it is not covered yet |
| SampleLedgers.SampleLedger.ApplyDurableRestartState | runtime_ledger.go:2155-2165 | all four durable fields become those of the restart state |
| SampleLedgers.SampleLedger.AnswerPublication | runtime_ledger.go:1909-1931 | the ledger and the attempt move exactly as the protocol says for the committer's answer |
| SampleLedgers.SampleLedger.PublicationReply | runtime_ledger.go:1909-1931 | the reply section is the protocol's event and keeps every invariant |
| SampleLedgers.SampleLedger.StartTerminalCommit | runtime_ledger.go:1953-1995 | a persistence call starts exactly when none is in progress and a retained error does not fix another outcome; a durable publication skips the commit |
| SampleLedgers.SampleLedger.PrepareTerminalCommit | runtime_ledger.go:2176-2182 | the request is computed from the attempt's own tombstones |
| SampleLedgers.SampleLedger.RequestTerminalCommit | runtime_ledger.go:2167-2182 | the request section is the protocol's event; a merge error is retained |
| SampleLedgers.SampleLedger.TerminalCommitReply | runtime_ledger.go:2188-2209 | the reply section is the protocol's event |
| SampleLedgers.SampleLedger.RecordRestartCommitted | runtime_ledger.go:1932-1935 | marking the attempt committed releases the token if it is held |
| SampleLedgers.SampleLedger.MarkRestartCommitted | runtime_ledger.go:2210-2213 | in a section of its own, as the protocol's event |
| SampleLedgers.SampleLedger.FinalizeTerminalAttempt | runtime_ledger.go:2216-2304 | never refused; key and capacity are reusable in the same section |
| SampleLedgers.SampleLedger.ExportRestartState | runtime_ledger.go:732-746 | succeeds exactly when nothing is retained and the durable watermark is the in-memory one |
| LogicalViews.CoherentAsCollection | observation.go:716-852 | coherence speaks of the collection only: no view twice and any two views compatible |
| LogicalViews.CoherentUnderPermutation | observation.go:716-852 | the verdict is invariant under permuting the dependencies |
| LogicalViews.CoherentIsExplained | observation.go:716-852 | views are coherent exactly when there are physical responses, one per identity, of which every view is a slice, with exact bytes, unshared serial responses and a common address per TCP response |
| LogicalViews.PhysicalGroup.CopyWords | observation.go:836-843 | the in-place copy refuses exactly a contradicting word and never writes outside the buffer |
| LogicalViews.PhysicalGroup.Add | observation.go:823-843 | a view is refused exactly when its identity repeats or a word contradicts some earlier view of the group |
| LogicalViews.BufferDecides | observation.go:836-843 | agreement with one buffer is agreement with every earlier view |
| LogicalViews.BoundsDecide | observation.go:845-850 | one latest start and one earliest end decide that all pairs of views intersect |
| LogicalViews.FindGroup | observation.go:801-814 | each identity has one group, with arrays of its own |
| LogicalViews.AddToGroup | observation.go:815-843 | the checks against a group decide the checks against all its members |
| LogicalViews.PlaceView | observation.go:801-843 | placing a view leaves every other group as it was |
| LogicalViews.LookupsDecide | observation.go:778-800 | the three map lookups decide request key, wire response and serial sharing against all placed views |
| LogicalViews.GroupsIntersect | observation.go:845-850 | the last loop decides the intersections of all TCP groups, in any order |
| LogicalViews.ValidateWireResponseGroups | observation.go:716-852 | one pass over the views accepts exactly the coherent collections |
| Acquisition.ExceedsTimeSkew | observation.go:700-714 | the seconds and nanoseconds comparison decides the exact nanosecond difference without overflow |
| Acquisition.RetainFact | observation.go:582-601 | one dependency either agrees with the facts its physical response has or gives it facts |
| Acquisition.CollectFacts | observation.go:557-602 | the first loop accepts exactly when every dependency is admitted and all dependencies of one response agree |
| Acquisition.ScanFacts | observation.go:603-628 | the second loop decides that ordinals are distinct and computes the exact extremes |
| Acquisition.SortByOrdinal | observation.go:629-631 | the sort arranges the same facts by ordinal |
| Acquisition.ConsecutiveDecides | observation.go:632-636 | sorted facts are gap-free exactly when ordinals number the physical responses one to one from 1 to their count |
| Acquisition.CheckConsecutive | observation.go:632-636 | the gap scan decides it |
| Acquisition.CheckDeclarationOrder | observation.go:638-645 | comparing neighbours decides the declared order for all pairs |
| Acquisition.CheckAscending | observation.go:646-660 | comparing neighbouring times decides the order for all pairs |
| Acquisition.CheckOrder | observation.go:637-663 | the declared acquisition order holds for all pairs of dependencies |
| Acquisition.CheckSkew | observation.go:664-676 | the skew bounds hold for every pair of receipt and source times |
| Acquisition.CheckEnvelope | observation.go:677-693 | the envelope times are the exact maxima, or unavailable exactly when a source time is |
| Acquisition.ValidateBounded | observation.go:539-693 | the bounded branch accepts exactly the specified samples |
| Acquisition.ValidateSingle | observation.go:511-538 | the single-response branch accepts exactly one shared response without time or retry facts |
| Acquisition.ValidateObservationCoherence | observation.go:499-698 | the whole check decides the specified coherence |
| Acquisition.OrdinalsCountResponses | observation.go:539-636 | the ordinals of an accepted sample are as many as its physical responses |
| Acquisition.DependenciesAgree | observation.go:557-581 | any two dependencies of a coherent sample come from one source and one round of retries, are timed, and carry the marker the policy asks for |
| ProviderRefusals.ChildForgetsNothing | huawei_readonly_provider.go:750-761 | creating a child knows exactly what was carried for its unit |
| ProviderRefusals.ChildDecides | huawei_readonly_provider.go:1449-1451 | the child's own set decides what is known about its unit |
| ProviderRefusals.CarryJoins | huawei_readonly_provider.go:1056-1072 | carrying adds exactly what the discarded children know, and no child |
| ProviderRefusals.EndKeepsWhatTheCycleKnew | huawei_readonly_provider.go:1018-1053 | committed or discarded, the end of a cycle leaves exactly the refusals the cycle knew |
| ProviderRefusals.StepPreserves | huawei_readonly_provider.go:824-1072 | every event keeps: what is refused is known, and only that |
| ProviderRefusals.RefusedStaysSilent | huawei_readonly_provider.go:1442-1476 | on every run, once a request for a group at a unit was answered with exception 3 - in time, or decoded before the read was stopped - no later request asks for that group there, whatever happened to the cycle that learned it |
| ProviderRefusals.SkippedIffRefused | huawei_readonly_provider.go:1448-1451 | and in every reachable state a group is in its child's set exactly when a request for it at that unit was answered so |
| ProviderRefusals.MonitorSkipsExactlyTheRefused | huawei_readonly_provider.go:1442-1482 | in every reachable state, monitoring a child leaves out exactly the planned groups that an earlier request at its unit was answered with exception 3 for |
| ProviderRefusals.MonitorEndsAtFailure | huawei_readonly_provider.go:1463-1482 | the requests of one monitoring are of planned groups and answered in order, and a failed or stopped read is the last |
| ProviderRefusals.CommittedIffUndisturbed | huawei_readonly_provider.go:1018-1053 | a cycle's state is committed, and the children it found are kept, exactly when no start, stop, reconnect, rebind or close happened while it ran and neither a read nor the runner stopped it |
| ProviderRefusals.MonitorPreserves | huawei_readonly_provider.go:1442-1482 | the loop over a child's plan is a run of such events |
| ProviderRefusals.MonitorCoversPlan | huawei_readonly_provider.go:1442-1482 | without a failed or stopped read every planned group that was not refused is asked for |
| ProviderCore.ProviderState.Clone | huawei_readonly_provider.go:732-748 | the clone has the same contents and shares no child with the original |
| ProviderCore.ProviderState.Child | huawei_readonly_provider.go:750-761 | finds or creates the child, which takes over its carried refusals |
| ProviderCore.ProviderState.Learn | huawei_readonly_provider.go:1460-1462 | only the child's refusal set changes |
| ProviderCore.ProviderState.CarryFor | huawei_readonly_provider.go:1063-1069 | refusals of a unit without a child are added to the carried ones of that unit only |
| ProviderCore.ProviderState.CarryChild | huawei_readonly_provider.go:1058-1070 | one discarded child is carried into its kept child or into the carried ones, not both |
| ProviderCore.ProviderState.Carry | huawei_readonly_provider.go:1056-1072 | the nested loops, in any map order, carry exactly the specified memory |
| ProviderCore.CycleRun.Record | huawei_readonly_provider.go:1454-1476 | what a read leaves: the group on the child if the reply was exception 3, also when decoded before a stop, and the stop |
| ProviderCore.HuaweiProvider.Start | huawei_readonly_provider.go:824-851 | start binds exactly when not closed, closing or started |
| ProviderCore.HuaweiProvider.Stop | huawei_readonly_provider.go:853-889 | stop fences the running cycle and begins closing |
| ProviderCore.HuaweiProvider.Reconnect | huawei_readonly_provider.go:902-920 | the first section of reconnect fences and begins closing |
| ProviderCore.HuaweiProvider.Rebind | huawei_readonly_provider.go:922-933 | the second section binds unless closed or started meanwhile |
| ProviderCore.HuaweiProvider.Close | huawei_readonly_provider.go:935-953 | close fences for good |
| ProviderCore.HuaweiProvider.BeginRefresh | huawei_readonly_provider.go:982-1014 | a cycle begins exactly when none is running, on a clone that shares nothing |
| ProviderCore.HuaweiProvider.ReadGroup | huawei_readonly_provider.go:1449-1476 | one read and what it records touch the cycle's clone only |
| ProviderCore.HuaweiProvider.MonitorChild | huawei_readonly_provider.go:1442-1482 | the loop asks exactly for the groups the model asks for |
| ProviderCore.HuaweiProvider.EndRefresh | huawei_readonly_provider.go:1018-1053 | commits the clone, or discards it and carries its refusals, exactly as the model |
| ProviderPacing.PacedRun.AwaitSpacing | huawei_readonly_provider.go:1137-1158 | an attempt is admitted only after the gap or back-off has passed by the clock; the other verdicts say why not |
| ProviderPacing.PacedRun.AttemptDeadline | huawei_readonly_provider.go:1167-1176 | the deadline is the longest that keeps the contract and ends within the budget |
| ProviderPacing.PacedRun.AdmitAttempt | huawei_readonly_provider.go:1133-1176 | what is sent is spaced and within budget; it halts only if the fence, the context or a wait says so |
| ProviderPacing.PacedRun.SendOnce | huawei_readonly_provider.go:1177-1191 | the outcome is the session's reply, and a timeout exactly for an answer or exception that expired or came after the deadline; the attempt is filed with its elapsed class, and the link remembers its end |
| ProviderPacing.PacedRun.Exchange | huawei_readonly_provider.go:1122-1230 | one read makes at most MaxAttempts attempts plus one tolerated first timeout; it is answered exactly when the session's last reply was an answer in time, an exception exactly when that was one in time other than 5, 6 and 11, also handed on when the read is stopped then; it stops whenever it is fenced or cancelled |
| ProviderPacing.RunGeneration | huawei_readonly_provider.go:1007-1030 | over any reads and cycles of one connection generation, under any budgets, each read is one exchange and all requests keep their spacing |
| ProviderPacing.RequestsAreApart | huawei_readonly_provider.go:1133-1158 | any two requests of a generation, however many lie between, start at least that many gaps after the earlier ended |
| ProviderPacing.NextInterval | huawei_readonly_provider.go:1031-1037 | the next interval keeps the elapsed time within three quarters of it and is the least that does |
| ProviderPacing.ChildBackoffCycles | huawei_readonly_provider.go:1411-1423 | no wait after the first failure, then 1, 2, 4, 8 and from the sixth on 10 cycles |
| ProviderPacing.EndpointBackoffCycles | huawei_readonly_provider.go:1426-1435 | 1, 2, 4, 8 and from the fifth failure on 10 cycles |
| ProviderPacing.ChildSkipUntil | huawei_readonly_provider.go:1403-1409 | the strict skip check leaves out exactly the back-off |
| Monitoring.RawRoundTrip | huawei_sun2000_monitoring.go:502-531 | every value of every word type reads back from the words that carry it |
| Monitoring.WordsCarryOneValue | huawei_sun2000_monitoring.go:502-531 | any words of the right number carry exactly one value of their type |
| Monitoring.AnsweredCarries | huawei_sun2000_monitoring.go:478-500 | the words of an answered group carry a value for each of its fields |
| Monitoring.DecodeFacts | huawei_sun2000_monitoring.go:478-500 | whatever the scan order, a field of a group without an answer is unknown, and of an answered group it is the value the words at the field's own place carry, if its kind publishes that, with the group's cycle and retained mark and at most a hypothesis away from the observed units |
| Monitoring.Decode | huawei_sun2000_monitoring.go:432-455 | readings are accepted exactly when each is of a planned group, not repeated and consistent; a group without a reading is reported as not read; the facts are those of the words |
| Monitoring.Retain | huawei_sun2000_monitoring.go:537-561 | the in-place loop keeps exactly the specified groups and facts |
| Monitoring.StoreIsHistory | huawei_sun2000_monitoring.go:537-561 | folding retention over any history of cycles, of whatever children, gives, group by group, the most recent answered reading since the child last changed, with its own cycle and marked retained when older, else the latest outcome; nothing read of another profile or unit survives, and the facts are those of the words of these groups |
| ProfileRules.EndingIsAcyclic | profile.go:958-985 | a walk that ends is not on a cycle |
| ProfileRules.ChainCloses | profile.go:958-985 | a search path that meets one of its own nodes has found a cycle |
| ProfileRules.CycleSearch.Visit | profile.go:965-978 | a visit that reports no cycle has shown that every walk from the node ends; it terminates by the shrinking set of unvisited nodes |
| ProfileRules.HasDependencyCycle | profile.go:958-985 | true exactly when the one-successor graph has a cycle, in whatever order the edges are enumerated |
| ProfileRules.ValidateSingleWireDependencies | profile.go:921-956 | four running bounds accept exactly the dependencies one read can serve and that all share an address |
| ProfileRules.BoundsDecide | profile.go:921-956 | the running bounds decide the relations between all pairs |
| InventoryEntries.SplitOfJoin | huawei_smartlogger_inventory.go:101-130 | splitting undoes joining of parts without the separator |
| InventoryEntries.OpaqueAttributes | huawei_smartlogger_inventory.go:101-111 | the reading loop yields the retained pairs |
| InventoryEntries.RetainedReadsBack | huawei_smartlogger_inventory.go:101-130 | retaining well-formed pairs one by one and reading them back is the identity, in order |
| InventoryEntries.ParsePairs | huawei_smartlogger_observed.go:380-411 | an entry text is accepted exactly when every part is a well-formed pair with a known or canonical key and no key repeats |
| InventoryEntries.PairsAreUnique | huawei_smartlogger_observed.go:380-411 | the accepted pairs are determined by the text |
| InventoryEntries.ParseEntry | huawei_smartlogger_inventory.go:299-338 | both entry grammars accept exactly the specified values |
| InventoryEntries.OpaqueAttributesReadBack | huawei_smartlogger_inventory.go:101-130 | for every accepted entry the opaque attributes read back exactly, in entry order |
| InventoryEntries.ParsedChildRetains | huawei_smartlogger_observed.go:366-416 | the child retains every opaque attribute and nothing of the sensitive key 4 |
| EntryMeaning.ParsedEntryMeans | huawei_smartlogger_observed.go:366-416 | an accepted entry is pairs of distinct keys, each the decimal text of 1 to 255; every field of the child is the attribute of its own key, or empty; the address of an observed child is the decimal text of 0 to 247 |
| EntryMeaning.CanonicalKeyIsNumeral | huawei_smartlogger_sdongle_emma_selection.go:441-455 | the canonical keys are exactly the decimal texts of 1 to 255 |
| EntryMeaning.CanonicalUnitIsNumeral | huawei_smartlogger_observed.go:418-432 | the canonical units are exactly the decimal texts of 0 to 247 |
| EntryMeaning.TrimIsPadding | huawei_smartlogger_observed.go:374-379 | what is trimmed is exactly the NUL and space padding at the end |
| GatewayInventory.IdentitiesAreDistinct | huawei_smartlogger_inventory.go:160-250 | accepted object identities are pairwise distinct although they wrap at eight bits, in both dialects |
| GatewayInventory.ChildrenAreDetermined | huawei_smartlogger_inventory.go:160-250 | an accepted object sequence determines its children |
| GatewayInventory.ObjectScan.AddRecord | huawei_smartlogger_inventory.go:193-219 | a record fits exactly when it is the gateway's own first entry or a child at an unused address after it |
| GatewayInventory.ObjectScan.AddObject | huawei_smartlogger_inventory.go:174-228 | one object is accepted exactly when the sequence with it is still a prefix of an inventory |
| GatewayInventory.TakePage | huawei_smartlogger_inventory.go:170-240 | a page is accepted exactly when its continuation fields fit its last object and its objects are acceptable |
| GatewayInventory.ParseInventory | huawei_smartlogger_inventory.go:160-250 | an inventory is returned exactly when the change counter held still, the pages are well linked and the concatenated objects are one; its children are those of the objects |
| GatewayInventory.PaginationExists | huawei_smartlogger_inventory.go:160-250 | every cut of a sequence into at most the page cap of nonempty parts can be sent as well-linked pages |
| GatewayInventory.PaginationDoesNotMatter | huawei_smartlogger_inventory.go:160-250 | any two well-linked paginations of the same objects, under the same counters, are both refused or parse to the same inventory |
| GatewayInventory.EveryCutParses | huawei_smartlogger_inventory.go:160-250 | an inventory cut into pages in any way up to the page cap is accepted and read back |
| ObservedInventory.ObservedScan.AddEntry | huawei_smartlogger_observed.go:310-334 | the gateway's own entry comes first at the gateway's address; every other is at a fresh address that is neither 0 nor the gateway's |
| ObservedInventory.ObservedScan.AddObject | huawei_smartlogger_observed.go:295-336 | without a set of seen identities, one object is accepted exactly when the sequence with it is still a prefix of an inventory |
| ObservedInventory.TakeResponse | huawei_smartlogger_observed.go:290-357 | a response is accepted exactly when its stated length is the one its objects imply and within the cap, and its continuation fits |
| ObservedInventory.ParseObserved | huawei_smartlogger_observed.go:271-364 | accepted exactly when the responses are well sent and the concatenated objects are an inventory whose count includes the gateway; the anomaly counters are exact |
| ObservedInventory.PaginationDoesNotMatter | huawei_smartlogger_observed.go:271-364 | any two well-sent lists of responses with the same objects are both refused or parse to the same inventory and gateway entry |
| ObservedInventory.OversizeIsRefused | huawei_smartlogger_observed.go:337-339 | objects that exceed the cap are refused in one response, whatever length it states |
| ObservedInventory.ResponseSizeDecides | huawei_smartlogger_observed.go:337-339 | well-linked responses of the same inventory, each with an honest length, of which one list is refused and the other accepted |
| InventoryMeaning.ParsedInventoryMeans | huawei_smartlogger_inventory.go:160-250 | told from the fields: a documentary inventory is parsed exactly from linked pages, read while the counter held still, whose objects are a count, the gateway's own entry and that many children with addresses of their own, within 249 objects and 65536 bytes |
| InventoryMeaning.ParsedObservedMeans | huawei_smartlogger_observed.go:271-364 | an observed one likewise, from responses that state their length truthfully and within 1024 bytes; the count includes the gateway, which is told by its address |
| RuntimeEncoding.EncodingIsInjective | runtime_ledger.go:993-1035 | different ordered lists of dependency identities and versions never share an encoding |
| RuntimeEncoding.Measure | runtime_ledger.go:1004-1020 | the size pass refuses exactly what does not fit and computes the exact size without overflow |
| RuntimeEncoding.Encode | runtime_ledger.go:993-1035 | the bytes written are the canonical encoding, of exactly the precomputed size, never above the maximum |
| RuntimeEncoding.PreimageIsInjective | runtime_ledger.go:2017-2031 | different claim outcomes never share a digest preimage |
| RuntimeEncoding.WritePreimage | runtime_ledger.go:2017-2031 | the writes to the hash, in order, are that preimage |
| EncodingMeaning.NumberBytes | runtime_ledger.go:1024-1032 | numbers are eight bytes, the most significant first |
| EncodingMeaning.EncodedSetReadsBack | runtime_ledger.go:993-1035 | a reader of domain, count, and length-prefixed identity and version recovers every encoded dependency set |
| EncodingMeaning.PreimageReadsBack | runtime_ledger.go:2017-2031 | a reader of domain, count, and ordinal, sequence and outcome of every claim recovers the claims |
| LunaHistory.ReverseInPlace | luna_optional_state.go:208-210 | the swap loop reverses |
| LunaHistory.Retain | luna_optional_state.go:188-212 | collecting newest first, skipping what does not fit and reversing keeps exactly the specified entries in their order |
| LunaHistory.KeptIsBounded | luna_optional_state.go:188-212 | what is kept is within the record, byte and age bounds |
| LunaHistory.RetentionSelects | luna_optional_state.go:188-212 | and is an order-preserving selection in which no entry became applicable |
| LunaMeaning.RetainedIffKept | luna_optional_state.go:188-212 | what is kept is, entry by entry, exactly what is neither too old nor from the future and has room in records and bytes behind the kept newer entries, marked for the current binding and time |
| LunaHistory.Reduce | luna_optional_state.go:81-176 | the step-by-step update of the copy computes the specified state |
| LunaHistory.ReduceSelects | luna_optional_state.go:81-176 | one input leaves a bounded, order-preserving selection of the earlier history and the new evidence, applicable entries bound to the current binding, and time that never goes back |
| LunaHistory.HistoryOverRuns | luna_optional_state.go:81-176 | the same over any sequence of inputs: applicability once lost is never raised again |
| LunaHistory.HistoryIsAdmittedEvidence | luna_optional_state.go:81-176 | from the initial state the history holds nothing but admitted evidence, in order |
| LunaMeaning.StatusMeans | luna_optional_state.go:81-176 | one input leaves the child present exactly when it documents it, changed exactly when it identifies another, and unreadable only after presence when it fails or cannot be admitted; an input of a past epoch changes neither status nor binding |
| LunaMeaning.PresentIffDocumented | luna_optional_state.go:81-176 | after any sequence of inputs the child stands documented as present if and only if the last input that was not of a past epoch documented it |
| LunaMeaning.HistoryMeans | luna_optional_state.go:81-176 | the history after one input: what retention keeps, withdrawn when the identity is lost or changed, with all the input's evidence behind it when that is admitted |
| ProfileDetection.LessIsTotal | decision_serialization.go:76-85 | the byte-wise order of the evidence is total and antisymmetric |
| ProfileDetection.OrderedIsDistinct | decision_serialization.go:76-85 | comparing neighbours leaves no profile twice anywhere in the list |
| ProfileDetection.ValidateEvidence | decision_serialization.go:87-141 | the loop decides rank order, distinct evidence identities and the gate count each reason allows |
| ProfileDetection.ValidateDecision | decision_serialization.go:143-254 | counters and scans decide exactly the declared meaning of a decision |
| ProfileDetection.CheckOutcome | decision_serialization.go:192-252 | the switch decides the outcome from the counters alone |
| DecisionMeaning.ValidDecisionMeans | decision_serialization.go:143-254 | the validator accepts exactly decisions whose evidence ascends by profile and that claim what the items say: a match selects the profile of the one selected item and outscores the lower ones, an ambiguity names two equals, finding nothing ranks nobody and gives a reason some item has |
| DecisionMeaning.ValidEvidenceMeans | decision_serialization.go:87-141 | a valid item has passed, each under evidence of its own, all three gates when ranked, two at a firmware mismatch, at most one at an identity mismatch and none otherwise |
| Detector.SortCandidates | profile_detection.go:196-203 | the candidates are sorted by profile, none lost |
| Detector.OrderIsCanonical | profile_detection.go:196-203 | two declaration orders of the same candidates give the same detector |
| Detector.CheckReply | profile_detection.go:502-545 | a reply stops with the first reason in the order context, reader, result, exception, length, budget or repeated evidence, text; or yields the decoded text |
| Detector.ReadIdentities | profile_detection.go:498-556 | the loop's counters and sets are those of the replies before, so it returns the first stop, or the identities of all replies |
| Detector.ReadIffNothingStops | profile_detection.go:498-556 | identities are read exactly when no single read stops |
| Detector.ReadIsSound | profile_detection.go:498-556 | what is read holds one identity per declaration, each under an evidence identity of its own |
| Detector.EvaluateCandidate | profile_detection.go:409-455 | gates are passed in order, each with the evidence that passed it |
| Detector.EvaluatedIsValid | profile_detection.go:409-455 | the evidence passes the durable validator, and is selected exactly when the candidate passes every gate |
| Detector.NoMatchReason | profile_detection.go:457-477 | the scan finds the first priority present |
| Detector.PriorityIsPresent | profile_detection.go:457-477 | for unmatched candidates the reason is always one of their own, so the fallback is never taken |
| Detector.EvaluateAll | profile_detection.go:561-568 | every candidate is evaluated and exactly the passing ones are listed |
| Detector.Decide | profile_detection.go:569-597 | the relabelling in place and the choice of outcome are as specified |
| Detector.Detect | profile_detection.go:490-598 | on any reader behaviour the decision is the one the replies determine, and passes every check of the durable validator |
| Detector.FailureIsValid | profile_detection.go:354-364 | so does the decision for a failed read |
| Detector.RankingIsValid | profile_detection.go:569-597 | and every ranking |
| Detector.MatchesExactlyWhenOnePasses | profile_detection.go:561-597 | over the identities read, detection matches exactly when one candidate passes every gate, and then selects it; it finds nothing exactly when none does |
| Detector.DetectionMatchesExactly | profile_detection.go:490-598 | on any reader, detection matches exactly when no read stops, the firmware text is a version and one candidate alone passes every gate on what was read, and then selects that one in its version; it finds nothing exactly when none passes |
| DetectionMeaning.DecodedIsSpelled | profile_detection.go:502-545 | a reply decodes exactly to the printable text within bounds that its words spell, high byte first, filled up with NUL |
| DetectionMeaning.ReadIffClean | profile_detection.go:498-556 | the identities are read exactly when every reply came from a live context, succeeded with the declared number of words, spells a text, and has an evidence identity of its own, all within the word budget |
| DetectionMeaning.RefusedForFirstField | profile_detection.go:380-408 | a candidate is refused exactly for the first that stands against it: revoked, superseded, another state, unqualified, off by default, disabled, fixture-only; otherwise it is eligible |
| DetectionMeaning.DetectionMeans | profile_detection.go:490-598 | told from the replies and the candidates' fields: detection matches exactly when every reply is clean and one candidate alone is active, qualified, enabled by default and itself, allowed, and what the replies say, its interval around the version; it selects that profile in its version |
| DetectionMeaning.EvidenceExplains | profile_detection.go:409-455 | whatever the outcome, each candidate's evidence is about it, gives a reason exactly for the first field that stands against it, and lists the gates it passed, each with the evidence under which that field was read |
| DetectionMeaning.ForemostReason | profile_detection.go:457-477 | the reason for finding nothing is the foremost of the candidates' own |
| DetectionMeaning.StoppedDetectionIsTold | profile_detection.go:502-545 | when a reply is not clean, detection finds nothing, for the reason the first such reply gives, told from its fields |
| DetectionMeaning.UnversionedDetectionIsTold | profile_detection.go:557-560 | when the firmware text is no version, it finds nothing for an invalid identity |

## Left out

- JSON text other than that of a tombstone, SHA-256, hexadecimal and UTF-8: digests are represented by their preimages; `decodeStrict` and the reflection budgets are not modelled.
- String and diagnostic byte bounds of identities, keys, scopes and responses: they only reject single inputs.
- Issuer domain, profile identity and trusted-minimum bookkeeping of the ledger beyond the comparison at activation: constant over a run.
- Condition waits, timeouts and fairness: waits are guards of events, so the theorems are about safety; a caller that joins a running persistence call has no event of its own.
- The producer's source, attempt and capability objects: their calls are outcomes in the events, and draining them is one event.
- The tombstone insertion of `finalizeTerminalAttempt` for an uncommitted attempt: never reached.
- Sessions, sockets, observers and real clocks of the providers: answers are arbitrary, the clock is a monotone integer.
- The reads of a cycle are not tied to a device path: any number of reads, each under any budget.
- Fields of a provider child other than its refusals, and the last complete cycle: the refusal memory and the reading store are modelled separately.
- The SmartLogger and S-Dongle cycle runners: which child is monitored in a cycle is arbitrary, which is more than they do.
- Refusal keys are the triple of profile, offset and quantity; the source joins them into a text.
- The monitoring profile tables and measurement units: the proofs hold for every valid plan and field table.
- The strict SmartLogger entry grammar and the basic-identification corroboration: the other two entry grammars are modelled.
- Detector.EvaluateCandidate: parsing a firmware text into a version is a parameter of the specification; the version grammar and `compareVersion` on its parts are not modelled.
- The encoded size bound of a decision, which detector construction checks once: an abstract limit.
- Overlay validation against a base profile, address normalization and descriptor construction: case analysis without state.
- Growatt retention, OutBack, EMMA and fixed-layout decoders: repeats of simpler fencing and straight-line checks.
