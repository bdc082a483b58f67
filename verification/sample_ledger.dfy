/** SampleLedger and its attempts as the objects the source mutates under their
    locks. Every method is one lock-held section; its contract is that the object
    takes exactly the step the protocol takes, so every theorem about protocol
    runs is a theorem about the object. */
module SampleLedgers {
  import opened Foundation
  import opened LedgerTypes
  import opened RestartHistory
  import opened TerminalMerge
  import opened MergeLoop
  import opened LedgerProtocol
  import opened LedgerInvariant
  import opened LedgerSteps
  import opened LedgerTheorems

  function InProgressCount(entries: seq<ClaimEntry>): (n: nat)
    ensures n == 0 <==> forall i :: 0 <= i < |entries| ==> !entries[i].state.InProgress?
  {
    if |entries| == 0 then 0
    else InProgressCount(entries[..|entries| - 1]) + if entries[|entries| - 1].state.InProgress? then 1 else 0
  }

  lemma {:induction false} InProgressUpdate(entries: seq<ClaimEntry>, i: nat, entry: ClaimEntry)
    requires i < |entries|
    ensures InProgressCount(entries[i := entry]) == InProgressCount(entries)
      - (if entries[i].state.InProgress? then 1 else 0) + if entry.state.InProgress? then 1 else 0
  {
    var last := |entries| - 1;
    if i == last {
      assert entries[i := entry][..last] == entries[..last];
    } else {
      assert entries[i := entry][..last] == entries[..last][i := entry];
      InProgressUpdate(entries[..last], i, entry);
    }
  }

  /** runtimeAttemptState. The ghost fields say where the running calls stand;
      everything else is a field of the source. */
  class RuntimeAttempt {
    const identity: AttemptIdentity
    const terminalSequence: uint64
    var phase: AttemptPhase
    var entries: seq<ClaimEntry>
    var inProgressClaims: int
    var admitted: bool
    var restartCommitted: bool
    var terminalOutcome: AttemptPhase
    var terminalCommitInProgress: bool
    var terminalPersistenceErr: bool
    ghost var publication: Publication
    ghost var commit: Commit
    ghost var drained: bool
    ghost var committerAccepted: bool
    ghost var publicationCalls: nat

    ghost function View(): Attempt
      reads this
    {
      Attempt(identity, terminalSequence, entries, phase, admitted, drained, publication, commit,
              terminalOutcome, restartCommitted, committerAccepted, publicationCalls)
    }

    /** The counter and the flags agree with the claims and the running call. */
    ghost predicate Valid()
      reads this
    {
      && inProgressClaims == InProgressCount(entries)
      && (terminalCommitInProgress <==> View().CommitInProgress())
      && (commit.CommitFailed? ==> terminalPersistenceErr)
      && (commit.CommitIdle? ==> !terminalPersistenceErr)
    }

    constructor (identity: AttemptIdentity, first: uint64, claimSequences: seq<uint64>)
      requires first + |claimSequences| <= MAX_UINT64
      requires forall i :: 0 <= i < |claimSequences| ==> claimSequences[i] == first + 1 + i
      ensures Valid() && View() == NewAttempt(first, identity, |claimSequences|)
    {
      this.identity := identity;
      terminalSequence := first;
      phase := Open;
      entries := seq(|claimSequences|, i requires 0 <= i < |claimSequences| => ClaimEntry(Unresolved, claimSequences[i], 0));
      inProgressClaims := 0;
      admitted := false;
      restartCommitted := false;
      terminalOutcome := Open;
      terminalCommitInProgress := false;
      terminalPersistenceErr := false;
      publication := NotPublishing;
      commit := CommitIdle;
      drained := false;
      committerAccepted := false;
      publicationCalls := 0;
    }

    /** The fields a finalized attempt gives up. */
    method Clear()
      modifies this
      ensures phase == old(terminalOutcome) && entries == []
    {
      phase := terminalOutcome;
      terminalCommitInProgress := false;
      terminalPersistenceErr := false;
      entries := [];
      admitted := false;
      restartCommitted := false;
    }

    /** Where the running Publish call stands now. */
    ghost method MovePublication(stage: Publication, accepted: bool)
      requires Valid()
      modifies this`publication, this`committerAccepted
      ensures Valid() && View() == old(View()).(publication := stage, committerAccepted := accepted)
    {
      publication, committerAccepted := stage, accepted;
    }

    /** Where the running persistence call stands now; failing ends it and
        retains the error. */
    method MoveCommit(ghost stage: Commit, failed: bool)
      requires Valid() && !stage.CommitIdle? && (failed <==> stage.CommitFailed?)
      modifies this`commit, this`terminalCommitInProgress, this`terminalPersistenceErr
      ensures Valid() && View() == old(View()).(commit := stage)
    {
      if failed {
        terminalCommitInProgress := false;
        terminalPersistenceErr := true;
      } else {
        terminalCommitInProgress := true;
      }
      commit := stage;
    }

    /** cancelUnresolvedLocked: in place, and only unresolved entries change. */
    method CancelUnresolvedClaims()
      requires Valid()
      modifies this`entries
      ensures Valid() && entries == CancelUnresolved(old(entries))
    {
      hide InProgressCount;
      for i := 0 to |entries|
        invariant |entries| == |old(entries)|
        invariant forall j :: 0 <= j < i ==> entries[j] == CancelUnresolved(old(entries))[j]
        invariant forall j :: i <= j < |entries| ==> entries[j] == old(entries)[j]
        invariant InProgressCount(entries) == inProgressClaims
      {
        if entries[i].state.Unresolved? {
          var cancelled := entries[i].(state := Resolved(ClaimAttemptCancelled));
          InProgressUpdate(entries, i, cancelled);
          entries := entries[i := cancelled];
        }
      }
    }

    /** The scan Seal makes over the frozen entries. */
    method EveryClaimSucceeded() returns (all: bool)
      ensures all <==> View().AllSucceeded()
    {
      for i := 0 to |entries|
        invariant forall j :: 0 <= j < i ==> entries[j].state == Resolved(ClaimSucceeded)
      {
        if entries[i].state != Resolved(ClaimSucceeded) {
          return false;
        }
      }
      return true;
    }

    /** terminalTombstones: entries that are not terminal are skipped. */
    method TerminalTombstones(outcome: AttemptPhase) returns (records: seq<Tombstone>)
      requires View().AllResolved() && View().Last() <= MAX_UINT64
      requires forall i :: 0 <= i < |entries| ==> entries[i].sequence == terminalSequence + 1 + i
      ensures records == Block(View(), outcome)
    {
      records := [Tombstone(1, AttemptRecord, terminalSequence, |entries|, 0, 0, OfAttempt(outcome))];
      for i := 0 to |entries|
        invariant records == Block(View(), outcome)[..i + 1]
      {
        if entries[i].state.Resolved? {
          records := records + [Tombstone(1, ClaimRecord, entries[i].sequence, 0, terminalSequence, i, OfClaim(entries[i].state.outcome))];
        }
      }
    }
  }

  lemma LedgerUntouched(ledger: Ledger, a: Attempt, e: Event)
    ensures LedgerAfter(ledger, a, e) == ledger || e.PublicationReply? || e.CommitReply?
  {
    hide Covers, StillCurrent;
  }

  lemma CommitIsPending(a: Attempt, limits: LedgerLimits)
    requires AttemptOk(a, limits) && a.commit.CommitRequested?
    ensures Pending(a).Some? && Pending(a).value.target == a.commit.target
  {
  }

  // ---- what each event does, one at a time ------------------------------------------------

  lemma AdmissionIsSection(key: string, closed: bool, validated: bool)
    ensures var e := AdmissionEvent(key, closed, validated);
      !e.Begin? && !e.Finalize? && !e.Restart? && !e.PublicationReply? && !e.CommitReply? && e.key == key
  {
  }

  lemma AdmissionEffect(ledger: Ledger, serial: Option<string>, a: Attempt, key: string, closed: bool, validated: bool)
    ensures AttemptEnabled(ledger, serial, a, AdmissionEvent(key, closed, validated)) <==>
      a.phase.Open? && !a.admitted && a.NoneInProgress()
    ensures AttemptEnabled(ledger, serial, a, AdmissionEvent(key, closed, validated)) ==>
      var b := a.(admitted := closed, phase := if closed && validated then Open else Cancelling,
                  entries := if closed then a.entries else CancelUnresolved(a.entries));
      && AttemptAfter(ledger, serial, a, AdmissionEvent(key, closed, validated)) == b
      && SerialAfter(serial, key, a, b) == serial
  {
  }

  lemma StartPublishEffect(ledger: Ledger, serial: Option<string>, a: Attempt, key: string)
    requires AttemptOk(a, ledger.limits)
    ensures AttemptEnabled(ledger, serial, a, Event.StartPublish(key)) <==> a.phase.Sealed?
    ensures a.phase.Sealed? ==>
      AttemptAfter(ledger, serial, a, Event.StartPublish(key)) == a.(phase := Publishing, publication := Waiting)
    ensures a.phase.Sealed? ==>
      SerialAfter(serial, key, a, AttemptAfter(ledger, serial, a, Event.StartPublish(key))) == serial
  {
  }

  lemma StartClaimEffect(ledger: Ledger, serial: Option<string>, a: Attempt, key: string, ordinal: nat)
    ensures AttemptEnabled(ledger, serial, a, Event.StartClaim(key, ordinal)) <==>
      ordinal < |a.entries| && a.phase.Open? && a.admitted && a.entries[ordinal].state.Unresolved?
    ensures AttemptEnabled(ledger, serial, a, Event.StartClaim(key, ordinal)) ==>
      var entry := a.entries[ordinal].(state := InProgress, calls := a.entries[ordinal].calls + 1);
      && AttemptAfter(ledger, serial, a, Event.StartClaim(key, ordinal)) == a.(entries := a.entries[ordinal := entry])
      && SerialAfter(serial, key, a, a.(entries := a.entries[ordinal := entry])) == serial
  {
  }

  lemma StartCommitEffect(ledger: Ledger, serial: Option<string>, a: Attempt, key: string, outcome: AttemptPhase)
    requires OutcomeAdmitted(a, outcome)
    ensures AttemptEnabled(ledger, serial, a, StartCommit(key, outcome)) <==>
      !a.CommitInProgress() && (a.commit.CommitFailed? ==> a.terminalOutcome == outcome)
    ensures AttemptEnabled(ledger, serial, a, StartCommit(key, outcome)) ==>
      var b := a.(terminalOutcome := outcome, commit := if a.restartCommitted then CommitRecorded else CommitStarted);
      AttemptAfter(ledger, serial, a, StartCommit(key, outcome)) == b && SerialAfter(serial, key, a, b) == serial
  {
  }

  /** A request is made for an attempt whose whole block is known. */
  lemma RequestReady(ledger: Ledger, a: Attempt)
    requires AttemptOk(a, ledger.limits) && (a.publication.Holding? || a.commit.CommitStarted?)
    ensures BlockReady(a)
  {
  }

  /** A publication request is made exactly when the sample state can advance and
      the attempt's tombstones can be merged. */
  lemma PublicationRequestEnabled(ledger: Ledger, serial: Option<string>, a: Attempt, key: string)
    requires a.publication.Holding? && BlockReady(a) && LedgerReady(ledger)
    ensures AttemptEnabled(ledger, serial, a, Event.RequestPublication(key)) <==>
      && ledger.sample.revision != MAX_UINT64 && ledger.sample.highWater != MAX_UINT64
      && IdentityAdvances(ledger.sample.lastCommitted, a.identity) && Target(ledger, a, Published).Ok?
  {
    hide Target, IdentityAdvances, ValidLimits;
  }

  /** And then asks for the target of those tombstones. */
  lemma PublicationRequestEffect(ledger: Ledger, serial: Option<string>, a: Attempt, key: string)
    requires a.publication.Holding? && AttemptEnabled(ledger, serial, a, Event.RequestPublication(key))
    ensures var next := SampleState(ledger.sample.revision + 1, ledger.sample.highWater + 1, a.identity);
      var b := a.(publication := PublicationRequested(ledger.sample, next, ledger.durable, Target(ledger, a, Published).value),
                  publicationCalls := a.publicationCalls + 1);
      AttemptAfter(ledger, serial, a, Event.RequestPublication(key)) == b && SerialAfter(serial, key, a, b) == serial
  {
    hide Target, IdentityAdvances, ValidLimits;
  }

  /** And a terminal commit's request likewise. */
  lemma CommitRequestEffect(ledger: Ledger, serial: Option<string>, a: Attempt, key: string)
    requires AttemptOk(a, ledger.limits) && LedgerReady(ledger)
    ensures a.commit.CommitStarted? && BlockReady(a) ==>
      var b := a.(commit := RequestedCommit(TerminalRequestOf(ledger.durable, Target(ledger, a, a.terminalOutcome))));
      && AttemptEnabled(ledger, serial, a, RequestCommit(key))
      && AttemptAfter(ledger, serial, a, RequestCommit(key)) == b && SerialAfter(serial, key, a, b) == serial
  {
    hide TerminalTarget, AttemptBlock;
  }

  predicate LedgerReady(ledger: Ledger) {
    ValidLimits(ledger.limits) && (ledger.exhausted <==> ledger.next == 0)
  }

  /** Every claim is terminal and numbered consecutively after the attempt. */
  predicate BlockReady(a: Attempt) {
    && a.AllResolved() && a.Last() <= MAX_UINT64
    && forall i :: 0 <= i < |a.entries| ==> a.entries[i].sequence == a.first + 1 + i
  }

  predicate ReplyRecorded(ledger: Ledger, p: Publication, committed: bool)
    requires p.PublicationRequested?
  {
    committed && ledger.sample == p.expectedSample && StillCurrent(ledger, p.expected, p.target)
  }

  lemma RecordedReplyEffect(ledger: Ledger, serial: Option<string>, a: Attempt, key: string, committed: bool)
    requires a.publication.PublicationRequested? && ReplyRecorded(ledger, a.publication, committed)
    ensures var e := Event.PublicationReply(key, committed);
      var b := a.(publication := PublicationApplied, committerAccepted := true);
      && AttemptEnabled(ledger, serial, a, e) && AttemptAfter(ledger, serial, a, e) == b
      && LedgerAfter(ledger, a, e) == ApplyTarget(ledger, a.publication.target).(sample := a.publication.nextSample)
      && SerialAfter(serial, key, a, b) == serial
  {
    hide StillCurrent, Covers;
  }

  lemma DroppedReplyEffect(ledger: Ledger, serial: Option<string>, a: Attempt, key: string, committed: bool)
    requires a.publication.PublicationRequested? && !ReplyRecorded(ledger, a.publication, committed)
    ensures var e := Event.PublicationReply(key, committed);
      var b := a.(publication := PublicationAbandoned, committerAccepted := a.committerAccepted || committed);
      && AttemptEnabled(ledger, serial, a, e) && AttemptAfter(ledger, serial, a, e) == b
      && LedgerAfter(ledger, a, e) == ledger && SerialAfter(serial, key, a, b) == None
  {
    hide StillCurrent, Covers;
  }

  lemma CommitReplyEffect(ledger: Ledger, serial: Option<string>, a: Attempt, key: string, ok: bool)
    requires a.commit.CommitRequested?
    ensures var recorded := ok && StillCurrent(ledger, a.commit.expected, a.commit.target);
      var b := a.(commit := if recorded then CommitApplied else CommitFailed);
      && AttemptEnabled(ledger, serial, a, CommitReply(key, ok))
      && AttemptAfter(ledger, serial, a, CommitReply(key, ok)) == b
      && LedgerAfter(ledger, a, CommitReply(key, ok)) == (if recorded then ApplyTarget(ledger, a.commit.target) else ledger)
      && SerialAfter(serial, key, a, b) == serial
  {
    hide StillCurrent, Covers;
  }

  /** Only one of the two replies of an attempt can be waiting to be marked. */
  lemma MarkEffect(ledger: Ledger, serial: Option<string>, a: Attempt, key: string)
    requires AttemptOk(a, ledger.limits) && (a.publication.PublicationApplied? || a.commit.CommitApplied?)
    ensures var b := if HoldsSerial(a) then a.(publication := PublicationRecorded, restartCommitted := true)
                     else a.(commit := CommitRecorded, restartCommitted := true);
      && AttemptEnabled(ledger, serial, a, MarkCommitted(key))
      && AttemptAfter(ledger, serial, a, MarkCommitted(key)) == b
      && SerialAfter(serial, key, a, b) == (if HoldsSerial(a) then None else serial)
  {
  }

  lemma FinalizeEffect(ledger: Ledger, serial: Option<string>, a: Attempt, key: string)
    requires AttemptOk(a, ledger.limits) && a.commit.CommitRecorded?
    ensures AttemptEnabled(ledger, serial, a, Finalize(key))
    ensures a.AllResolved() && a.NoneInProgress() && a.CommitInProgress() && (a.phase.Cancelling? || a.phase.Publishing?)
  {
    FinalizeNeverRefused(a, ledger.limits);
  }

  function LedgerAfterFinalize(ledger: Ledger, claims: nat): Ledger {
    ledger.(retainedClaims := ledger.retainedClaims - claims)
  }

  function LedgerAfterBegin(ledger: Ledger, claims: nat): Ledger
    requires BatchAvailable(ledger.next, ledger.exhausted, claims)
  {
    Reserve(ledger, claims).(retainedClaims := ledger.retainedClaims + claims)
  }

  function AdmissionEvent(key: string, closed: bool, validated: bool): Event {
    if closed && validated then Event.Admit(key) else RejectAdmission(key, closed)
  }

  /** What CommitPublication is called with. */
  datatype PublicationRequest = PublicationRequest(
    expectedSample: SampleState, nextSample: SampleState, expected: RestartState, target: RestartState)
  {
    function Stage(): Publication {
      PublicationRequested(expectedSample, nextSample, expected, target)
    }
  }

  /** What CommitTerminalState is called with. */
  datatype TerminalRequest = TerminalRequest(expected: RestartState, target: RestartState)

  function TerminalRequestOf(expected: RestartState, target: Result<RestartState>): Option<TerminalRequest> {
    if target.Ok? then Some(TerminalRequest(expected, target.value)) else None
  }

  function RequestedCommit(request: Option<TerminalRequest>): Commit {
    if request.Some? then CommitRequested(request.value.expected, request.value.target) else CommitFailed
  }

  /** validateSampleRestartRelationship, with the wrap guards of the source. */
  method SampleRestartRelationship(sample: SampleState, restart: RestartState) returns (ok: bool)
    requires restart.exhausted <==> restart.next == 0
    ensures ok <==> SampleAgrees(sample, restart)
  {
    var ts := restart.tombstones;
    var retained := 0;
    for i := 0 to |ts|
      invariant retained == PublishedCount(ts[..i])
    {
      assert ts[..i + 1][..i] == ts[..i];
      if PublishedRecord(ts[i]) {
        retained := retained + 1;
      }
    }
    assert ts[..|ts|] == ts;
    if restart.truncated == 0 {
      if retained != sample.revision {
        return false;
      }
    } else if retained > sample.revision {
      return false;
    }
    if sample.revision == 0 {
      return true;
    }
    if sample.revision > MAX_UINT64 / 2 {
      return false;
    }
    if restart.exhausted {
      return true;
    }
    return restart.next - 1 >= sample.revision * 2;
  }

  lemma QuotientBound(total: int, unit: int, n: int)
    requires total >= 0 && unit > 0
    ensures n > total / unit <==> n * unit > total
  {
    assert total == total / unit * unit + total % unit;
    if n > total / unit {
      assert n * unit >= (total / unit + 1) * unit;
    } else {
      assert n * unit <= total / unit * unit;
    }
  }

  /** The limit checks at the head of newSampleLedger; the aggregate check
      divides, the specification multiplies. */
  method ActivateLimits(limits: LedgerLimits) returns (ok: bool)
    ensures ok <==> LimitsAccepted(limits)
  {
    if !ValidLimits(limits) || limits.maxRetainedClaimEntries > limits.maxRetainedAttempts * limits.maxClaimEntriesPerAttempt {
      return false;
    }
    var perTombstone := limits.auditTombstoneMaxEncodedBytes + 1;
    QuotientBound(MAX_SERIALIZED_CONTRACT_BYTES - 512, perTombstone, limits.auditTombstoneLimit);
    if limits.auditTombstoneLimit > (MAX_SERIALIZED_CONTRACT_BYTES - 512) / perTombstone {
      return false;
    }
    return EncodedBytes(LargestAttempt(limits)) <= limits.auditTombstoneMaxEncodedBytes &&
           EncodedBytes(LargestClaim()) <= limits.auditTombstoneMaxEncodedBytes;
  }

  class SampleLedger {
    const limits: LedgerLimits
    var revision: uint64
    var highWater: uint64
    var lastCommittedAttempt: AttemptIdentity
    var attempts: map<string, RuntimeAttempt>
    var retainedClaims: int
    var nextTerminalSequence: uint64
    var sequenceExhausted: bool
    var durableNextTerminalSequence: uint64
    var durableSequenceExhausted: bool
    var truncatedThroughSequence: uint64
    var auditTombstones: seq<Tombstone>
    /** Which attempt took the token out of the commitSerial channel. */
    var commitSerial: Option<string>
    ghost const base: uint64
    ghost var begun: seq<Begun>
    ghost var finished: map<int, Finished>

    // ---- the abstract value -----------------------------------------------------------

    /** stateLocked. */
    function Sample(): SampleState
      reads this
    {
      SampleState(revision, highWater, lastCommittedAttempt)
    }

    /** durableRestartStateLocked. */
    function DurableRestartState(): RestartState
      reads this
    {
      RestartState(1, durableNextTerminalSequence, durableSequenceExhausted, truncatedThroughSequence, auditTombstones)
    }

    function Core(): Ledger
      reads this
    {
      Ledger(limits, Sample(), nextTerminalSequence, sequenceExhausted, DurableRestartState(), retainedClaims)
    }

    ghost function Views(): map<string, Attempt>
      reads this, attempts.Values
    {
      map k | k in attempts :: attempts[k].View()
    }

    ghost function State(): System
      reads this, attempts.Values
    {
      System(Core(), Views(), commitSerial, base, begun, finished)
    }

    /** Attempts are separate objects. */
    ghost predicate Separate()
      reads this
    {
      forall j, k :: j in attempts && k in attempts && j != k ==> attempts[j] != attempts[k]
    }

    ghost predicate AttemptsValid()
      reads this, attempts.Values
    {
      forall k :: k in attempts ==> attempts[k].Valid()
    }

    /** The object invariant contains the inductive invariant of the protocol. */
    ghost predicate Valid()
      reads this, attempts.Values
    {
      Separate() && AttemptsValid() && Inv(State())
    }

    // ---- what a section leaves alone -----------------------------------------------------

    twostate lemma OneAttemptChanged(key: string)
      requires attempts == old(attempts) && key in attempts && Separate() && old(AttemptsValid())
      requires forall k :: k in attempts && k != key ==> unchanged(attempts[k])
      requires attempts[key].Valid()
      ensures Views() == old(Views())[key := attempts[key].View()]
      ensures AttemptsValid()
    {
    }

    /** A section of one attempt that does what the protocol's event does takes
        the protocol's step and keeps the invariant. */
    twostate lemma SectionIsStep(e: Event)
      requires old(Valid()) && attempts == old(attempts)
      requires !e.Begin? && !e.Finalize? && !e.Restart? && e.key in attempts
      requires forall k :: k in attempts && k != e.key ==> unchanged(attempts[k])
      requires attempts[e.key].Valid()
      requires AttemptEnabled(old(Core()), old(commitSerial), old(attempts[e.key].View()), e)
      requires Core() == LedgerAfter(old(Core()), old(attempts[e.key].View()), e)
      requires attempts[e.key].View() == AttemptAfter(old(Core()), old(commitSerial), old(attempts[e.key].View()), e)
      requires commitSerial == SerialAfter(old(commitSerial), e.key, old(attempts[e.key].View()), attempts[e.key].View())
      requires begun == old(begun) && finished == old(finished)
      ensures old(Enabled(State(), e))
      ensures State() == Step(old(State()), e) && Valid()
    {
      hide Inv, AttemptEnabled, AttemptAfter, LedgerAfter, SerialAfter, RuntimeAttempt.Valid;
      OneAttemptChanged(e.key);
      StepPreserves(old(State()), e);
    }

    lemma LiveObject(key: string)
      requires Valid() && key in attempts
      ensures attempts[key].Valid()
      ensures forall k :: k in attempts && k != key ==> attempts[k] != attempts[key]
    {
      hide Inv, RuntimeAttempt.Valid;
    }

    lemma EnabledIs(e: Event)
      requires !e.Begin? && !e.Restart? && e.key in attempts
      ensures Enabled(State(), e) <==> AttemptEnabled(Core(), commitSerial, attempts[e.key].View(), e)
    {
      hide AttemptEnabled, RuntimeAttempt.View, Core;
    }

    /** What a section needs to know about the attempt it works on. */
    lemma Live(e: Event)
      requires Valid() && !e.Begin? && !e.Restart? && e.key in attempts
      ensures attempts[e.key].Valid()
      ensures forall k :: k in attempts && k != e.key ==> attempts[k] != attempts[e.key]
      ensures Enabled(State(), e) <==> AttemptEnabled(Core(), commitSerial, attempts[e.key].View(), e)
      ensures LedgerAfter(Core(), attempts[e.key].View(), e) == Core() || e.PublicationReply? || e.CommitReply?
    {
      hide Valid, RuntimeAttempt.Valid, Enabled, AttemptEnabled, State, Core;
      hide LedgerAfter;
      LiveObject(e.key);
      EnabledIs(e);
      LedgerUntouched(Core(), attempts[e.key].View(), e);
    }

    /** Facts about a live attempt that a section relies on. */
    lemma LiveAttempt(key: string)
      requires Valid() && key in attempts
      ensures AttemptOk(attempts[key].View(), limits)
      ensures Activated(limits) && LedgerReady(Core())
      ensures DurableRestartState().schemaVersion == 1
    {
      assert key in State().attempts;
    }

    // ---- construction ------------------------------------------------------------------------

    constructor Activate(sample: SampleState, limits: LedgerLimits, restart: RestartState)
      requires restart.schemaVersion == 1
      ensures Core() == Ledger(limits, sample, restart.next, restart.exhausted, restart, 0)
      ensures attempts == map[] && commitSerial == None && begun == [] && finished == map[] && base == ClampedEnd(restart)
    {
      this.limits := limits;
      revision, highWater, lastCommittedAttempt := sample.revision, sample.highWater, sample.lastCommitted;
      attempts, retainedClaims := map[], 0;
      nextTerminalSequence, sequenceExhausted := restart.next, restart.exhausted;
      durableNextTerminalSequence, durableSequenceExhausted := restart.next, restart.exhausted;
      truncatedThroughSequence, auditTombstones := restart.truncated, restart.tombstones;
      commitSerial := None;
      base := ClampedEnd(restart);
      begun, finished := [], map[];
    }

    // ---- reservation ---------------------------------------------------------------------------

    method TerminalBatchAvailable(claimCount: nat) returns (available: bool)
      ensures available <==> BatchAvailable(nextTerminalSequence, sequenceExhausted, claimCount)
    {
      if sequenceExhausted || nextTerminalSequence == 0 || claimCount <= 0 {
        return false;
      }
      return claimCount <= MAX_UINT64 - nextTerminalSequence;
    }

    /** reserveTerminalBatchLocked: the block is consecutive, and the last
        sequence of all exhausts the ledger instead of wrapping. */
    method ReserveTerminalBatch(claimCount: nat) returns (ok: bool, first: uint64, claims: seq<uint64>)
      modifies this`nextTerminalSequence, this`sequenceExhausted
      ensures ok <==> old(BatchAvailable(nextTerminalSequence, sequenceExhausted, claimCount))
      ensures !ok ==> Core() == old(Core())
      ensures ok ==> Core() == Reserve(old(Core()), claimCount)
      ensures ok ==> first == old(nextTerminalSequence) && |claims| == claimCount && first + claimCount <= MAX_UINT64
      ensures ok ==> forall i :: 0 <= i < claimCount ==> claims[i] == first + 1 + i
    {
      first, claims := 0, [];
      ok := TerminalBatchAvailable(claimCount);
      if !ok {
        return;
      }
      first := nextTerminalSequence;
      var last := first + claimCount;
      for index := 0 to claimCount
        invariant |claims| == index
        invariant forall i :: 0 <= i < index ==> claims[i] == first + 1 + i
      {
        claims := claims + [first + index + 1];
      }
      if last == MAX_UINT64 {
        nextTerminalSequence, sequenceExhausted := 0, true;
      } else {
        nextTerminalSequence := last + 1;
      }
    }

    /** The admission checks of BeginRuntimeAttempt, in the source's order. */
    method BeginAdmitted(key: string, identity: AttemptIdentity, claims: nat) returns (admitted: bool)
      ensures admitted <==> BeginEnabled(State(), key, identity, claims)
    {
      if identity.generation == 0 ||
         (lastCommittedAttempt.generation != 0 && identity.generation <= lastCommittedAttempt.generation) {
        return false;
      }
      if claims > limits.maxClaimEntriesPerAttempt || key in attempts {
        return false;
      }
      ViewsCount();
      if |attempts| >= limits.maxRetainedAttempts || retainedClaims + claims > limits.maxRetainedClaimEntries {
        return false;
      }
      admitted := TerminalBatchAvailable(claims);
    }

    /** The ledger section of BeginRuntimeAttempt. */
    method BeginRuntimeAttempt(key: string, identity: AttemptIdentity, claims: nat) returns (attempt: Option<RuntimeAttempt>)
      requires Valid()
      modifies this
      ensures Valid()
      ensures attempt.Some? <==> old(Enabled(State(), Begin(key, identity, claims)))
      ensures State() == if attempt.Some? then Step(old(State()), Begin(key, identity, claims)) else old(State())
      ensures attempt.Some? ==> fresh(attempt.value) && attempts == old(attempts)[key := attempt.value]
    {
      hide Inv, RuntimeAttempt.Valid, BeginStep;
      attempt := None;
      var admitted := BeginAdmitted(key, identity, claims);
      if admitted {
        var _, first, claimSequences := ReserveTerminalBatch(claims);
        var created := new RuntimeAttempt(identity, first, claimSequences);
        attempts := attempts[key := created];
        retainedClaims := retainedClaims + claims;
        begun := begun + [Begun(first, claims)];
        BeginIsStep(Begin(key, identity, claims), created);
        attempt := Some(created);
      }
    }

    lemma ViewsCount()
      ensures |attempts| == |Views()| && (attempts == map[] <==> Views() == map[])
    {
      assert attempts.Keys == Views().Keys;
      if Views() == map[] {
        assert attempts.Keys == {};
      }
    }

    twostate lemma BeginIsStep(e: Event, new created: RuntimeAttempt)
      requires old(Valid()) && e.Begin? && old(Enabled(State(), e))
      requires attempts == old(attempts)[e.key := created] && fresh(created) && created.Valid()
      requires forall k :: k in old(attempts) ==> unchanged(old(attempts)[k])
      requires created.View() == NewAttempt(old(nextTerminalSequence), e.identity, e.claims)
      requires Core() == LedgerAfterBegin(old(Core()), e.claims)
      requires commitSerial == old(commitSerial) && finished == old(finished)
      requires begun == old(begun) + [Begun(old(nextTerminalSequence), e.claims)]
      ensures State() == Step(old(State()), e) && Valid()
    {
      hide Inv, RuntimeAttempt.Valid, NewAttempt, Reserve;
      StepPreserves(old(State()), e);
      BeginViews(e.key, created);
    }

    twostate lemma BeginViews(key: string, new created: RuntimeAttempt)
      requires old(Separate()) && old(AttemptsValid()) && key !in old(attempts)
      requires attempts == old(attempts)[key := created] && fresh(created) && created.Valid()
      requires forall k :: k in old(attempts) ==> unchanged(old(attempts)[k])
      ensures Separate() && AttemptsValid()
      ensures Views() == old(Views())[key := created.View()]
    {
    }

    // ---- admission and claims --------------------------------------------------------------------

    /** Admit: the producer close and the validation of the observation decide
        between admission and an admission failure that starts cancelling. */
    method Admit(key: string, closed: bool, validated: bool) returns (open: bool)
      requires Valid() && key in attempts
      modifies attempts[key]
      ensures Valid()
      ensures open <==> old(Enabled(State(), AdmissionEvent(key, closed, validated)))
      ensures State() == if open then Step(old(State()), AdmissionEvent(key, closed, validated)) else old(State())
    {
      hide Inv, Enabled, Step, State, Valid, LedgerAfter, AttemptEnabled, AttemptAfter, SerialAfter, AdmissionEvent;
      AdmissionIsSection(key, closed, validated);
      Live(AdmissionEvent(key, closed, validated));
      var state := attempts[key];
      AdmissionEffect(Core(), commitSerial, state.View(), key, closed, validated);
      if state.phase != Open || state.admitted || state.inProgressClaims != 0 {
        return false;
      }
      if !closed {
        state.CancelUnresolvedClaims();
        state.phase := Cancelling;
      } else {
        state.admitted := true;
        if !validated {
          state.phase := Cancelling;
        }
      }
      SectionIsStep(AdmissionEvent(key, closed, validated));
      return true;
    }

    /** The first section of Claim. */
    method StartClaim(key: string, ordinal: nat) returns (started: bool)
      requires Valid() && key in attempts
      modifies attempts[key]
      ensures Valid()
      ensures started <==> old(Enabled(State(), Event.StartClaim(key, ordinal)))
      ensures State() == if started then Step(old(State()), Event.StartClaim(key, ordinal)) else old(State())
    {
      hide Inv, Enabled, Step, State, Valid, LedgerAfter, AttemptEnabled, AttemptAfter, SerialAfter, AttemptOk;
      Live(Event.StartClaim(key, ordinal));
      var state := attempts[key];
      StartClaimEffect(Core(), commitSerial, state.View(), key, ordinal);
      if ordinal >= |state.entries| || state.phase != Open || !state.admitted || !state.entries[ordinal].state.Unresolved? {
        return false;
      }
      var entry := state.entries[ordinal];
      InProgressUpdate(state.entries, ordinal, entry.(state := InProgress, calls := entry.calls + 1));
      state.entries := state.entries[ordinal := entry.(state := InProgress, calls := entry.calls + 1)];
      state.inProgressClaims := state.inProgressClaims + 1;
      SectionIsStep(Event.StartClaim(key, ordinal));
      return true;
    }

    /** The second section of Claim, with the outcome the capability call produced. */
    method EndClaim(key: string, ordinal: nat, outcome: ClaimOutcome)
      requires Valid() && key in attempts
      requires ordinal < |attempts[key].entries| && attempts[key].entries[ordinal].state.InProgress?
      modifies attempts[key]
      ensures Valid()
      ensures old(Enabled(State(), Event.EndClaim(key, ordinal, outcome)))
      ensures State() == Step(old(State()), Event.EndClaim(key, ordinal, outcome))
      ensures attempts[key].entries == old(attempts[key].entries[ordinal := attempts[key].entries[ordinal].(state := Resolved(outcome))])
    {
      hide Inv, Enabled, Step, State, Valid, LedgerAfter;
      Live(Event.EndClaim(key, ordinal, outcome));
      var state := attempts[key];
      InProgressUpdate(state.entries, ordinal, state.entries[ordinal].(state := Resolved(outcome)));
      state.entries := state.entries[ordinal := state.entries[ordinal].(state := Resolved(outcome))];
      state.inProgressClaims := state.inProgressClaims - 1;
      SectionIsStep(Event.EndClaim(key, ordinal, outcome));
    }

    method Seal(key: string) returns (sealed: bool)
      requires Valid() && key in attempts
      modifies attempts[key]
      ensures Valid()
      ensures sealed <==> old(Enabled(State(), Event.Seal(key)))
      ensures State() == if sealed then Step(old(State()), Event.Seal(key)) else old(State())
    {
      hide Inv, Enabled, Step, State, Valid, LedgerAfter;
      Live(Event.Seal(key));
      var state := attempts[key];
      var all := state.EveryClaimSucceeded();
      if state.phase != Open || !state.admitted || |state.entries| == 0 || state.inProgressClaims != 0 || !all {
        return false;
      }
      state.phase := Sealed;
      SectionIsStep(Event.Seal(key));
      return true;
    }

    // ---- cancellation ---------------------------------------------------------------------------------

    /** The section of Cancel that closes an open or sealed attempt. */
    method StartCancel(key: string) returns (started: bool)
      requires Valid() && key in attempts
      modifies attempts[key]
      ensures Valid()
      ensures started <==> old(Enabled(State(), Event.StartCancel(key)))
      ensures State() == if started then Step(old(State()), Event.StartCancel(key)) else old(State())
    {
      hide Inv, Enabled, Step, State, Valid, LedgerAfter;
      Live(Event.StartCancel(key));
      var state := attempts[key];
      if state.phase != Open && state.phase != Sealed {
        return false;
      }
      state.phase := Cancelling;
      SectionIsStep(Event.StartCancel(key));
      return true;
    }

    /** finishCancellation, once the running claims are drained. */
    method FinishCancellation(key: string)
      requires Valid() && key in attempts && attempts[key].phase == Cancelling && attempts[key].inProgressClaims == 0
      modifies attempts[key]
      ensures Valid()
      ensures old(Enabled(State(), Drain(key))) && State() == Step(old(State()), Drain(key))
    {
      hide Inv, Enabled, Step, State, Valid, LedgerAfter;
      Live(Drain(key));
      attempts[key].CancelUnresolvedClaims();
      attempts[key].drained := true;
      SectionIsStep(Drain(key));
    }

    // ---- publication -------------------------------------------------------------------------------------

    method StartPublish(key: string) returns (started: bool)
      requires Valid() && key in attempts
      modifies attempts[key]
      ensures Valid()
      ensures started <==> old(Enabled(State(), Event.StartPublish(key)))
      ensures State() == if started then Step(old(State()), Event.StartPublish(key)) else old(State())
    {
      hide Inv, Enabled, Step, State, Valid, LedgerAfter, AttemptEnabled, AttemptAfter, SerialAfter, AttemptOk;
      Live(Event.StartPublish(key));
      LiveAttempt(key);
      var state := attempts[key];
      StartPublishEffect(Core(), commitSerial, state.View(), key);
      if state.phase != Sealed {
        return false;
      }
      state.phase := Publishing;
      state.publication := Waiting;
      SectionIsStep(Event.StartPublish(key));
      return true;
    }

    /** Taking the token out of the commitSerial channel; a second taker waits. */
    method TakeCommitSerial(key: string) returns (taken: bool)
      requires Valid() && key in attempts && attempts[key].publication.Waiting?
      modifies this`commitSerial, attempts[key]
      ensures Valid()
      ensures taken <==> old(Enabled(State(), TakeSerial(key)))
      ensures State() == if taken then Step(old(State()), TakeSerial(key)) else old(State())
    {
      hide Inv, Enabled, Step, State, Valid, LedgerAfter;
      Live(TakeSerial(key));
      if commitSerial.Some? {
        return false;
      }
      commitSerial := Some(key);
      attempts[key].publication := Holding;
      SectionIsStep(TakeSerial(key));
      return true;
    }

    /** Giving up before the committer is asked: the producer drain failed, the
        context ended, or the attempt was cancelled. */
    method AbandonPublication(key: string)
      requires Valid() && key in attempts
      requires attempts[key].publication.Waiting? || attempts[key].publication.Holding?
      modifies this`commitSerial, attempts[key]
      ensures Valid()
      ensures old(Enabled(State(), Event.AbandonPublication(key)))
      ensures State() == Step(old(State()), Event.AbandonPublication(key))
    {
      hide Inv, Enabled, Step, State, Valid, LedgerAfter;
      Live(Event.AbandonPublication(key));
      HolderIsSerial(key);
      if commitSerial == Some(key) {
        commitSerial := None;
      }
      attempts[key].publication := PublicationAbandoned;
      SectionIsStep(Event.AbandonPublication(key));
    }

    lemma HolderIsSerial(key: string)
      requires Valid() && key in attempts
      ensures HoldsSerial(attempts[key].View()) <==> commitSerial == Some(key)
    {
      assert key in State().attempts;
    }

    /** The request Publish computes under the ledger lock, if there is one. */
    method PreparePublication(state: RuntimeAttempt, ghost key: string) returns (request: Option<PublicationRequest>)
      requires AttemptOk(state.View(), limits) && Activated(limits) && LedgerReady(Core()) && state.publication.Holding?
      ensures request.Some? <==> AttemptEnabled(Core(), commitSerial, state.View(), Event.RequestPublication(key))
      ensures request.Some? ==>
        AttemptAfter(Core(), commitSerial, state.View(), Event.RequestPublication(key)) == state.View().(
          publication := request.value.Stage(), publicationCalls := state.publicationCalls + 1)
      ensures request.Some? ==> SerialAfter(commitSerial, key, state.View(),
        AttemptAfter(Core(), commitSerial, state.View(), Event.RequestPublication(key))) == commitSerial
    {
      hide AttemptEnabled, AttemptAfter, SerialAfter, AttemptOk, TerminalTarget, AttemptBlock, Activated, ValidLimits, IdentityAdvances;
      RequestReady(Core(), state.View());
      PublicationRequestEnabled(Core(), commitSerial, state.View(), key);
      if revision == MAX_UINT64 || highWater == MAX_UINT64 || !IdentityAdvances(lastCommittedAttempt, state.identity) {
        return None;
      }
      var records := state.TerminalTombstones(Published);
      var target := TerminalRestartState(DurableRestartState(), nextTerminalSequence, sequenceExhausted, limits, records);
      if target.Err? {
        return None;
      }
      var next := SampleState(revision + 1, highWater + 1, state.identity);
      PublicationRequestEffect(Core(), commitSerial, state.View(), key);
      return Some(PublicationRequest(Sample(), next, DurableRestartState(), target.value));
    }

    /** The ledger section of Publish before the committer is asked; without a
        request the publication is abandoned. */
    method RequestPublication(key: string) returns (request: Option<PublicationRequest>)
      requires Valid() && key in attempts && attempts[key].publication.Holding?
      modifies attempts[key]
      ensures Valid()
      ensures request.Some? <==> old(Enabled(State(), Event.RequestPublication(key)))
      ensures State() == if request.Some? then Step(old(State()), Event.RequestPublication(key)) else old(State())
      ensures request.Some? ==> attempts[key].publication == request.value.Stage()
    {
      hide Inv, Enabled, Step, State, Valid, LedgerAfter, AttemptEnabled, AttemptAfter, SerialAfter, AttemptOk, Activated, LedgerReady;
      Live(Event.RequestPublication(key));
      LiveAttempt(key);
      request := PreparePublication(attempts[key], key);
      if request.Some? {
        attempts[key].publication := request.value.Stage();
        attempts[key].publicationCalls := attempts[key].publicationCalls + 1;
        SectionIsStep(Event.RequestPublication(key));
      }
    }

    /** The check and the update both replies make: a target is recorded when
        nothing else was recorded since it was computed, or when what was
        recorded already covers it. */
    method RecordTarget(expected: RestartState, target: RestartState) returns (recorded: bool)
      requires target.schemaVersion == 1
      modifies this`durableNextTerminalSequence, this`durableSequenceExhausted, this`truncatedThroughSequence, this`auditTombstones
      ensures recorded <==> old(StillCurrent(Core(), expected, target))
      ensures Core() == if recorded then ApplyTarget(old(Core()), target) else old(Core())
    {
      hide Covers;
      var covered := CoversTerminalWatermark(DurableRestartState(), target);
      recorded := DurableRestartState() == expected || covered;
      if recorded && !covered {
        ApplyDurableRestartState(target);
      }
    }

    method ApplySample(next: SampleState)
      modifies this`revision, this`highWater, this`lastCommittedAttempt
      ensures Core() == old(Core()).(sample := next)
    {
      revision, highWater, lastCommittedAttempt := next.revision, next.highWater, next.lastCommitted;
    }

    /** What the ledger does with the committer's answer to a publication request. */
    method AnswerPublication(state: RuntimeAttempt, key: string, request: PublicationRequest, committed: bool) returns (recorded: bool)
      requires state.publication == request.Stage()
      requires request.target.schemaVersion == 1 && state.Valid()
      modifies this, state
      ensures attempts == old(attempts) && begun == old(begun) && finished == old(finished) && state.Valid()
      ensures recorded <==> old(ReplyRecorded(Core(), state.publication, committed))
      ensures Core() == LedgerAfter(old(Core()), old(state.View()), Event.PublicationReply(key, committed))
      ensures AttemptEnabled(old(Core()), old(commitSerial), old(state.View()), Event.PublicationReply(key, committed))
      ensures state.View() == AttemptAfter(old(Core()), old(commitSerial), old(state.View()), Event.PublicationReply(key, committed))
      ensures commitSerial == SerialAfter(old(commitSerial), key, old(state.View()), state.View())
    {
      hide LedgerAfter, AttemptEnabled, AttemptAfter, SerialAfter, Covers, StillCurrent, ApplyTarget, HoldsSerial, RuntimeAttempt.Valid;
      recorded := false;
      if committed && Sample() == request.expectedSample {
        recorded := RecordTarget(request.expected, request.target);
      }
      if recorded {
        RecordedReplyEffect(old(Core()), old(commitSerial), old(state.View()), key, committed);
        ApplySample(request.nextSample);
        state.MovePublication(PublicationApplied, true);
      } else {
        DroppedReplyEffect(old(Core()), old(commitSerial), old(state.View()), key, committed);
        commitSerial := None;
        state.MovePublication(PublicationAbandoned, state.committerAccepted || committed);
      }
    }

    /** The section of Publish after the committer answered. */
    method PublicationReply(key: string, request: PublicationRequest, committed: bool) returns (recorded: bool)
      requires Valid() && key in attempts
      requires attempts[key].publication == request.Stage()
      modifies this, attempts[key]
      ensures Valid()
      ensures old(Enabled(State(), Event.PublicationReply(key, committed)))
      ensures State() == Step(old(State()), Event.PublicationReply(key, committed))
      ensures recorded <==> old(ReplyRecorded(Core(), attempts[key].publication, committed))
    {
      hide Inv, Enabled, Step, State, Valid, LedgerAfter, AttemptEnabled, AttemptAfter, SerialAfter, StillCurrent, RuntimeAttempt.Valid, ReplyRecorded;
      LiveObject(key);
      HolderIsSerial(key);
      RequestedTargetIsValid(key);
      recorded := AnswerPublication(attempts[key], key, request, committed);
      SectionIsStep(Event.PublicationReply(key, committed));
    }

    lemma RequestedTargetIsValid(key: string)
      requires Valid() && key in attempts && Pending(attempts[key].View()).Some?
      ensures Pending(attempts[key].View()).value.target.schemaVersion == 1
    {
      assert key in State().attempts;
    }

    /** applyDurableRestartStateLocked. */
    method ApplyDurableRestartState(restart: RestartState)
      requires restart.schemaVersion == 1
      modifies this`durableNextTerminalSequence, this`durableSequenceExhausted, this`truncatedThroughSequence, this`auditTombstones
      ensures Core() == old(Core()).(durable := restart)
    {
      durableNextTerminalSequence := restart.next;
      durableSequenceExhausted := restart.exhausted;
      truncatedThroughSequence := restart.truncated;
      auditTombstones := restart.tombstones;
    }

    // ---- terminal persistence --------------------------------------------------------------------------------

    /** The first section of persistTerminalOutcome, on the call that becomes the
        one in progress. An attempt whose publication is already durable goes
        straight to finalization. */
    method StartTerminalCommit(key: string, outcome: AttemptPhase) returns (started: bool)
      requires Valid() && key in attempts
      requires OutcomeAdmitted(attempts[key].View(), outcome)
      modifies attempts[key]
      ensures Valid()
      ensures started <==> old(Enabled(State(), StartCommit(key, outcome)))
      ensures State() == if started then Step(old(State()), StartCommit(key, outcome)) else old(State())
    {
      hide Inv, Enabled, Step, State, Valid, LedgerAfter, AttemptEnabled, AttemptAfter, SerialAfter, AttemptOk, OutcomeAdmitted;
      Live(StartCommit(key, outcome));
      var state := attempts[key];
      StartCommitEffect(Core(), commitSerial, state.View(), key, outcome);
      if state.terminalCommitInProgress || (state.terminalPersistenceErr && state.terminalOutcome != outcome) {
        return false;
      }
      state.terminalOutcome := outcome;
      state.terminalCommitInProgress := true;
      state.commit := if state.restartCommitted then CommitRecorded else CommitStarted;
      SectionIsStep(StartCommit(key, outcome));
      return true;
    }

    /** The request commitTerminalState computes under the ledger lock. */
    method PrepareTerminalCommit(state: RuntimeAttempt) returns (request: Option<TerminalRequest>)
      requires BlockReady(state.View()) && ValidLimits(limits) && LedgerReady(Core())
      ensures request == TerminalRequestOf(Core().durable, Target(Core(), state.View(), state.terminalOutcome))
    {
      hide TerminalTarget, AttemptBlock, ValidLimits;
      var records := state.TerminalTombstones(state.terminalOutcome);
      var target := TerminalRestartState(DurableRestartState(), nextTerminalSequence, sequenceExhausted, limits, records);
      return TerminalRequestOf(DurableRestartState(), target);
    }

    /** The first ledger section of commitTerminalState; a merge error is retained. */
    method RequestTerminalCommit(key: string) returns (request: Option<TerminalRequest>)
      requires Valid() && key in attempts && attempts[key].commit.CommitStarted?
      modifies attempts[key]
      ensures Valid()
      ensures old(Enabled(State(), RequestCommit(key))) && State() == Step(old(State()), RequestCommit(key))
      ensures attempts[key].commit == RequestedCommit(request)
    {
      hide Inv, Enabled, Step, State, Valid, LedgerAfter, AttemptEnabled, AttemptAfter, SerialAfter, AttemptOk, Activated;
      hide TerminalTarget, AttemptBlock, BlockReady, Target;
      Live(RequestCommit(key));
      LiveAttempt(key);
      RequestReady(Core(), attempts[key].View());
      CommitRequestEffect(Core(), commitSerial, attempts[key].View(), key);
      request := PrepareTerminalCommit(attempts[key]);
      attempts[key].MoveCommit(RequestedCommit(request), request.None?);
      SectionIsStep(RequestCommit(key));
    }

    /** The ledger section after CommitTerminalState returned. */
    method TerminalCommitReply(key: string, request: TerminalRequest, ok: bool) returns (recorded: bool)
      requires Valid() && key in attempts && attempts[key].commit == CommitRequested(request.expected, request.target)
      modifies this, attempts[key]
      ensures Valid()
      ensures old(Enabled(State(), CommitReply(key, ok))) && State() == Step(old(State()), CommitReply(key, ok))
      ensures recorded <==> ok && old(StillCurrent(Core(), request.expected, request.target))
    {
      hide Inv, Enabled, Step, State, Valid, LedgerAfter, AttemptEnabled, AttemptAfter, SerialAfter, StillCurrent, ApplyTarget;
      hide RuntimeAttempt.Valid;
      LiveObject(key);
      CommitTargetIsValid(key);
      recorded := false;
      if ok {
        recorded := RecordTarget(request.expected, request.target);
      }
      CommitReplyEffect(old(Core()), old(commitSerial), old(attempts[key].View()), key, ok);
      attempts[key].MoveCommit(if recorded then CommitApplied else CommitFailed, !recorded);
      SectionIsStep(CommitReply(key, ok));
    }

    lemma CommitTargetIsValid(key: string)
      requires Valid() && key in attempts && attempts[key].commit.CommitRequested?
      ensures attempts[key].commit.target.schemaVersion == 1
    {
      hide Valid, AttemptOk, Inv;
      LiveAttempt(key);
      CommitIsPending(attempts[key].View(), limits);
      RequestedTargetIsValid(key);
    }

    /** What setting restartCommitted releases: the publication token, if held. */
    method RecordRestartCommitted(state: RuntimeAttempt, key: string)
      requires AttemptOk(state.View(), limits) && state.Valid()
      requires HoldsSerial(state.View()) <==> commitSerial == Some(key)
      requires state.publication.PublicationApplied? || state.commit.CommitApplied?
      modifies this`commitSerial, state
      ensures state.Valid()
      ensures AttemptEnabled(Core(), old(commitSerial), old(state.View()), MarkCommitted(key))
      ensures state.View() == AttemptAfter(Core(), old(commitSerial), old(state.View()), MarkCommitted(key))
      ensures commitSerial == SerialAfter(old(commitSerial), key, old(state.View()), state.View())
    {
      hide AttemptEnabled, AttemptAfter, SerialAfter, AttemptOk;
      MarkEffect(Core(), commitSerial, state.View(), key);
      MarkEffect(old(Core()), commitSerial, state.View(), key);
      state.restartCommitted := true;
      if commitSerial == Some(key) {
        commitSerial := None;
        state.publication := PublicationRecorded;
      } else {
        state.commit := CommitRecorded;
      }
    }

    /** Setting restartCommitted, in its own section after the ledger's. */
    method MarkRestartCommitted(key: string)
      requires Valid() && key in attempts
      requires attempts[key].publication.PublicationApplied? || attempts[key].commit.CommitApplied?
      modifies this`commitSerial, attempts[key]
      ensures Valid()
      ensures old(Enabled(State(), MarkCommitted(key))) && State() == Step(old(State()), MarkCommitted(key))
    {
      hide Inv, Enabled, Step, State, Valid, LedgerAfter, AttemptEnabled, AttemptAfter, SerialAfter, AttemptOk, RuntimeAttempt.Valid;
      Live(MarkCommitted(key));
      LiveAttempt(key);
      HolderIsSerial(key);
      RecordRestartCommitted(attempts[key], key);
      SectionIsStep(MarkCommitted(key));
    }

    /** finalizeTerminalAttempt: the refusal is never taken, and the attempt's
        key and capacity become reusable in the same section. */
    method FinalizeTerminalAttempt(key: string) returns (finalized: bool)
      requires Valid() && key in attempts && attempts[key].commit.CommitRecorded?
      modifies this, attempts[key]
      ensures Valid() && finalized
      ensures old(Enabled(State(), Finalize(key))) && State() == Step(old(State()), Finalize(key))
      ensures attempts == old(attempts) - {key} && old(attempts[key]).phase == old(attempts[key].terminalOutcome)
    {
      hide Inv, Enabled, Step, State, Valid, AttemptOk, LedgerAfter, AttemptEnabled, LedgerReady, Activated;
      Live(Finalize(key));
      LiveAttempt(key);
      FinalizeEffect(Core(), commitSerial, attempts[key].View(), key);
      var state := attempts[key];
      finalized := state.inProgressClaims == 0 && state.terminalCommitInProgress && (state.phase == Cancelling || state.phase == Publishing);
      if finalized {
        finished := finished[state.terminalSequence := Finished(state.View().Outcomes(), state.terminalOutcome, state.committerAccepted)];
        retainedClaims := retainedClaims - |state.entries|;
        attempts := attempts - {key};
        state.Clear();
        FinalizeIsStep(Finalize(key));
      }
    }

    twostate lemma FinalizeIsStep(e: Event)
      requires old(Valid()) && e.Finalize? && old(Enabled(State(), e))
      requires attempts == old(attempts) - {e.key} && forall k :: k in attempts ==> unchanged(attempts[k])
      requires Core() == LedgerAfterFinalize(old(Core()), |old(attempts[e.key].entries)|)
      requires commitSerial == old(commitSerial) && begun == old(begun)
      requires old(attempts[e.key].View().AllResolved())
      requires var a := old(attempts[e.key].View());
        finished == old(finished)[a.first := Finished(a.Outcomes(), a.terminalOutcome, a.committerAccepted)]
      ensures State() == Step(old(State()), e) && Valid()
    {
      hide Inv, RuntimeAttempt.Valid;
      StepPreserves(old(State()), e);
      assert Views() == old(Views()) - {e.key};
    }

    // ---- export ------------------------------------------------------------------------------------------------

    method ExportRestartState() returns (restart: Result<RestartState>)
      requires Valid()
      ensures restart == Export(State())
    {
      ViewsCount();
      if attempts != map[] || retainedClaims != 0 {
        return Err;
      }
      if nextTerminalSequence != durableNextTerminalSequence || sequenceExhausted != durableSequenceExhausted {
        return Err;
      }
      return Ok(DurableRestartState());
    }
  }

  ghost function ClampedEnd(restart: RestartState): uint64 {
    if EndSequence(restart) < 0 then 0 else EndSequence(restart)
  }

  /** newSampleLedger: activation succeeds exactly when the specification admits
      the inputs, and a new ledger starts a protocol run. */
  method NewSampleLedger(sample: SampleState, trustedMinimum: uint64, limits: LedgerLimits, restart: Option<RestartState>)
    returns (ledger: Option<SampleLedger>)
    ensures ledger.Some? <==> NewLedger(sample, trustedMinimum, limits, restart).Ok?
    ensures ledger.Some? ==> fresh(ledger.value) && ledger.value.Valid()
    ensures ledger.Some? ==> Initial(ledger.value.State(), sample, trustedMinimum, limits, restart)
  {
    hide Inv, ValidHistory;
    var ok := ActivateLimits(limits);
    if !ok || !ValidSample(sample, trustedMinimum) || (sample.revision != 0 && restart.None?) {
      return None;
    }
    var state := FreshRestart;
    if restart.Some? {
      state := restart.value;
      var valid := ValidateLedgerRestartState(state, limits);
      if !valid {
        return None;
      }
      var related := SampleRestartRelationship(sample, state);
      if !related {
        return None;
      }
    }
    var created := new SampleLedger.Activate(sample, limits, state);
    assert created.Core() == NewLedger(sample, trustedMinimum, limits, restart).value;
    assert created.Views() == map[];
    NewLedgerOk(sample, trustedMinimum, limits, restart);
    InitialInvariant(created.State(), sample, trustedMinimum, limits, restart);
    return Some(created);
  }
}
