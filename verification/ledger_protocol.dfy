/** The attempt ledger as a concurrent protocol. Every lock-held section of the
    source is one event; committer calls are split into the request computed
    under the lock and the reply processed under it, and the committer's answer
    is part of the event, so every interleaving is a sequence of events. */
module LedgerProtocol {
  import opened Foundation
  import opened LedgerTypes
  import opened RestartHistory
  import opened TerminalMerge

  /** PollGenerationID zero is the absent identity. */
  datatype AttemptIdentity = AttemptIdentity(generation: uint64, retry: nat)

  datatype SampleState = SampleState(revision: uint64, highWater: uint64, lastCommitted: AttemptIdentity)

  /** The fields SampleLedger guards with its mutex, other than the attempt map. */
  datatype Ledger = Ledger(
    limits: LedgerLimits,
    sample: SampleState,
    next: uint64,
    exhausted: bool,
    durable: RestartState,
    retainedClaims: int)

  datatype ClaimState = Unresolved | InProgress | Resolved(outcome: ClaimOutcome)

  /** calls counts the producer capability calls of this ordinal. */
  datatype ClaimEntry = ClaimEntry(state: ClaimState, sequence: uint64, calls: nat)

  /** Where the one Publish call of an attempt stands. */
  datatype Publication =
    | NotPublishing
    | Waiting
    | Holding
    | PublicationRequested(expectedSample: SampleState, nextSample: SampleState, expected: RestartState, target: RestartState)
    | PublicationApplied
    | PublicationRecorded
    | PublicationAbandoned

  /** Where the one terminal-persistence call of an attempt stands; CommitFailed
      is the retained terminalPersistenceErr. */
  datatype Commit =
    | CommitIdle
    | CommitStarted
    | CommitRequested(expected: RestartState, target: RestartState)
    | CommitApplied
    | CommitRecorded
    | CommitFailed

  datatype Attempt = Attempt(
    identity: AttemptIdentity,
    first: uint64,
    entries: seq<ClaimEntry>,
    phase: AttemptPhase,
    admitted: bool,
    drained: bool,
    publication: Publication,
    commit: Commit,
    terminalOutcome: AttemptPhase,
    restartCommitted: bool,
    committerAccepted: bool,
    publicationCalls: nat)
  {
    /** Last sequence of the attempt's reserved block. */
    function Last(): int { first + |entries| }

    predicate AllResolved() {
      forall i :: 0 <= i < |entries| ==> entries[i].state.Resolved?
    }

    predicate AllSucceeded() {
      forall i :: 0 <= i < |entries| ==> entries[i].state == Resolved(ClaimSucceeded)
    }

    predicate NoneInProgress() {
      forall i :: 0 <= i < |entries| ==> !entries[i].state.InProgress?
    }

    function Outcomes(): (outcomes: seq<ClaimOutcome>)
      requires AllResolved()
      ensures |outcomes| == |entries|
      ensures forall i :: 0 <= i < |entries| ==> outcomes[i] == entries[i].state.outcome
    {
      seq(|entries|, i requires 0 <= i < |entries| => entries[i].state.outcome)
    }

    /** The durable state already accounts for this attempt. */
    predicate Committed() {
      publication.PublicationApplied? || publication.PublicationRecorded? || commit.CommitApplied? || commit.CommitRecorded?
    }

    /** The sample revision already counts this attempt. */
    predicate Counted() {
      publication.PublicationApplied? || publication.PublicationRecorded?
    }

    predicate CommitInProgress() {
      !commit.CommitIdle? && !commit.CommitFailed?
    }
  }

  datatype Finished = Finished(outcomes: seq<ClaimOutcome>, outcome: AttemptPhase, committerAccepted: bool)

  datatype Begun = Begun(first: uint64, claims: nat)

  /** The whole system: the ledger, the live attempts by key, the holder of the
      publication token, and the history of every attempt ever begun. */
  datatype System = System(
    ledger: Ledger,
    attempts: map<string, Attempt>,
    serial: Option<string>,
    base: uint64,
    begun: seq<Begun>,
    finished: map<int, Finished>)

  // ---- sections of the source ---------------------------------------------------------

  function MemoryEnd(ledger: Ledger): int {
    WatermarkEnd(ledger.next, ledger.exhausted)
  }

  predicate BatchAvailable(next: uint64, exhausted: bool, claims: int) {
    !exhausted && next != 0 && claims > 0 && claims <= MAX_UINT64 - next
  }

  /** reserveTerminalBatchLocked: one attempt sequence plus one per claim. */
  function Reserve(ledger: Ledger, claims: nat): Ledger
    requires BatchAvailable(ledger.next, ledger.exhausted, claims)
  {
    if ledger.next + claims == MAX_UINT64 then ledger.(next := 0, exhausted := true)
    else ledger.(next := ledger.next + claims + 1)
  }

  predicate IdentityAdvances(previous: AttemptIdentity, next: AttemptIdentity) {
    next.generation != 0 && (previous.generation == 0 || next.generation > previous.generation)
  }

  predicate ValidSample(sample: SampleState, trustedMinimum: uint64) {
    && sample.revision == sample.highWater
    && sample.revision >= trustedMinimum
    && (sample.revision == 0 ==> sample.lastCommitted == AttemptIdentity(0, 0))
    && (sample.revision != 0 ==> sample.lastCommitted.generation != 0 && sample.lastCommitted.generation >= sample.revision)
    && (sample.lastCommitted.generation == 0 ==> sample.lastCommitted.retry == 0)
  }

  /** validateSampleRestartRelationship. */
  predicate SampleAgrees(sample: SampleState, restart: RestartState) {
    var published := PublishedCount(restart.tombstones);
    && (if restart.truncated == 0 then published == sample.revision else published <= sample.revision)
    && (sample.revision == 0 ||
        (sample.revision <= MAX_UINT64 / 2 && (restart.exhausted || restart.next - 1 >= sample.revision * 2)))
  }

  const FreshRestart := RestartState(1, 1, false, 0, [])

  /** newSampleLedger. */
  function NewLedger(sample: SampleState, trustedMinimum: uint64, limits: LedgerLimits, restart: Option<RestartState>): Result<Ledger> {
    if !LimitsAccepted(limits) || !ValidSample(sample, trustedMinimum) || (sample.revision != 0 && restart.None?) then Err
    else if restart.None? then Ok(Ledger(limits, sample, 1, false, FreshRestart, 0))
    else if !ValidRestart(restart.value, limits) || !SampleAgrees(sample, restart.value) then Err
    else Ok(Ledger(limits, sample, restart.value.next, restart.value.exhausted, restart.value, 0))
  }

  /** ExportRestartState. */
  function Export(s: System): Result<RestartState> {
    if s.attempts != map[] || s.ledger.retainedClaims != 0 then Err
    else if s.ledger.next != s.ledger.durable.next || s.ledger.exhausted != s.ledger.durable.exhausted then Err
    else Ok(s.ledger.durable)
  }

  /** The post-commit check: the durable state is the expected one or already covers the target. */
  predicate StillCurrent(ledger: Ledger, expected: RestartState, target: RestartState) {
    ledger.durable == expected || Covers(ledger.durable, target)
  }

  function ApplyTarget(ledger: Ledger, target: RestartState): Ledger {
    if Covers(ledger.durable, target) then ledger else ledger.(durable := target)
  }

  /** The attempt's terminal tombstones for an outcome. */
  function Block(a: Attempt, outcome: AttemptPhase): seq<Tombstone>
    requires a.AllResolved() && a.Last() <= MAX_UINT64
  {
    AttemptBlock(a.first, outcome, a.Outcomes())
  }

  function Target(ledger: Ledger, a: Attempt, outcome: AttemptPhase): Result<RestartState>
    requires a.AllResolved() && a.Last() <= MAX_UINT64
    requires ValidLimits(ledger.limits) && (ledger.exhausted <==> ledger.next == 0)
  {
    TerminalTarget(ledger.durable, ledger.next, ledger.exhausted, ledger.limits, Block(a, outcome))
  }

  // ---- events ----------------------------------------------------------------------------

  datatype Event =
    | Begin(key: string, identity: AttemptIdentity, claims: nat)
    | Admit(key: string)
    | RejectAdmission(key: string, admitted: bool)
    | StartClaim(key: string, ordinal: nat)
    | EndClaim(key: string, ordinal: nat, outcome: ClaimOutcome)
    | Seal(key: string)
    | StartCancel(key: string)
    | Drain(key: string)
    | StartPublish(key: string)
    | TakeSerial(key: string)
    | AbandonPublication(key: string)
    | RequestPublication(key: string)
    | PublicationReply(key: string, committed: bool)
    | StartCommit(key: string, terminal: AttemptPhase)
    | RequestCommit(key: string)
    | CommitReply(key: string, ok: bool)
    | MarkCommitted(key: string)
    | Finalize(key: string)
    | Restart(limits: LedgerLimits, trustedMinimum: uint64)

  predicate BeginEnabled(s: System, key: string, identity: AttemptIdentity, claims: nat) {
    && identity.generation != 0
    && (s.ledger.sample.lastCommitted.generation == 0 || identity.generation > s.ledger.sample.lastCommitted.generation)
    && claims <= s.ledger.limits.maxClaimEntriesPerAttempt
    && key !in s.attempts
    && |s.attempts| < s.ledger.limits.maxRetainedAttempts
    && s.ledger.retainedClaims + claims <= s.ledger.limits.maxRetainedClaimEntries
    && BatchAvailable(s.ledger.next, s.ledger.exhausted, claims)
  }

  /** Which terminal outcome the running call may persist. */
  predicate OutcomeAdmitted(a: Attempt, outcome: AttemptPhase) {
    match a.phase
    case Publishing =>
      (outcome.Published? && a.publication.PublicationRecorded?) || (outcome.PublishFailed? && a.publication.PublicationAbandoned?)
    case Cancelling => a.drained && (outcome.Cancelled? || outcome.CancelFailed?)
    case _ => false
  }

  predicate AttemptEnabled(ledger: Ledger, serial: Option<string>, a: Attempt, e: Event)
  {
    match e
    case Admit(_) => a.phase.Open? && !a.admitted && a.NoneInProgress()
    case RejectAdmission(_, _) => a.phase.Open? && !a.admitted && a.NoneInProgress()
    case StartClaim(_, ordinal) =>
      a.phase.Open? && a.admitted && ordinal < |a.entries| && a.entries[ordinal].state.Unresolved?
    case EndClaim(_, ordinal, _) => ordinal < |a.entries| && a.entries[ordinal].state.InProgress?
    case Seal(_) => a.phase.Open? && a.admitted && |a.entries| > 0 && a.AllSucceeded()
    case StartCancel(_) => a.phase.Open? || a.phase.Sealed?
    case Drain(_) => a.phase.Cancelling? && a.NoneInProgress()
    case StartPublish(_) => a.phase.Sealed?
    case TakeSerial(_) => a.publication.Waiting? && serial.None?
    case AbandonPublication(_) => a.publication.Waiting? || a.publication.Holding?
    case RequestPublication(_) =>
      && a.publication.Holding? && a.AllResolved() && a.Last() <= MAX_UINT64
      && ledger.sample.revision != MAX_UINT64 && ledger.sample.highWater != MAX_UINT64
      && IdentityAdvances(ledger.sample.lastCommitted, a.identity)
      && ValidLimits(ledger.limits) && (ledger.exhausted <==> ledger.next == 0)
      && Target(ledger, a, Published).Ok?
    case PublicationReply(_, _) => a.publication.PublicationRequested?
    case StartCommit(_, outcome) =>
      OutcomeAdmitted(a, outcome) && (a.commit.CommitIdle? || (a.commit.CommitFailed? && a.terminalOutcome == outcome))
    case RequestCommit(_) =>
      && a.commit.CommitStarted? && a.AllResolved() && a.Last() <= MAX_UINT64
      && ValidLimits(ledger.limits) && (ledger.exhausted <==> ledger.next == 0)
    case CommitReply(_, _) => a.commit.CommitRequested?
    case MarkCommitted(_) => a.publication.PublicationApplied? || a.commit.CommitApplied?
    case Finalize(_) =>
      && a.commit.CommitRecorded? && a.NoneInProgress() && a.AllResolved()
      && (a.phase.Cancelling? || a.phase.Publishing?) && TerminalPhase(a.terminalOutcome)
    case _ => false
  }

  predicate Enabled(s: System, e: Event) {
    match e
    case Begin(key, identity, claims) => BeginEnabled(s, key, identity, claims)
    case Restart(limits, trustedMinimum) =>
      && Export(s).Ok?
      && NewLedger(s.ledger.sample, trustedMinimum, limits, Some(Export(s).value)).Ok?
    case _ => e.key in s.attempts && AttemptEnabled(s.ledger, s.serial, s.attempts[e.key], e)
  }

  function NewAttempt(first: uint64, identity: AttemptIdentity, claims: nat): Attempt
    requires first + claims <= MAX_UINT64
  {
    Attempt(identity, first, seq(claims, i requires 0 <= i < claims => ClaimEntry(Unresolved, first + 1 + i, 0)),
            Open, false, false, NotPublishing, CommitIdle, Open, false, false, 0)
  }

  function CancelUnresolved(entries: seq<ClaimEntry>): (cancelled: seq<ClaimEntry>)
    ensures |cancelled| == |entries|
  {
    seq(|entries|, i requires 0 <= i < |entries| =>
      if entries[i].state.Unresolved? then entries[i].(state := Resolved(ClaimAttemptCancelled)) else entries[i])
  }

  function AdvanceSample(sample: SampleState, identity: AttemptIdentity): SampleState
    requires sample.revision != MAX_UINT64 && sample.highWater != MAX_UINT64
  {
    SampleState(sample.revision + 1, sample.highWater + 1, identity)
  }

  /** What the event does to its own attempt. */
  function AttemptAfter(ledger: Ledger, serial: Option<string>, a: Attempt, e: Event): Attempt
    requires AttemptEnabled(ledger, serial, a, e)
  {
    match e
    case Admit(_) => a.(admitted := true)
    case RejectAdmission(_, admitted) =>
      a.(admitted := admitted, phase := Cancelling, entries := if admitted then a.entries else CancelUnresolved(a.entries))
    case StartClaim(_, ordinal) =>
      var entry := a.entries[ordinal];
      a.(entries := a.entries[ordinal := entry.(state := InProgress, calls := entry.calls + 1)])
    case EndClaim(_, ordinal, outcome) =>
      a.(entries := a.entries[ordinal := a.entries[ordinal].(state := Resolved(outcome))])
    case Seal(_) => a.(phase := Sealed)
    case StartCancel(_) => a.(phase := Cancelling)
    case Drain(_) => a.(entries := CancelUnresolved(a.entries), drained := true)
    case StartPublish(_) => a.(phase := Publishing, publication := Waiting)
    case TakeSerial(_) => a.(publication := Holding)
    case AbandonPublication(_) => a.(publication := PublicationAbandoned)
    case RequestPublication(_) =>
      a.(publication := PublicationRequested(ledger.sample, AdvanceSample(ledger.sample, a.identity), ledger.durable, Target(ledger, a, Published).value),
         publicationCalls := a.publicationCalls + 1)
    case PublicationReply(_, committed) =>
      var p := a.publication;
      if !committed then a.(publication := PublicationAbandoned)
      else if ledger.sample == p.expectedSample && StillCurrent(ledger, p.expected, p.target) then
        a.(publication := PublicationApplied, committerAccepted := true)
      else
        a.(publication := PublicationAbandoned, committerAccepted := true)
    case StartCommit(_, outcome) =>
      a.(terminalOutcome := outcome, commit := if a.restartCommitted then CommitRecorded else CommitStarted)
    case RequestCommit(_) =>
      var target := Target(ledger, a, a.terminalOutcome);
      a.(commit := if target.Ok? then CommitRequested(ledger.durable, target.value) else CommitFailed)
    case CommitReply(_, ok) =>
      a.(commit := if ok && StillCurrent(ledger, a.commit.expected, a.commit.target) then CommitApplied else CommitFailed)
    case MarkCommitted(_) =>
      if a.publication.PublicationApplied? then a.(publication := PublicationRecorded, restartCommitted := true)
      else a.(commit := CommitRecorded, restartCommitted := true)
    case _ => a
  }

  /** What the event does to the ledger. */
  function LedgerAfter(ledger: Ledger, a: Attempt, e: Event): Ledger {
    match e
    case PublicationReply(_, committed) =>
      if committed && a.publication.PublicationRequested? && ledger.sample == a.publication.expectedSample &&
         StillCurrent(ledger, a.publication.expected, a.publication.target)
      then ApplyTarget(ledger.(sample := a.publication.nextSample), a.publication.target)
      else ledger
    case CommitReply(_, ok) =>
      if ok && a.commit.CommitRequested? && StillCurrent(ledger, a.commit.expected, a.commit.target)
      then ApplyTarget(ledger, a.commit.target)
      else ledger
    case _ => ledger
  }

  predicate HoldsSerial(a: Attempt) {
    a.publication.Holding? || a.publication.PublicationRequested? || a.publication.PublicationApplied?
  }

  /** The publication token is taken on entering Holding and released on leaving
      the stages that hold it. */
  function SerialAfter(serial: Option<string>, key: string, before: Attempt, after: Attempt): Option<string> {
    if !HoldsSerial(before) && HoldsSerial(after) then Some(key)
    else if HoldsSerial(before) && !HoldsSerial(after) then None
    else serial
  }

  function BeginStep(s: System, key: string, identity: AttemptIdentity, claims: nat): System
    requires BatchAvailable(s.ledger.next, s.ledger.exhausted, claims)
  {
    s.(ledger := Reserve(s.ledger, claims).(retainedClaims := s.ledger.retainedClaims + claims),
       attempts := s.attempts[key := NewAttempt(s.ledger.next, identity, claims)],
       begun := s.begun + [Begun(s.ledger.next, claims)])
  }

  function FinalizeStep(s: System, key: string): System
    requires key in s.attempts && s.attempts[key].AllResolved()
  {
    var a := s.attempts[key];
    s.(ledger := s.ledger.(retainedClaims := s.ledger.retainedClaims - |a.entries|),
       attempts := s.attempts - {key},
       finished := s.finished[a.first := Finished(a.Outcomes(), a.terminalOutcome, a.committerAccepted)])
  }

  function RestartStep(s: System, limits: LedgerLimits, trustedMinimum: uint64): System
    requires Export(s).Ok? && NewLedger(s.ledger.sample, trustedMinimum, limits, Some(Export(s).value)).Ok?
  {
    s.(ledger := NewLedger(s.ledger.sample, trustedMinimum, limits, Some(Export(s).value)).value, serial := None)
  }

  /** An event of one live attempt. */
  function AttemptStep(s: System, key: string, e: Event): System
    requires key in s.attempts && AttemptEnabled(s.ledger, s.serial, s.attempts[key], e)
  {
    var a := s.attempts[key];
    s.(ledger := LedgerAfter(s.ledger, a, e),
       attempts := s.attempts[key := AttemptAfter(s.ledger, s.serial, a, e)],
       serial := SerialAfter(s.serial, key, a, AttemptAfter(s.ledger, s.serial, a, e)))
  }

  function Step(s: System, e: Event): System
    requires Enabled(s, e)
  {
    match e
    case Begin(key, identity, claims) => BeginStep(s, key, identity, claims)
    case Finalize(key) => FinalizeStep(s, key)
    case Restart(limits, trustedMinimum) => RestartStep(s, limits, trustedMinimum)
    case _ => AttemptStep(s, e.key, e)
  }

  predicate Initial(s: System, sample: SampleState, trustedMinimum: uint64, limits: LedgerLimits, restart: Option<RestartState>) {
    var ledger := NewLedger(sample, trustedMinimum, limits, restart);
    && ledger.Ok?
    && s == System(ledger.value, map[], None, MemoryEnd(ledger.value), [], map[])
  }

  /** A run: every event is enabled where it happens. */
  predicate Legal(s: System, events: seq<Event>)
    decreases |events|
  {
    |events| == 0 || (Enabled(s, events[0]) && Legal(Step(s, events[0]), events[1..]))
  }

  function Exec(s: System, events: seq<Event>): System
    requires Legal(s, events)
    decreases |events|
  {
    if |events| == 0 then s else Exec(Step(s, events[0]), events[1..])
  }
}
