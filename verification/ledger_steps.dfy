/** Every event preserves the ledger invariant and never moves the durable state back. */
module LedgerSteps {
  import opened Foundation
  import opened LedgerTypes
  import opened RestartHistory
  import opened TerminalMerge
  import opened LedgerProtocol
  import opened LedgerInvariant

  // ---- events that leave the ledger alone ---------------------------------------------

  /** What the ledger, the other attempts and the audit history can see of an attempt. */
  predicate SameReservation(a: Attempt, b: Attempt) {
    && b.first == a.first && |b.entries| == |a.entries|
    && b.Committed() == a.Committed() && b.Counted() == a.Counted()
    && (a.Committed() ==> b.entries == a.entries && RecordedOutcome(b) == RecordedOutcome(a))
  }

  predicate NoNewRequest(a: Attempt, b: Attempt) {
    Pending(b).Some? ==> Pending(b) == Pending(a) && b.entries == a.entries
  }

  /** t is s with attempt k replaced and the token possibly moved. */
  predicate LocalChange(s: System, t: System, k: string, b: Attempt) {
    && k in s.attempts && SameReservation(s.attempts[k], b) && AttemptOk(b, s.ledger.limits)
    && t == s.(attempts := s.attempts[k := b], serial := t.serial)
  }

  /** Replacing an attempt by one with the same block keeps the blocks disjoint. */
  lemma SameBlockDisjoint(attempts: map<string, Attempt>, k: string, b: Attempt)
    requires Disjoint(attempts) && k in attempts
    requires b.first == attempts[k].first && |b.entries| == |attempts[k].entries|
    ensures Disjoint(attempts[k := b])
  {
    var after := attempts[k := b];
    forall i, j | i in after && j in after && i != j
      ensures after[i].Last() < after[j].first || after[j].Last() < after[i].first
    {
      assert attempts[i].Last() < attempts[j].first || attempts[j].Last() < attempts[i].first;
    }
  }

  lemma LocalLayout(s: System, t: System, k: string, b: Attempt)
    requires AttemptsOk(s) && Disjoint(s.attempts) && AllApart(s.ledger.durable, s.attempts) && LocalChange(s, t, k, b)
    ensures AttemptsOk(t) && Disjoint(t.attempts) && AllApart(t.ledger.durable, t.attempts)
  {
    hide AttemptOk, Apart, RecordedOutcome, Disjoint;
    SameBlockDisjoint(s.attempts, k, b);
  }

  lemma LocalPending(s: System, t: System, k: string, b: Attempt)
    requires AllPendingOk(s.ledger, s.attempts) && TargetsApart(s.attempts) && LocalChange(s, t, k, b)
    requires NoNewRequest(s.attempts[k], b)
    ensures AllPendingOk(t.ledger, t.attempts) && TargetsApart(t.attempts)
  {
  }

  lemma LocalNewest(s: System, t: System, k: string, b: Attempt)
    requires NewestOpen(s) && LocalChange(s, t, k, b)
    ensures NewestOpen(t)
  {
    if j :| OpenUpTo(s.attempts, j, MemoryEnd(s.ledger)) {
      assert OpenUpTo(t.attempts, j, MemoryEnd(t.ledger));
    }
  }

  lemma LocalTotals(s: System, t: System, k: string, b: Attempt)
    requires Capacity(s) && Consumption(s) && LocalChange(s, t, k, b)
    ensures Capacity(t) && Consumption(t)
  {
    TotalUpdate(s.attempts, ClaimWeight, k, b);
    TotalUpdate(s.attempts, OwedWeight, k, b);
    assert t.attempts.Keys == s.attempts.Keys;
  }

  lemma LiveUnchanged(s: System, t: System, k: string, b: Attempt, x: Begun)
    requires k in s.attempts && t.attempts == s.attempts[k := b]
    requires b.first == s.attempts[k].first && |b.entries| == |s.attempts[k].entries|
    ensures IsLive(t.attempts, x) <==> IsLive(s.attempts, x)
  {
    if IsLive(s.attempts, x) {
      var j :| j in s.attempts && s.attempts[j].first == x.first && |s.attempts[j].entries| == x.claims;
      assert j in t.attempts && t.attempts[j].first == x.first;
    }
    if IsLive(t.attempts, x) {
      var j :| j in t.attempts && t.attempts[j].first == x.first && |t.attempts[j].entries| == x.claims;
      assert j in s.attempts && s.attempts[j].first == x.first;
    }
  }

  lemma LocalHistory(s: System, t: System, k: string, b: Attempt)
    requires Accounted(s) && AuditTrue(s) && LocalChange(s, t, k, b)
    ensures Accounted(t) && AuditTrue(t)
  {
    forall x | x in s.begun
      ensures IsLive(t.attempts, x) <==> IsLive(s.attempts, x)
    {
      LiveUnchanged(s, t, k, b, x);
    }
    forall r, j | FromLive(s.attempts, r, j)
      ensures FromLive(t.attempts, r, j)
    {
    }
  }

  lemma LocalStep(s: System, t: System, k: string, b: Attempt)
    requires Inv(s) && LocalChange(s, t, k, b) && NoNewRequest(s.attempts[k], b) && SerialOk(t)
    ensures Inv(t)
  {
    LocalLayout(s, t, k, b);
    LocalPending(s, t, k, b);
    LocalNewest(s, t, k, b);
    LocalTotals(s, t, k, b);
    LocalHistory(s, t, k, b);
  }

  /** Events that neither move the ledger nor place a request. */
  predicate IsLocal(ledger: Ledger, serial: Option<string>, a: Attempt, e: Event)
    requires AttemptEnabled(ledger, serial, a, e)
  {
    var b := AttemptAfter(ledger, serial, a, e);
    && !e.Finalize?
    && !b.publication.PublicationRequested? && (b.Committed() ==> a.Committed())
    && (b.commit.CommitRequested? ==> a.commit.CommitRequested?)
  }

  lemma LocalFootprint(ledger: Ledger, serial: Option<string>, a: Attempt, e: Event)
    requires AttemptOk(a, ledger.limits) && AttemptEnabled(ledger, serial, a, e) && IsLocal(ledger, serial, a, e)
    ensures SameReservation(a, AttemptAfter(ledger, serial, a, e)) && NoNewRequest(a, AttemptAfter(ledger, serial, a, e))
    ensures LedgerAfter(ledger, a, e) == ledger
  {
    hide TerminalTarget, Covers, AttemptBlock, ValidLimits;
    if e.Drain? && a.AllResolved() {
      assert CancelUnresolved(a.entries) == a.entries;
    }
  }

  lemma TokenStage(ledger: Ledger, serial: Option<string>, a: Attempt, e: Event)
    requires AttemptOk(a, ledger.limits) && AttemptEnabled(ledger, serial, a, e) && IsLocal(ledger, serial, a, e)
    ensures var b := AttemptAfter(ledger, serial, a, e);
      && (HoldsSerial(b) && !HoldsSerial(a) ==> serial.None?)
      && !b.publication.PublicationRequested?
  {
    hide TerminalTarget, Covers, AttemptBlock, ValidLimits, AdvanceSample, EntriesOk, Target, Block, OutcomeAdmitted;
  }

  lemma TokenMoves(s: System, k: string, e: Event)
    requires SerialOk(s) && k in s.attempts && AttemptOk(s.attempts[k], s.ledger.limits)
    requires AttemptEnabled(s.ledger, s.serial, s.attempts[k], e) && IsLocal(s.ledger, s.serial, s.attempts[k], e)
    requires LedgerAfter(s.ledger, s.attempts[k], e) == s.ledger
    ensures SerialOk(AttemptStep(s, k, e))
  {
    hide TerminalTarget, Covers, AttemptBlock, ValidLimits, AdvanceSample, EntriesOk, Target, Block, SampleRequestOk, OutcomeAdmitted;
    var a := s.attempts[k];
    var b := AttemptAfter(s.ledger, s.serial, a, e);
    TokenStage(s.ledger, s.serial, a, e);
    hide AttemptAfter, AttemptOk, AttemptEnabled, LedgerAfter, IsLocal;
    var t := AttemptStep(s, k, e);
    assert t.attempts == s.attempts[k := b] && t.ledger == s.ledger && t.serial == SerialAfter(s.serial, k, a, b);
  }

  lemma LocalEvent(s: System, k: string, e: Event)
    requires Inv(s) && k in s.attempts && AttemptEnabled(s.ledger, s.serial, s.attempts[k], e)
    requires IsLocal(s.ledger, s.serial, s.attempts[k], e)
    ensures Inv(AttemptStep(s, k, e)) && AttemptStep(s, k, e).ledger == s.ledger
  {
    var a := s.attempts[k];
    LocalFootprint(s.ledger, s.serial, a, e);
    AttemptStaysOk(s.ledger, s.serial, a, e);
    TokenMoves(s, k, e);
    LocalStep(s, AttemptStep(s, k, e), k, AttemptAfter(s.ledger, s.serial, a, e));
  }

  // ---- placing a committer request -------------------------------------------------------

  lemma BlockIsLive(ledger: Ledger, a: Attempt, outcome: AttemptPhase)
    requires LedgerOk(ledger) && AttemptOk(a, ledger.limits) && a.AllResolved()
    requires a.Last() <= MemoryEnd(ledger) && Apart(a.first, a.Last(), ledger.durable)
    requires BlockOutcomes(outcome, a.Outcomes())
    ensures Durable(ledger.durable, ledger.limits)
    ensures LiveBlock(ledger.durable, MemoryEnd(ledger), ledger.limits, Block(a, outcome))
    ensures var block := Block(a, outcome); block[0].sequence == a.first && block[|block| - 1].sequence == a.Last()
  {
    AttemptBlockValid(ledger.limits, a.first, outcome, a.Outcomes());
  }

  lemma RequestIsSound(ledger: Ledger, a: Attempt, outcome: AttemptPhase)
    requires LedgerOk(ledger) && AttemptOk(a, ledger.limits) && a.AllResolved()
    requires a.Last() <= MemoryEnd(ledger) && Apart(a.first, a.Last(), ledger.durable)
    requires BlockOutcomes(outcome, a.Outcomes())
    ensures var target := Target(ledger, a, outcome);
      target.Ok? ==> PendingOk(ledger.limits, MemoryEnd(ledger), a, PendingTarget(ledger.durable, target.value, outcome))
  {
    BlockIsLive(ledger, a, outcome);
    TargetCovers(ledger.durable, ledger.next, ledger.exhausted, ledger.limits, Block(a, outcome));
    TargetPublications(ledger.durable, ledger.next, ledger.exhausted, ledger.limits, Block(a, outcome));
    BlockPublishedCount(a.first, outcome, a.Outcomes());
  }

  lemma RequestLeavesApart(ledger: Ledger, a: Attempt, outcome: AttemptPhase, b: Attempt)
    requires LedgerOk(ledger) && AttemptOk(a, ledger.limits) && a.AllResolved()
    requires a.Last() <= MemoryEnd(ledger) && Apart(a.first, a.Last(), ledger.durable)
    requires BlockOutcomes(outcome, a.Outcomes())
    requires b.Last() <= MemoryEnd(ledger) && Apart(b.first, b.Last(), ledger.durable)
    requires a.Last() < b.first || b.Last() < a.first
    ensures var target := Target(ledger, a, outcome); target.Ok? ==> Apart(b.first, b.Last(), target.value)
  {
    BlockIsLive(ledger, a, outcome);
    TargetApart(ledger.durable, ledger.next, ledger.exhausted, ledger.limits, Block(a, outcome), b.first, b.Last());
  }

  /** The terminal outcome the event asks the committer to record. */
  function RequestedOutcome(a: Attempt, e: Event): AttemptPhase {
    if e.RequestPublication? then Published else a.terminalOutcome
  }

  predicate IsRequest(ledger: Ledger, serial: Option<string>, a: Attempt, e: Event) {
    && AttemptEnabled(ledger, serial, a, e)
    && (e.RequestPublication? || (e.RequestCommit? && Target(ledger, a, a.terminalOutcome).Ok?))
  }

  lemma RequestShape(ledger: Ledger, serial: Option<string>, a: Attempt, e: Event)
    requires AttemptOk(a, ledger.limits)
    ensures IsRequest(ledger, serial, a, e) ==>
      var b := AttemptAfter(ledger, serial, a, e);
      && SameReservation(a, b) && !a.Committed() && b.entries == a.entries && LedgerAfter(ledger, a, e) == ledger
      && BlockOutcomes(RequestedOutcome(a, e), a.Outcomes())
    ensures IsRequest(ledger, serial, a, e) && e.RequestPublication? ==>
      var target := Target(ledger, a, Published);
      target.Ok? && Pending(AttemptAfter(ledger, serial, a, e)) == Some(PendingTarget(ledger.durable, target.value, Published))
    ensures IsRequest(ledger, serial, a, e) && e.RequestCommit? ==>
      var target := Target(ledger, a, a.terminalOutcome);
      target.Ok? && Pending(AttemptAfter(ledger, serial, a, e)) == Some(PendingTarget(ledger.durable, target.value, a.terminalOutcome))
  {
    hide TerminalTarget, AttemptBlock;
  }

  lemma PendingOkDependsOnEntries(limits: LedgerLimits, end: int, a: Attempt, b: Attempt, p: PendingTarget)
    requires PendingOk(limits, end, a, p) && b.first == a.first && b.entries == a.entries
    ensures PendingOk(limits, end, b, p)
  {
    hide ValidRestart, Covers, AttemptBlock;
    assert a.Outcomes() == b.Outcomes();
  }

  lemma RequestOthersApart(s: System, k: string, outcome: AttemptPhase)
    requires LedgerOk(s.ledger) && AttemptsOk(s) && Disjoint(s.attempts) && AllApart(s.ledger.durable, s.attempts)
    requires k in s.attempts && !s.attempts[k].Committed() && s.attempts[k].AllResolved()
    requires BlockOutcomes(outcome, s.attempts[k].Outcomes())
    ensures s.attempts[k].Last() <= MAX_UINT64
    ensures var target := Target(s.ledger, s.attempts[k], outcome);
      target.Ok? ==> forall j :: j in s.attempts && j != k && !s.attempts[j].Committed() ==>
        Apart(s.attempts[j].first, s.attempts[j].Last(), target.value)
  {
    hide TerminalTarget, AttemptBlock, ValidRestart, EncodedBytes, AttemptOk, Apart, BlockOutcomes, Target;
    var a := s.attempts[k];
    assert a.Last() <= MAX_UINT64 by { AttemptEnds(s, k); }
    if Target(s.ledger, a, outcome).Ok? {
      forall j | j in s.attempts && j != k && !s.attempts[j].Committed()
        ensures Apart(s.attempts[j].first, s.attempts[j].Last(), Target(s.ledger, a, outcome).value)
      {
        RequestLeavesApart(s.ledger, a, outcome, s.attempts[j]);
      }
    }
  }

  lemma AttemptEnds(s: System, k: string)
    requires AttemptsOk(s) && k in s.attempts
    ensures s.attempts[k].Last() <= MAX_UINT64
  {
  }

  lemma NewPending(s: System, t: System, k: string, b: Attempt, p: PendingTarget)
    requires AllPendingOk(s.ledger, s.attempts) && TargetsApart(s.attempts)
    requires LocalChange(s, t, k, b) && Pending(b) == Some(p)
    requires PendingOk(s.ledger.limits, MemoryEnd(s.ledger), b, p)
    requires forall j :: j in s.attempts && j != k && !s.attempts[j].Committed() ==>
      Apart(s.attempts[j].first, s.attempts[j].Last(), p.target)
    ensures AllPendingOk(t.ledger, t.attempts) && TargetsApart(t.attempts)
  {
    hide PendingOk;
  }

  lemma RequestPending(s: System, k: string, e: Event)
    requires LedgerOk(s.ledger) && AttemptsOk(s) && Disjoint(s.attempts) && AllApart(s.ledger.durable, s.attempts)
    requires AllPendingOk(s.ledger, s.attempts) && TargetsApart(s.attempts)
    requires k in s.attempts && IsRequest(s.ledger, s.serial, s.attempts[k], e)
    requires AttemptOk(AttemptAfter(s.ledger, s.serial, s.attempts[k], e), s.ledger.limits)
    ensures AllPendingOk(s.ledger, AttemptStep(s, k, e).attempts) && TargetsApart(AttemptStep(s, k, e).attempts)
  {
    hide TerminalTarget, AttemptBlock, ValidRestart, Covers, LedgerOk, PendingOk;
    var a, outcome := s.attempts[k], RequestedOutcome(s.attempts[k], e);
    var b := AttemptAfter(s.ledger, s.serial, a, e);
    RequestShape(s.ledger, s.serial, a, e);
    RequestIsSound(s.ledger, a, outcome);
    PendingOkDependsOnEntries(s.ledger.limits, MemoryEnd(s.ledger), a, b, Pending(b).value);
    RequestOthersApart(s, k, outcome);
    NewPending(s, AttemptStep(s, k, e), k, b, Pending(b).value);
  }

  lemma RequestSerial(s: System, k: string, e: Event)
    requires SerialOk(s) && k in s.attempts && AttemptOk(s.attempts[k], s.ledger.limits)
    ensures IsRequest(s.ledger, s.serial, s.attempts[k], e) ==> SerialOk(AttemptStep(s, k, e))
  {
    hide TerminalTarget, AttemptBlock, ValidRestart, Covers, LedgerOk;
    RequestShape(s.ledger, s.serial, s.attempts[k], e);
  }

  lemma RequestEvent(s: System, k: string, e: Event)
    requires Inv(s) && k in s.attempts && IsRequest(s.ledger, s.serial, s.attempts[k], e)
    ensures Inv(AttemptStep(s, k, e)) && AttemptStep(s, k, e).ledger == s.ledger
  {
    var a, t := s.attempts[k], AttemptStep(s, k, e);
    var b := AttemptAfter(s.ledger, s.serial, a, e);
    RequestShape(s.ledger, s.serial, a, e);
    AttemptStaysOk(s.ledger, s.serial, a, e);
    RequestPending(s, k, e);
    RequestSerial(s, k, e);
    LocalLayout(s, t, k, b);
    LocalNewest(s, t, k, b);
    LocalTotals(s, t, k, b);
    LocalHistory(s, t, k, b);
  }

  // ---- processing a committer reply -----------------------------------------------------

  predicate SampleMoves(before: SampleState, after: SampleState, a: Attempt, outcome: AttemptPhase) {
    if outcome.Published? then
      && before.revision != MAX_UINT64 && before.highWater != MAX_UINT64
      && IdentityAdvances(before.lastCommitted, a.identity)
      && after == AdvanceSample(before, a.identity)
    else
      after == before
  }

  /** t is s after attempt k's request was accepted and passed the post-commit check. */
  predicate Applied(s: System, t: System, k: string, b: Attempt, p: PendingTarget) {
    && k in s.attempts
    && var a := s.attempts[k];
    && Pending(a) == Some(p) && !a.Committed() && !a.Counted()
    && Pending(b) == None && b.Committed() && (b.Counted() <==> p.outcome.Published?) && RecordedOutcome(b) == p.outcome
    && b.first == a.first && b.entries == a.entries && AttemptOk(b, s.ledger.limits)
    && StillCurrent(s.ledger, p.expected, p.target)
    && SampleMoves(s.ledger.sample, t.ledger.sample, a, p.outcome)
    && t.ledger == ApplyTarget(s.ledger, p.target).(sample := t.ledger.sample)
    && t == s.(ledger := t.ledger, attempts := s.attempts[k := b], serial := t.serial)
  }

  /** The durable state only moves to a state that covers it. */
  lemma ApplyMonotone(ledger: Ledger, a: Attempt, p: PendingTarget)
    requires LedgerOk(ledger) && PendingOk(ledger.limits, MemoryEnd(ledger), a, p) && StillCurrent(ledger, p.expected, p.target)
    ensures var durable := ApplyTarget(ledger, p.target).durable;
      && Covers(durable, ledger.durable) && ledger.durable.truncated <= durable.truncated
      && a.Last() <= EndSequence(durable) <= MemoryEnd(ledger)
      && EndSequence(ledger.durable) <= EndSequence(durable)
      && ValidRestart(durable, ledger.limits)
      && (durable == ledger.durable || (durable == p.target && ledger.durable == p.expected))
  {
    ValidUnderMaximum(ledger.durable, ledger.limits);
    CoversReflexive(ledger.durable);
  }

  lemma SampleStaysValid(before: SampleState, after: SampleState, a: Attempt, outcome: AttemptPhase)
    requires ValidSample(before, 0) && SampleMoves(before, after, a, outcome)
    ensures ValidSample(after, 0)
    ensures after.revision == before.revision + if outcome.Published? then 1 else 0
  {
  }

  /** A target that is already covered without truncation would have recorded
      the attempt, which is still apart from the durable state. */
  lemma CoveredMeansTruncated(durable: RestartState, a: Attempt)
    requires Apart(a.first, a.Last(), durable) && a.Last() <= EndSequence(durable) && 0 < a.first
    ensures durable.truncated > 0
  {
  }

  lemma ApplyLedgerOk(s: System, t: System, k: string, b: Attempt, p: PendingTarget)
    requires LedgerOk(s.ledger) && AllPendingOk(s.ledger, s.attempts) && AllApart(s.ledger.durable, s.attempts)
    requires Applied(s, t, k, b, p)
    ensures LedgerOk(t.ledger) && MemoryEnd(t.ledger) == MemoryEnd(s.ledger) && t.ledger.limits == s.ledger.limits
    ensures Covers(t.ledger.durable, s.ledger.durable) && s.ledger.durable.truncated <= t.ledger.durable.truncated
    ensures b.Last() <= EndSequence(t.ledger.durable)
    ensures EndSequence(s.ledger.durable) <= EndSequence(t.ledger.durable)
  {
    hide ValidRestart, Covers, AttemptBlock, ContentFrom;
    var a := s.attempts[k];
    ApplyMonotone(s.ledger, a, p);
    SampleStaysValid(s.ledger.sample, t.ledger.sample, a, p.outcome);
    if t.ledger.durable == s.ledger.durable {
      CoveredMeansTruncated(s.ledger.durable, a);
    }
  }

  lemma ApplyApart(s: System, t: System, k: string, b: Attempt, p: PendingTarget)
    requires LedgerOk(s.ledger) && AllPendingOk(s.ledger, s.attempts) && AllApart(s.ledger.durable, s.attempts)
    requires TargetsApart(s.attempts) && Applied(s, t, k, b, p)
    ensures AllApart(t.ledger.durable, t.attempts)
  {
    hide ValidRestart, Covers, AttemptBlock, LedgerOk, AttemptOk, PendingOk;
    forall j | j in t.attempts && !t.attempts[j].Committed()
      ensures Apart(t.attempts[j].first, t.attempts[j].Last(), t.ledger.durable)
    {
      assert j != k && j in s.attempts;
    }
  }

  lemma ApplyRequests(s: System, t: System, k: string, b: Attempt, p: PendingTarget)
    requires AllPendingOk(s.ledger, s.attempts) && TargetsApart(s.attempts) && Applied(s, t, k, b, p)
    ensures AllPendingOk(t.ledger, t.attempts) && TargetsApart(t.attempts)
  {
    hide ValidRestart, Covers, AttemptBlock, LedgerOk, AttemptOk, PendingOk;
  }

  lemma ApplyLayout(s: System, t: System, k: string, b: Attempt, p: PendingTarget)
    requires AttemptsOk(s) && Disjoint(s.attempts) && Applied(s, t, k, b, p)
    ensures AttemptsOk(t) && Disjoint(t.attempts)
  {
    hide ValidRestart, Covers, AttemptBlock, AttemptOk, StillCurrent, SampleMoves, Pending, RecordedOutcome, Disjoint;
    SameBlockDisjoint(s.attempts, k, b);
  }

  lemma ApplyNewest(s: System, t: System, k: string, b: Attempt, p: PendingTarget)
    requires NewestOpen(s) && Applied(s, t, k, b, p)
    requires EndSequence(s.ledger.durable) <= EndSequence(t.ledger.durable) && b.Last() <= EndSequence(t.ledger.durable)
    ensures NewestOpen(t)
  {
    hide ValidRestart, Covers, AttemptBlock, AttemptOk;
    if EndSequence(t.ledger.durable) < MemoryEnd(t.ledger) {
      var j :| OpenUpTo(s.attempts, j, MemoryEnd(s.ledger));
      assert OpenUpTo(t.attempts, j, MemoryEnd(t.ledger));
    }
  }

  lemma ApplyTotals(s: System, t: System, k: string, b: Attempt, p: PendingTarget)
    requires Capacity(s) && Consumption(s) && Applied(s, t, k, b, p)
    requires t.ledger.sample.revision == s.ledger.sample.revision + if p.outcome.Published? then 1 else 0
    ensures Capacity(t) && Consumption(t)
  {
    hide ValidRestart, Covers, AttemptBlock, AttemptOk;
    TotalUpdate(s.attempts, ClaimWeight, k, b);
    TotalUpdate(s.attempts, OwedWeight, k, b);
    assert t.attempts.Keys == s.attempts.Keys;
  }

  lemma ApplyAccounted(s: System, t: System, k: string, b: Attempt, p: PendingTarget)
    requires Accounted(s) && Applied(s, t, k, b, p)
    ensures Accounted(t)
  {
    hide ValidRestart, Covers, AttemptBlock, AttemptOk;
    forall x | x in s.begun
      ensures IsLive(t.attempts, x) <==> IsLive(s.attempts, x)
    {
      LiveUnchanged(s, t, k, b, x);
    }
  }

  /** Whatever the reply records is the attempt's own block. */
  lemma ApplyAudit(s: System, t: System, k: string, b: Attempt, p: PendingTarget)
    requires AuditTrue(s) && LedgerOk(s.ledger) && AllPendingOk(s.ledger, s.attempts) && Applied(s, t, k, b, p)
    ensures AuditTrue(t)
  {
    hide ValidRestart, Covers, AttemptBlock, AttemptOk, LedgerOk, SampleMoves, PublicationsAdded;
    var a := s.attempts[k];
    ApplyMonotone(s.ledger, a, p);
    assert a.Outcomes() == b.Outcomes();
    forall r, j | FromLive(s.attempts, r, j)
      ensures FromLive(t.attempts, r, j)
    {
    }
    forall r | r in t.ledger.durable.tombstones && r !in s.ledger.durable.tombstones
      ensures FromLive(t.attempts, r, k)
    {
      assert r in Block(a, p.outcome);
    }
  }

  /** A committer reply that passes the post-commit check. */
  predicate IsApplied(ledger: Ledger, a: Attempt, e: Event) {
    || (e.PublicationReply? && e.committed && a.publication.PublicationRequested?
        && ledger.sample == a.publication.expectedSample && StillCurrent(ledger, a.publication.expected, a.publication.target))
    || (e.CommitReply? && e.ok && a.commit.CommitRequested? && StillCurrent(ledger, a.commit.expected, a.commit.target))
  }

  lemma AppliedShape(s: System, k: string, e: Event)
    requires k in s.attempts && AttemptOk(s.attempts[k], s.ledger.limits) && SerialOk(s)
    requires AttemptEnabled(s.ledger, s.serial, s.attempts[k], e) && IsApplied(s.ledger, s.attempts[k], e)
    requires AttemptOk(AttemptAfter(s.ledger, s.serial, s.attempts[k], e), s.ledger.limits)
    ensures Pending(s.attempts[k]).Some?
    ensures Applied(s, AttemptStep(s, k, e), k, AttemptAfter(s.ledger, s.serial, s.attempts[k], e), Pending(s.attempts[k]).value)
  {
    hide ValidRestart, Covers, AttemptBlock, TerminalTarget;
  }

  lemma AppliedSerial(s: System, k: string, e: Event)
    requires k in s.attempts && AttemptOk(s.attempts[k], s.ledger.limits) && SerialOk(s)
    requires AttemptEnabled(s.ledger, s.serial, s.attempts[k], e) && IsApplied(s.ledger, s.attempts[k], e)
    ensures SerialOk(AttemptStep(s, k, e))
  {
    hide ValidRestart, Covers, AttemptBlock, TerminalTarget;
  }

  lemma AppliedFrame(s: System, t: System, k: string, b: Attempt, p: PendingTarget)
    requires Applied(s, t, k, b, p)
    ensures k in s.attempts && SampleMoves(s.ledger.sample, t.ledger.sample, s.attempts[k], p.outcome)
    ensures t.base == s.base && t.begun == s.begun && t.finished == s.finished
  {
  }

  lemma ApplyStep(s: System, t: System, k: string, b: Attempt, p: PendingTarget)
    requires Inv(s) && Applied(s, t, k, b, p) && SerialOk(t)
    ensures Inv(t)
    ensures Covers(t.ledger.durable, s.ledger.durable) && s.ledger.durable.truncated <= t.ledger.durable.truncated
  {
    hide ValidRestart, Covers, AttemptBlock, PendingOk, Applied, AttemptOk, LedgerOk, Apart;
    hide AttemptsOk, Disjoint, AllApart, AllPendingOk, TargetsApart, NewestOpen, SerialOk, Capacity, Consumption;
    hide BegunTiles, Accounted, AllFinishedOk, AuditTrue;
    AppliedFrame(s, t, k, b, p);
    ApplyLedgerOk(s, t, k, b, p);
    assert ValidSample(s.ledger.sample, 0) by { LedgerHasValidSample(s.ledger); }
    SampleStaysValid(s.ledger.sample, t.ledger.sample, s.attempts[k], p.outcome);
    ApplyApart(s, t, k, b, p);
    ApplyRequests(s, t, k, b, p);
    ApplyLayout(s, t, k, b, p);
    ApplyNewest(s, t, k, b, p);
    ApplyTotals(s, t, k, b, p);
    ApplyAccounted(s, t, k, b, p);
    ApplyAudit(s, t, k, b, p);
  }

  lemma LedgerHasValidSample(ledger: Ledger)
    requires LedgerOk(ledger)
    ensures ValidSample(ledger.sample, 0)
  {
  }

  lemma ReplyEvent(s: System, k: string, e: Event)
    requires Inv(s) && k in s.attempts && AttemptEnabled(s.ledger, s.serial, s.attempts[k], e)
    requires IsApplied(s.ledger, s.attempts[k], e)
    ensures Inv(AttemptStep(s, k, e))
    ensures Covers(AttemptStep(s, k, e).ledger.durable, s.ledger.durable)
    ensures s.ledger.durable.truncated <= AttemptStep(s, k, e).ledger.durable.truncated
  {
    hide ValidRestart, Covers, AttemptBlock, TerminalTarget, PendingOk, Applied, AttemptAfter, LedgerAfter;
    hide Disjoint, AllApart, AllPendingOk, TargetsApart, NewestOpen, Capacity, Consumption;
    hide BegunTiles, Accounted, AllFinishedOk, AuditTrue, SerialOk, LedgerOk, AttemptOk;
    AttemptStaysOk(s.ledger, s.serial, s.attempts[k], e);
    AppliedShape(s, k, e);
    AppliedSerial(s, k, e);
    ApplyStep(s, AttemptStep(s, k, e), k, AttemptAfter(s.ledger, s.serial, s.attempts[k], e), Pending(s.attempts[k]).value);
  }

  // ---- beginning an attempt ----------------------------------------------------------------

  lemma BeginLedger(s: System, t: System, key: string, identity: AttemptIdentity, claims: nat)
    requires LedgerOk(s.ledger) && BatchAvailable(s.ledger.next, s.ledger.exhausted, claims)
    requires t == BeginStep(s, key, identity, claims)
    ensures LedgerOk(t.ledger) && t.ledger.durable == s.ledger.durable && t.ledger.limits == s.ledger.limits
    ensures t.ledger.sample == s.ledger.sample
    ensures MemoryEnd(t.ledger) == s.ledger.next + claims > MemoryEnd(s.ledger) == s.ledger.next - 1
  {
    hide ValidRestart;
  }

  lemma NewAttemptOk(limits: LedgerLimits, first: uint64, identity: AttemptIdentity, claims: nat)
    requires 0 < first && 0 < claims <= limits.maxClaimEntriesPerAttempt && first + claims <= MAX_UINT64
    ensures var a := NewAttempt(first, identity, claims);
      AttemptOk(a, limits) && a.first == first && a.Last() == first + claims && !a.Committed() && Pending(a) == None && !HoldsSerial(a)
  {
  }

  /** t is s with a fresh attempt whose block starts just above the watermark. */
  predicate Began(s: System, t: System, key: string, a: Attempt) {
    && key !in s.attempts && t.attempts == s.attempts[key := a] && t.serial == s.serial && t.base == s.base
    && t.ledger.durable == s.ledger.durable && t.ledger.limits == s.ledger.limits && t.ledger.sample == s.ledger.sample
    && s.base <= MemoryEnd(s.ledger) && MemoryEnd(s.ledger) < a.first && a.Last() == MemoryEnd(t.ledger)
    && EndSequence(s.ledger.durable) <= MemoryEnd(s.ledger) < MemoryEnd(t.ledger)
    && AttemptOk(a, t.ledger.limits) && !a.Committed() && Pending(a) == None && !HoldsSerial(a)
  }

  lemma BeginLayout(s: System, t: System, key: string, a: Attempt)
    requires AttemptsOk(s) && Disjoint(s.attempts) && AllApart(s.ledger.durable, s.attempts) && Began(s, t, key, a)
    ensures AttemptsOk(t) && Disjoint(t.attempts) && AllApart(t.ledger.durable, t.attempts)
  {
    hide AttemptOk, Pending, HoldsSerial, Apart, Disjoint;
    BeginDisjoint(s, t, key, a);
    assert Apart(a.first, a.Last(), t.ledger.durable) by { AboveIsApart(a.first, a.Last(), t.ledger.durable); }
  }

  lemma AboveIsApart(first: int, last: int, durable: RestartState)
    requires EndSequence(durable) < first
    ensures Apart(first, last, durable)
  {
  }

  lemma BeginDisjoint(s: System, t: System, key: string, a: Attempt)
    requires AttemptsOk(s) && Disjoint(s.attempts) && Began(s, t, key, a)
    ensures Disjoint(t.attempts)
  {
    hide AttemptOk, Pending, HoldsSerial;
    forall i, j | i in t.attempts && j in t.attempts && i != j
      ensures t.attempts[i].Last() < t.attempts[j].first || t.attempts[j].Last() < t.attempts[i].first
    {
    }
  }

  lemma BeginRequests(s: System, t: System, key: string, a: Attempt)
    requires AllPendingOk(s.ledger, s.attempts) && TargetsApart(s.attempts) && Began(s, t, key, a)
    ensures AllPendingOk(t.ledger, t.attempts) && TargetsApart(t.attempts)
  {
    hide ValidRestart, Covers, ContentFrom, PublicationsAdded, AttemptOk;
  }

  lemma BeginSerial(s: System, t: System, key: string, a: Attempt)
    requires SerialOk(s) && Began(s, t, key, a)
    ensures SerialOk(t) && NewestOpen(t)
  {
    hide ValidRestart, AttemptOk;
    assert OpenUpTo(t.attempts, key, MemoryEnd(t.ledger));
  }

  lemma BeginTotals(s: System, t: System, key: string, a: Attempt)
    requires Capacity(s) && Consumption(s) && key !in s.attempts && t.attempts == s.attempts[key := a]
    requires |s.attempts| < s.ledger.limits.maxRetainedAttempts
    requires s.ledger.retainedClaims + |a.entries| <= s.ledger.limits.maxRetainedClaimEntries
    requires t.ledger.limits == s.ledger.limits && t.ledger.retainedClaims == s.ledger.retainedClaims + |a.entries|
    requires t.ledger.sample == s.ledger.sample && MemoryEnd(s.ledger) + 2 <= MemoryEnd(t.ledger)
    ensures Capacity(t) && Consumption(t)
  {
    TotalUpdate(s.attempts, ClaimWeight, key, a);
    TotalUpdate(s.attempts, OwedWeight, key, a);
    assert t.attempts.Keys == s.attempts.Keys + {key};
  }

  lemma {:induction false} BegunAbove(begun: seq<Begun>, base: int, end: int, i: nat)
    requires BegunTiles(begun, base, end) && i < |begun|
    ensures base < begun[i].first
    decreases i
  {
    assert StartsInOrder(begun, base, i);
    if i > 0 {
      BegunAbove(begun, base, end, i - 1);
    }
  }

  lemma {:induction false} BegunBelow(begun: seq<Begun>, base: int, end: int, i: nat)
    requires BegunTiles(begun, base, end) && i < |begun|
    ensures base < begun[i].first && begun[i].first + begun[i].claims <= end
    decreases |begun| - i
  {
    BegunAbove(begun, base, end, i);
    if i + 1 < |begun| {
      assert StartsInOrder(begun, base, i + 1);
      BegunBelow(begun, base, end, i + 1);
    }
  }

  lemma BegunExtends(begun: seq<Begun>, base: int, end: int, b: Begun)
    requires BegunTiles(begun, base, end) && b.first == end + 1 && b.claims > 0
    ensures BegunTiles(begun + [b], base, b.first + b.claims)
  {
    var all := begun + [b];
    forall i | 0 <= i < |all|
      ensures StartsInOrder(all, base, i)
    {
      if i < |begun| {
        assert StartsInOrder(begun, base, i);
      }
    }
  }

  lemma BeginLiveness(s: System, t: System, key: string, a: Attempt, x: Begun)
    requires key !in s.attempts && t.attempts == s.attempts[key := a] && x.first != a.first
    ensures IsLive(t.attempts, x) <==> IsLive(s.attempts, x)
  {
    if IsLive(s.attempts, x) {
      var j :| j in s.attempts && s.attempts[j].first == x.first && |s.attempts[j].entries| == x.claims;
      assert j in t.attempts && t.attempts[j].first == x.first;
    }
  }

  lemma BeginAccounted(s: System, t: System, key: string, a: Attempt)
    requires BegunTiles(s.begun, s.base, MemoryEnd(s.ledger)) && Accounted(s) && Began(s, t, key, a)
    requires t.finished == s.finished && t.begun == s.begun + [Begun(a.first, |a.entries|)]
    ensures Accounted(t)
  {
    hide AttemptOk;
    forall x | x in s.begun
      ensures x.first != a.first && (IsLive(t.attempts, x) <==> IsLive(s.attempts, x))
    {
      var i :| 0 <= i < |s.begun| && s.begun[i] == x;
      BegunBelow(s.begun, s.base, MemoryEnd(s.ledger), i);
      BeginLiveness(s, t, key, a, x);
    }
    assert a.first !in s.finished;
    assert IsLive(t.attempts, Begun(a.first, |a.entries|)) by {
      assert key in t.attempts && t.attempts[key].first == a.first;
    }
  }

  lemma BeginAudit(s: System, t: System, key: string, a: Attempt)
    requires AuditTrue(s) && Began(s, t, key, a) && t.finished == s.finished
    ensures AuditTrue(t)
  {
    hide AttemptOk, AttemptBlock;
    forall r, j | FromLive(s.attempts, r, j)
      ensures FromLive(t.attempts, r, j)
    {
    }
  }

  lemma BeginEvent(s: System, key: string, identity: AttemptIdentity, claims: nat)
    requires Inv(s) && BeginEnabled(s, key, identity, claims)
    ensures Inv(BeginStep(s, key, identity, claims))
    ensures BeginStep(s, key, identity, claims).ledger.durable == s.ledger.durable
  {
    hide ValidRestart, AttemptOk, AttemptsOk, Disjoint, AllApart, AllPendingOk, TargetsApart, NewestOpen, SerialOk;
    hide BegunTiles, Accounted, AllFinishedOk, AuditTrue, Capacity, Consumption;
    var t := BeginStep(s, key, identity, claims);
    var a := NewAttempt(s.ledger.next, identity, claims);
    BeginLedger(s, t, key, identity, claims);
    NewAttemptOk(s.ledger.limits, s.ledger.next, identity, claims);
    BeginLayout(s, t, key, a);
    BeginRequests(s, t, key, a);
    BeginSerial(s, t, key, a);
    BeginTotals(s, t, key, a);
    BegunExtends(s.begun, s.base, MemoryEnd(s.ledger), Begun(a.first, |a.entries|));
    BeginAccounted(s, t, key, a);
    BeginAudit(s, t, key, a);
  }

  // ---- finalizing an attempt ---------------------------------------------------------------

  predicate FinalizeReady(a: Attempt) {
    && a.commit.CommitRecorded? && a.NoneInProgress() && a.AllResolved()
    && (a.phase.Cancelling? || a.phase.Publishing?) && TerminalPhase(a.terminalOutcome)
  }

  lemma FinalizeShape(a: Attempt, limits: LedgerLimits)
    requires AttemptOk(a, limits) && FinalizeReady(a)
    ensures FinishedOk(Finished(a.Outcomes(), a.terminalOutcome, a.committerAccepted))
    ensures a.Committed() && RecordedOutcome(a) == a.terminalOutcome && !HoldsSerial(a)
  {
  }

  /** Once the terminal state is recorded, finalization is never refused. */
  lemma FinalizeNeverRefused(a: Attempt, limits: LedgerLimits)
    requires AttemptOk(a, limits) && a.commit.CommitRecorded?
    ensures FinalizeReady(a) && a.restartCommitted
  {
  }

  lemma FinalizeLayout(s: System, t: System, k: string)
    requires AttemptsOk(s) && Disjoint(s.attempts) && AllApart(s.ledger.durable, s.attempts)
    requires AllPendingOk(s.ledger, s.attempts) && TargetsApart(s.attempts)
    requires k in s.attempts && s.attempts[k].AllResolved() && t == FinalizeStep(s, k)
    ensures AttemptsOk(t) && Disjoint(t.attempts) && AllApart(t.ledger.durable, t.attempts)
    ensures AllPendingOk(t.ledger, t.attempts) && TargetsApart(t.attempts)
  {
    hide AttemptOk, ValidRestart, Covers, ContentFrom, PublicationsAdded;
  }

  lemma FinalizeSerial(s: System, t: System, k: string)
    requires SerialOk(s) && NewestOpen(s) && k in s.attempts && s.attempts[k].AllResolved() && t == FinalizeStep(s, k)
    requires s.attempts[k].Committed() && !HoldsSerial(s.attempts[k])
    ensures SerialOk(t) && NewestOpen(t)
  {
    if j :| OpenUpTo(s.attempts, j, MemoryEnd(s.ledger)) {
      assert OpenUpTo(t.attempts, j, MemoryEnd(t.ledger));
    }
  }

  lemma FinalizeTotals(s: System, t: System, k: string)
    requires Capacity(s) && Consumption(s)
    requires k in s.attempts && s.attempts[k].AllResolved() && t == FinalizeStep(s, k)
    ensures Capacity(t) && Consumption(t)
  {
    TotalRemove(s.attempts, ClaimWeight, k);
    TotalRemove(s.attempts, OwedWeight, k);
    TotalNonNegative(t.attempts, ClaimWeight);
    assert t.attempts.Keys == s.attempts.Keys - {k};
  }

  lemma {:induction false} BegunOrdered(begun: seq<Begun>, base: int, end: int, i: nat, j: nat)
    requires BegunTiles(begun, base, end) && i < j < |begun|
    ensures begun[i].first < begun[j].first
    decreases j
  {
    assert StartsInOrder(begun, base, j);
    if i < j - 1 {
      BegunOrdered(begun, base, end, i, j - 1);
    }
  }

  lemma BegunUnique(begun: seq<Begun>, base: int, end: int, x: Begun, y: Begun)
    requires BegunTiles(begun, base, end) && x in begun && y in begun && x.first == y.first
    ensures x == y
  {
    var i :| 0 <= i < |begun| && begun[i] == x;
    var j :| 0 <= j < |begun| && begun[j] == y;
    if i < j {
      BegunOrdered(begun, base, end, i, j);
    } else if j < i {
      BegunOrdered(begun, base, end, j, i);
    }
  }

  lemma FinalizeLiveness(s: System, t: System, k: string, x: Begun)
    requires Disjoint(s.attempts) && k in s.attempts && t.attempts == s.attempts - {k}
    requires x.claims > 0 && (x.first == s.attempts[k].first ==> x.claims == |s.attempts[k].entries|)
    ensures IsLive(t.attempts, x) <==> IsLive(s.attempts, x) && x.first != s.attempts[k].first
  {
    hide Attempt.Committed, Attempt.AllResolved;
    if IsLive(s.attempts, x) && x.first != s.attempts[k].first {
      var j :| j in s.attempts && s.attempts[j].first == x.first && |s.attempts[j].entries| == x.claims;
      assert j in t.attempts && t.attempts[j].first == x.first;
    }
    if IsLive(t.attempts, x) {
      var j :| j in t.attempts && t.attempts[j].first == x.first && |t.attempts[j].entries| == x.claims;
      assert j in s.attempts && s.attempts[j].first == x.first;
    }
  }

  lemma FinalizeAccounted(s: System, t: System, k: string)
    requires BegunTiles(s.begun, s.base, MemoryEnd(s.ledger)) && Accounted(s) && Disjoint(s.attempts)
    requires k in s.attempts && s.attempts[k].AllResolved() && t == FinalizeStep(s, k)
    requires |s.attempts[k].entries| > 0
    ensures Accounted(t) && s.attempts[k].first !in s.finished
  {
    var a := s.attempts[k];
    var mine := Begun(a.first, |a.entries|);
    assert IsLive(s.attempts, mine);
    forall x | x in s.begun
      ensures x.first == a.first ==> x == mine
      ensures IsLive(t.attempts, x) <==> IsLive(s.attempts, x) && x.first != a.first
    {
      BegunEntry(s, k, x);
      FinalizeLiveness(s, t, k, x);
    }
  }

  lemma BegunEntry(s: System, k: string, x: Begun)
    requires BegunTiles(s.begun, s.base, MemoryEnd(s.ledger)) && x in s.begun && k in s.attempts
    requires Begun(s.attempts[k].first, |s.attempts[k].entries|) in s.begun
    ensures x.claims > 0
    ensures x.first == s.attempts[k].first ==> x == Begun(s.attempts[k].first, |s.attempts[k].entries|)
  {
    var i :| 0 <= i < |s.begun| && s.begun[i] == x;
    assert StartsInOrder(s.begun, s.base, i);
    if x.first == s.attempts[k].first {
      BegunUnique(s.begun, s.base, MemoryEnd(s.ledger), x, Begun(s.attempts[k].first, |s.attempts[k].entries|));
    }
  }

  lemma FinalizeAudit(s: System, t: System, k: string)
    requires AuditTrue(s) && k in s.attempts && s.attempts[k].AllResolved() && t == FinalizeStep(s, k)
    requires s.attempts[k].first !in s.finished && RecordedOutcome(s.attempts[k]) == s.attempts[k].terminalOutcome
    ensures AuditTrue(t)
  {
    hide AttemptBlock;
    var a := s.attempts[k];
    forall r | r in s.ledger.durable.tombstones && r.sequence > s.base
      ensures (exists first: uint64 :: FromFinished(t.finished, r, first)) || (exists j :: FromLive(t.attempts, r, j))
    {
      if first: uint64 :| FromFinished(s.finished, r, first) {
        assert FromFinished(t.finished, r, first);
      } else {
        var j :| FromLive(s.attempts, r, j);
        if j == k {
          assert FromFinished(t.finished, r, a.first);
        } else {
          assert FromLive(t.attempts, r, j);
        }
      }
    }
  }

  lemma FinalizeEvent(s: System, k: string)
    requires Inv(s) && k in s.attempts && FinalizeReady(s.attempts[k])
    ensures Inv(FinalizeStep(s, k)) && FinalizeStep(s, k).ledger.durable == s.ledger.durable
  {
    hide ValidRestart, BegunTiles, Accounted, AuditTrue, Capacity, Consumption, NewestOpen, AllApart, AllPendingOk, TargetsApart;
    var t, a := FinalizeStep(s, k), s.attempts[k];
    FinalizeShape(a, s.ledger.limits);
    FinalizeLayout(s, t, k);
    FinalizeSerial(s, t, k);
    FinalizeTotals(s, t, k);
    FinalizeAccounted(s, t, k);
    FinalizeAudit(s, t, k);
    assert LedgerOk(t.ledger) && AllFinishedOk(t.finished);
  }

  // ---- restart -----------------------------------------------------------------------------

  lemma RestartEvent(s: System, limits: LedgerLimits, trustedMinimum: uint64)
    requires Inv(s) && Export(s).Ok?
    requires NewLedger(s.ledger.sample, trustedMinimum, limits, Some(Export(s).value)).Ok?
    ensures Inv(RestartStep(s, limits, trustedMinimum))
    ensures RestartStep(s, limits, trustedMinimum).ledger.durable == s.ledger.durable
  {
    hide ValidRestart, BegunTiles, Accounted;
    var t := RestartStep(s, limits, trustedMinimum);
    assert |t.attempts| == 0;
    assert AuditTrue(t) && Accounted(t) by { RestartKeepsHistory(s, t); }
  }

  lemma RestartKeepsHistory(s: System, t: System)
    requires Accounted(s) && AuditTrue(s)
    requires t == s.(ledger := t.ledger, serial := t.serial) && t.ledger.durable == s.ledger.durable
    ensures Accounted(t) && AuditTrue(t)
  {
    hide AttemptBlock;
  }

  // ---- every event ---------------------------------------------------------------------------

  lemma EventIsOneOf(s: System, k: string, e: Event)
    requires Inv(s) && k in s.attempts && AttemptEnabled(s.ledger, s.serial, s.attempts[k], e) && !e.Finalize?
    ensures IsLocal(s.ledger, s.serial, s.attempts[k], e) || IsRequest(s.ledger, s.serial, s.attempts[k], e) ||
      IsApplied(s.ledger, s.attempts[k], e)
  {
    hide ValidRestart, Covers, TerminalTarget, AttemptBlock;
    hide LedgerOk, Disjoint, AllApart, AllPendingOk, TargetsApart, NewestOpen, SerialOk, Capacity, Consumption;
    hide BegunTiles, Accounted, AllFinishedOk, AuditTrue, EntriesOk, ValidLimits;
  }

  lemma DurableNeverGoesBack(ledger: Ledger)
    requires LedgerOk(ledger)
    ensures Covers(ledger.durable, ledger.durable)
  {
    ValidUnderMaximum(ledger.durable, ledger.limits);
  }

  lemma InvCoversItself(s: System)
    requires Inv(s)
    ensures Covers(s.ledger.durable, s.ledger.durable)
  {
    DurableNeverGoesBack(s.ledger);
  }

  lemma AttemptEventPreserves(s: System, k: string, e: Event)
    requires Inv(s) && k in s.attempts && AttemptEnabled(s.ledger, s.serial, s.attempts[k], e) && !e.Finalize?
    ensures Inv(AttemptStep(s, k, e))
    ensures Covers(AttemptStep(s, k, e).ledger.durable, s.ledger.durable)
    ensures s.ledger.durable.truncated <= AttemptStep(s, k, e).ledger.durable.truncated
  {
    hide Inv, Covers, AttemptEnabled, AttemptStep, IsLocal, IsRequest, IsApplied;
    EventIsOneOf(s, k, e);
    InvCoversItself(s);
    if IsLocal(s.ledger, s.serial, s.attempts[k], e) {
      LocalEvent(s, k, e);
    } else if IsRequest(s.ledger, s.serial, s.attempts[k], e) {
      RequestEvent(s, k, e);
    } else {
      ReplyEvent(s, k, e);
    }
  }

  lemma FinalizeEnabled(ledger: Ledger, serial: Option<string>, a: Attempt, e: Event)
    requires AttemptEnabled(ledger, serial, a, e) && e.Finalize?
    ensures FinalizeReady(a)
  {
  }

  lemma StepPreserves(s: System, e: Event)
    requires Inv(s) && Enabled(s, e)
    ensures Inv(Step(s, e))
    ensures Covers(Step(s, e).ledger.durable, s.ledger.durable)
    ensures s.ledger.durable.truncated <= Step(s, e).ledger.durable.truncated
  {
    hide Inv, Covers, AttemptEnabled, NewLedger, BeginEnabled, Export, AttemptStep, BeginStep, FinalizeStep, RestartStep, FinalizeReady;
    InvCoversItself(s);
    match e
    case Begin(key, identity, claims) => BeginEvent(s, key, identity, claims);
    case Finalize(key) =>
      FinalizeEnabled(s.ledger, s.serial, s.attempts[key], e);
      FinalizeEvent(s, key);
    case Restart(limits, trustedMinimum) => RestartEvent(s, limits, trustedMinimum);
    case _ => AttemptEventPreserves(s, e.key, e);
  }
}
