/** What every run of the attempt ledger guarantees. */
module LedgerTheorems {
  import opened Foundation
  import opened LedgerTypes
  import opened RestartHistory
  import opened TerminalMerge
  import opened HistoryBudget
  import opened LedgerProtocol
  import opened LedgerInvariant
  import opened LedgerSteps

  // ---- every reachable state -----------------------------------------------------------

  lemma NewLedgerOk(sample: SampleState, trustedMinimum: uint64, limits: LedgerLimits, restart: Option<RestartState>)
    requires NewLedger(sample, trustedMinimum, limits, restart).Ok?
    ensures var ledger := NewLedger(sample, trustedMinimum, limits, restart).value;
      && LedgerOk(ledger) && ledger.retainedClaims == 0
      && MemoryEnd(ledger) == EndSequence(ledger.durable)
      && MemoryEnd(ledger) >= 2 * ledger.sample.revision
  {
    hide ValidHistory;
    if restart.None? {
      assert PublishedCount(FreshRestart.tombstones) == 0;
      assert ValidHistory([], 0, limits) by { EmptyHistory(limits); }
    }
  }

  lemma InitialInvariant(s: System, sample: SampleState, trustedMinimum: uint64, limits: LedgerLimits, restart: Option<RestartState>)
    requires Initial(s, sample, trustedMinimum, limits, restart)
    ensures Inv(s)
  {
    hide ValidRestart, LedgerOk, NewLedger;
    NewLedgerOk(sample, trustedMinimum, limits, restart);
    assert |s.attempts| == 0;
    assert WithinCapacity(s.ledger.limits, 0, s.attempts) by { LedgerHasCapacity(s.ledger); }
    assert AuditTrue(s) by { InitialAudit(s); }
  }

  lemma LedgerHasCapacity(ledger: Ledger)
    requires LedgerOk(ledger)
    ensures 0 < ledger.limits.maxRetainedAttempts && 0 < ledger.limits.maxRetainedClaimEntries
  {
    hide ValidRestart;
  }

  lemma InitialAudit(s: System)
    requires LedgerOk(s.ledger) && s.base == MemoryEnd(s.ledger)
    ensures AuditTrue(s)
  {
    DurableIsDense(s.ledger);
  }

  lemma {:induction false} RunPreserves(s: System, events: seq<Event>)
    requires Inv(s) && Legal(s, events)
    ensures Inv(Exec(s, events))
    ensures Covers(Exec(s, events).ledger.durable, s.ledger.durable)
    ensures s.ledger.durable.truncated <= Exec(s, events).ledger.durable.truncated
    decreases |events|
  {
    hide Inv, Covers, Step, Enabled;
    if |events| == 0 {
      assert Covers(s.ledger.durable, s.ledger.durable) by { InvCoversItself(s); }
    } else {
      StepPreserves(s, events[0]);
      RunPreserves(Step(s, events[0]), events[1..]);
      CoversComposes(Exec(s, events).ledger.durable, Step(s, events[0]).ledger.durable, s.ledger.durable);
    }
  }

  lemma LegalFirst(s: System, e: Event, rest: seq<Event>)
    requires Enabled(s, e) && Legal(Step(s, e), rest)
    ensures Legal(s, [e] + rest) && Exec(s, [e] + rest) == Exec(Step(s, e), rest)
  {
    hide Step, Enabled;
    assert ([e] + rest)[1..] == rest;
  }

  lemma {:induction false} LegalSplit(s: System, events: seq<Event>, n: nat)
    requires Legal(s, events) && n <= |events|
    ensures Legal(s, events[..n]) && Legal(Exec(s, events[..n]), events[n..])
    ensures Exec(s, events) == Exec(Exec(s, events[..n]), events[n..])
    decreases n
  {
    hide Step, Enabled;
    if n == 0 {
      assert events[0..] == events;
    } else {
      var rest := events[1..];
      LegalSplit(Step(s, events[0]), rest, n - 1);
      LegalFirst(s, events[0], rest[..n - 1]);
      assert events[..n] == [events[0]] + rest[..n - 1] && events[n..] == rest[n - 1..];
    }
  }

  /** The state after the first n events of a run. */
  function At(s: System, events: seq<Event>, n: nat): System
    requires Legal(s, events) && n <= |events|
  {
    LegalSplit(s, events, n);
    Exec(s, events[..n])
  }

  /** On every interleaving each later durable restart state covers every
      earlier one, and neither watermark ever goes back. */
  lemma LaterCoversEarlier(s: System, events: seq<Event>, i: nat, j: nat)
    requires Inv(s) && Legal(s, events) && i <= j <= |events|
    ensures var earlier, later := At(s, events, i).ledger.durable, At(s, events, j).ledger.durable;
      && Covers(later, earlier)
      && earlier.truncated <= later.truncated
      && EndSequence(earlier) <= EndSequence(later)
  {
    hide Inv, Step, Enabled;
    LegalSplit(s, events, j);
    LegalSplit(s, events[..j], i);
    assert events[..j][..i] == events[..i];
    RunPreserves(s, events[..i]);
    RunPreserves(At(s, events, i), events[..j][i..]);
  }

  // ---- computing a restart state ------------------------------------------------------------

  /** For a live attempt whose claims are all terminal the merge has no
      conflicting outcomes and its history always tiles; it fails exactly when
      the extended history exceeds the aggregate budget. */
  lemma RestartStateNeverConflicts(s: System, k: string, outcome: AttemptPhase)
    requires Inv(s) && k in s.attempts && !s.attempts[k].Committed() && s.attempts[k].AllResolved()
    requires BlockOutcomes(outcome, s.attempts[k].Outcomes())
    ensures var a := s.attempts[k]; var merged := MergedHistory(s.ledger.durable, MemoryEnd(s.ledger), Block(a, outcome));
      && a.Last() <= MAX_UINT64
      && !Conflicting(s.ledger.durable.tombstones + Block(a, outcome))
      && |merged| <= MemoryEnd(s.ledger)
      && var target := RestartAt(s.ledger.next, s.ledger.exhausted, s.ledger.limits, merged);
      && (Target(s.ledger, a, outcome) == if target.tombstones == [] || AggregateFits(target.tombstones) then Ok(target) else Err)
      && (HistoriesFit(s.ledger.limits) ==> Target(s.ledger, a, outcome).Ok?)
  {
    hide TerminalTarget, AttemptBlock, ValidRestart, AggregateFits, MergedHistory, RestartAt, LiveBlock, Conflicting, HistoriesFit;
    hide LedgerOk, Disjoint, AllPendingOk, TargetsApart, NewestOpen, SerialOk, Capacity, Consumption;
    hide BegunTiles, Accounted, AllFinishedOk, AuditTrue, EntriesOk;
    var a, ledger := s.attempts[k], s.ledger;
    BlockIsLive(ledger, a, outcome);
    DurableIsDense(ledger);
    LiveTarget(ledger, Block(a, outcome));
  }

  lemma LiveTarget(ledger: Ledger, block: seq<Tombstone>)
    requires LedgerOk(ledger) && LiveBlock(ledger.durable, MemoryEnd(ledger), ledger.limits, block)
    ensures var merged := MergedHistory(ledger.durable, MemoryEnd(ledger), block);
      && !Conflicting(ledger.durable.tombstones + block)
      && |merged| <= MemoryEnd(ledger)
      && var target := RestartAt(ledger.next, ledger.exhausted, ledger.limits, merged);
      && var computed := TerminalTarget(ledger.durable, ledger.next, ledger.exhausted, ledger.limits, block);
      && (computed == if target.tombstones == [] || AggregateFits(target.tombstones) then Ok(target) else Err)
      && (HistoriesFit(ledger.limits) ==> computed.Ok?)
  {
    hide TerminalTarget, ValidRestart, AggregateFits, RestartAt, Conflicting, HistoriesFit;
    DurableIsDense(ledger);
    TargetIs(ledger.durable, ledger.next, ledger.exhausted, ledger.limits, block);
    if HistoriesFit(ledger.limits) {
      TargetNeverFailsWithinBudget(ledger.durable, ledger.next, ledger.exhausted, ledger.limits, block);
    }
    RetainedShape(ledger.durable, MemoryEnd(ledger), block);
  }

  lemma DurableIsDense(ledger: Ledger)
    requires LedgerOk(ledger)
    ensures Dense(ledger.durable.tombstones, ledger.durable.truncated)
    ensures ledger.durable.truncated + |ledger.durable.tombstones| == EndSequence(ledger.durable) <= MemoryEnd(ledger)
  {
  }

  // ---- quiescence and restart ----------------------------------------------------------------

  /** Whatever the finishing order, once no attempt is retained the durable
      watermark is the in-memory one, so the export succeeds. */
  lemma QuiescentLedgerExports(s: System)
    requires Inv(s) && s.attempts == map[]
    ensures s.ledger.next == s.ledger.durable.next && s.ledger.exhausted == s.ledger.durable.exhausted
    ensures Export(s) == Ok(s.ledger.durable)
  {
    hide ValidHistory, Covers;
    assert forall k :: !OpenUpTo(s.attempts, k, MemoryEnd(s.ledger));
    assert EndSequence(s.ledger.durable) == MemoryEnd(s.ledger);
  }

  /** The limits of a ledger are those some activation accepted. */
  lemma {:induction false} LimitsStayAccepted(s: System, events: seq<Event>)
    requires LimitsAccepted(s.ledger.limits) && Legal(s, events)
    ensures LimitsAccepted(Exec(s, events).ledger.limits)
    decreases |events|
  {
    hide LimitsAccepted, AttemptEnabled, AttemptAfter;
    if |events| > 0 {
      LimitsStayAccepted(Step(s, events[0]), events[1..]);
    }
  }

  /** The exported pair of a quiescent ledger is accepted by a restart, which
      restores the ledger and re-exports the same. */
  lemma QuiescentLedgerRestarts(s: System)
    requires Inv(s) && LimitsAccepted(s.ledger.limits) && s.attempts == map[]
    ensures NewLedger(s.ledger.sample, s.ledger.sample.revision, s.ledger.limits, Some(s.ledger.durable)) == Ok(s.ledger)
    ensures Enabled(s, Restart(s.ledger.limits, s.ledger.sample.revision))
    ensures Export(Step(s, Restart(s.ledger.limits, s.ledger.sample.revision))) == Export(s)
  {
    hide ValidHistory, Covers, LimitsAccepted;
    QuiescentLedgerExports(s);
    assert MemoryEnd(s.ledger) >= 2 * s.ledger.sample.revision;
  }

  // ---- attempts ---------------------------------------------------------------------------------

  /** Reserved blocks are disjoint and tile everything consumed; every block is
      live or finished, never both. */
  lemma BlocksTile(s: System, i: nat, j: nat)
    requires Inv(s) && i < j < |s.begun|
    ensures s.base < s.begun[i].first
    ensures s.begun[i].first + s.begun[i].claims < s.begun[j].first
    ensures s.begun[j].first + s.begun[j].claims <= MemoryEnd(s.ledger)
    ensures s.begun[i + 1].first == s.begun[i].first + s.begun[i].claims + 1
    ensures s.begun[i].first in s.finished <==> !IsLive(s.attempts, s.begun[i])
  {
    hide LedgerOk, AttemptsOk, Disjoint, AllApart, AllPendingOk, TargetsApart, NewestOpen, SerialOk, Capacity, Consumption, AuditTrue;
    assert s.begun[i] in s.begun;
    BegunBelow(s.begun, s.base, MemoryEnd(s.ledger), i);
    BegunBelow(s.begun, s.base, MemoryEnd(s.ledger), j);
    assert StartsInOrder(s.begun, s.base, i + 1);
    if i + 1 < j {
      BegunOrdered(s.begun, s.base, MemoryEnd(s.ledger), i + 1, j);
    }
  }

  /** A locally published attempt was accepted by the committer and every one of
      its claims succeeded; each ordinal's capability is called at most once. */
  lemma PublishedMeansCommitted(s: System, first: int)
    requires Inv(s) && first in s.finished && s.finished[first].outcome.Published?
    ensures s.finished[first].committerAccepted
    ensures forall i :: 0 <= i < |s.finished[first].outcomes| ==> s.finished[first].outcomes[i] == ClaimSucceeded
  {
    assert FinishedOk(s.finished[first]);
  }

  lemma CapabilityCalledAtMostOnce(s: System, k: string, ordinal: nat)
    requires Inv(s) && k in s.attempts && ordinal < |s.attempts[k].entries|
    ensures s.attempts[k].entries[ordinal].calls <= 1
    ensures s.attempts[k].entries[ordinal].state.Unresolved? ==> s.attempts[k].entries[ordinal].calls == 0
    ensures s.attempts[k].publicationCalls <= 1
  {
    assert AttemptOk(s.attempts[k], s.ledger.limits) && EntriesOk(s.attempts[k]);
  }

  /** Only finalization adds an outcome. */
  lemma StepFinishes(s: System, e: Event)
    requires Enabled(s, e)
    ensures !e.Finalize? ==> Step(s, e).finished == s.finished
    ensures e.Finalize? ==> e.key in s.attempts && s.attempts[e.key].AllResolved() && Step(s, e) == FinalizeStep(s, e.key)
  {
    hide AttemptAfter, LedgerAfter, NewLedger, Export, BeginEnabled;
  }

  lemma FinalizedIsNew(s: System, e: Event)
    requires Inv(s) && e.Finalize? && e.key in s.attempts && s.attempts[e.key].AllResolved()
    ensures s.attempts[e.key].first !in s.finished
  {
    hide LedgerOk, AllApart, AllPendingOk, TargetsApart, NewestOpen, SerialOk, Capacity, Consumption, AuditTrue;
    FinalizeAccounted(s, FinalizeStep(s, e.key), e.key);
  }

  /** A terminal outcome, once reached, never changes and is never reached twice. */
  lemma OutcomeIsFinal(s: System, e: Event, first: int)
    requires Inv(s) && Enabled(s, e) && first in s.finished
    ensures first in Step(s, e).finished && Step(s, e).finished[first] == s.finished[first]
  {
    hide Inv, Enabled, Step;
    StepFinishes(s, e);
    if e.Finalize? {
      FinalizedIsNew(s, e);
    }
  }

  lemma {:induction false} OutcomeStaysFinal(s: System, events: seq<Event>, first: int)
    requires Inv(s) && Legal(s, events) && first in s.finished
    ensures first in Exec(s, events).finished && Exec(s, events).finished[first] == s.finished[first]
    decreases |events|
  {
    hide Inv, Step, Enabled;
    if |events| > 0 {
      StepPreserves(s, events[0]);
      OutcomeIsFinal(s, events[0], first);
      OutcomeStaysFinal(Step(s, events[0]), events[1..], first);
    }
  }

  /** Every durable tombstone written since activation reports the outcome its
      attempt really had, and no uncommitted attempt appears in the history. */
  lemma AuditTellsTheTruth(s: System, t: Tombstone)
    requires Inv(s) && t in s.ledger.durable.tombstones && t.sequence > s.base
    ensures (exists first: uint64 :: FromFinished(s.finished, t, first)) || (exists k :: FromLive(s.attempts, t, k))
    ensures forall k :: k in s.attempts && !s.attempts[k].Committed() ==>
      !(s.attempts[k].first <= t.sequence <= s.attempts[k].Last())
  {
    hide AttemptsOk, Disjoint, AllPendingOk, TargetsApart, NewestOpen, SerialOk, Capacity, Consumption, Accounted, BegunTiles;
    DurableIsDense(s.ledger);
    var i :| 0 <= i < |s.ledger.durable.tombstones| && s.ledger.durable.tombstones[i] == t;
    forall k | k in s.attempts && !s.attempts[k].Committed()
      ensures !(s.attempts[k].first <= t.sequence <= s.attempts[k].Last())
    {
      assert Apart(s.attempts[k].first, s.attempts[k].Last(), s.ledger.durable);
    }
  }

  // ---- when a committed publication is also recorded locally --------------------------------------

  /** The durable state covers what every pending request was computed from. */
  ghost predicate ExpectedCovered(s: System) {
    forall k :: k in s.attempts && Pending(s.attempts[k]).Some? ==>
      var p := Pending(s.attempts[k]).value;
      Covers(s.ledger.durable, p.expected) && p.expected.truncated <= s.ledger.durable.truncated
  }

  lemma ExpectedStaysCoveredBy(durable: RestartState, later: RestartState, expected: RestartState)
    requires Covers(durable, expected) && expected.truncated <= durable.truncated
    requires Covers(later, durable) && durable.truncated <= later.truncated
    ensures Covers(later, expected) && expected.truncated <= later.truncated
  {
    CoversComposes(later, durable, expected);
  }

  lemma PendingAfter(ledger: Ledger, serial: Option<string>, a: Attempt, e: Event)
    requires AttemptEnabled(ledger, serial, a, e) && AttemptOk(a, ledger.limits)
    ensures var b := AttemptAfter(ledger, serial, a, e);
      Pending(b).Some? ==> Pending(b) == Pending(a) || Pending(b).value.expected == ledger.durable
  {
    hide TerminalTarget, Covers, ValidRestart;
  }

  lemma AttemptStepExpected(s: System, k: string, e: Event)
    requires Inv(s) && ExpectedCovered(s) && k in s.attempts && AttemptEnabled(s.ledger, s.serial, s.attempts[k], e)
    requires Covers(AttemptStep(s, k, e).ledger.durable, s.ledger.durable)
    requires s.ledger.durable.truncated <= AttemptStep(s, k, e).ledger.durable.truncated
    ensures ExpectedCovered(AttemptStep(s, k, e))
  {
    hide Covers, AttemptAfter, LedgerAfter, AttemptEnabled;
    hide LedgerOk, Disjoint, AllApart, AllPendingOk, TargetsApart, NewestOpen, SerialOk, Capacity, Consumption;
    hide BegunTiles, Accounted, AllFinishedOk, AuditTrue, AttemptOk;
    var t := AttemptStep(s, k, e);
    PendingAfter(s.ledger, s.serial, s.attempts[k], e);
    assert Covers(s.ledger.durable, s.ledger.durable) by { InvCoversItself(s); }
    forall j | j in t.attempts && Pending(t.attempts[j]).Some?
      ensures Covers(t.ledger.durable, Pending(t.attempts[j]).value.expected)
      ensures Pending(t.attempts[j]).value.expected.truncated <= t.ledger.durable.truncated
    {
      ExpectedStaysCoveredBy(s.ledger.durable, t.ledger.durable, Pending(t.attempts[j]).value.expected);
    }
  }

  lemma StepExpected(s: System, e: Event)
    requires Inv(s) && ExpectedCovered(s) && Enabled(s, e)
    ensures ExpectedCovered(Step(s, e))
  {
    hide Inv, Covers, AttemptAfter, LedgerAfter, NewLedger, AttemptStep, AttemptEnabled, Export;
    StepPreserves(s, e);
    if !e.Begin? && !e.Finalize? && !e.Restart? {
      AttemptStepExpected(s, e.key, e);
    } else if e.Restart? {
      assert s.attempts == map[] by { ExportNeedsQuiescence(s); }
    } else if e.Begin? {
      assert Pending(NewAttempt(s.ledger.next, e.identity, e.claims)) == None;
    }
  }

  lemma ExportNeedsQuiescence(s: System)
    requires Export(s).Ok?
    ensures s.attempts == map[]
  {
  }

  lemma {:induction false} RunExpected(s: System, events: seq<Event>)
    requires Inv(s) && ExpectedCovered(s) && Legal(s, events)
    ensures ExpectedCovered(Exec(s, events))
    decreases |events|
  {
    hide Inv, ExpectedCovered, Step, Enabled;
    if |events| > 0 {
      StepPreserves(s, events[0]);
      StepExpected(s, events[0]);
      RunExpected(Step(s, events[0]), events[1..]);
    }
  }

  lemma CoversPending(s: System, k: string)
    requires Inv(s) && ExpectedCovered(s) && k in s.attempts && Pending(s.attempts[k]).Some?
    requires EndSequence(Pending(s.attempts[k]).value.target) <= EndSequence(s.ledger.durable)
    ensures forall t :: t in Pending(s.attempts[k]).value.target.tombstones && t.sequence > s.ledger.durable.truncated ==>
      t in s.ledger.durable.tombstones
  {
    hide ValidRestart, LedgerOk, Disjoint, TargetsApart, NewestOpen, SerialOk, Capacity, Consumption;
    hide BegunTiles, Accounted, AllFinishedOk, AuditTrue;
    var a, p := s.attempts[k], Pending(s.attempts[k]).value;
    assert PendingOk(s.ledger.limits, MemoryEnd(s.ledger), a, p);
    assert Apart(a.first, a.Last(), s.ledger.durable);
    forall t | t in p.target.tombstones && t.sequence > s.ledger.durable.truncated
      ensures t in s.ledger.durable.tombstones
    {
      assert t !in Block(a, p.outcome);
    }
  }

  /** The durable state is still the one a request was computed from, or its
      watermark has since reached the request's. */
  predicate Recordable(ledger: Ledger, p: PendingTarget) {
    ledger.durable == p.expected || EndSequence(p.target) <= EndSequence(ledger.durable)
  }

  /** That is what the post-commit check decides. */
  lemma StillCurrentIff(s: System, k: string)
    requires Inv(s) && ExpectedCovered(s) && k in s.attempts && Pending(s.attempts[k]).Some?
    ensures var p := Pending(s.attempts[k]).value; StillCurrent(s.ledger, p.expected, p.target) <==> Recordable(s.ledger, p)
  {
    hide ValidHistory, Disjoint, TargetsApart, NewestOpen, SerialOk, Capacity, Consumption;
    hide BegunTiles, Accounted, AllFinishedOk, AuditTrue, AttemptsOk, ContentFrom, PublicationsAdded;
    var p := Pending(s.attempts[k]).value;
    assert PendingOk(s.ledger.limits, MemoryEnd(s.ledger), s.attempts[k], p);
    if EndSequence(p.target) <= EndSequence(s.ledger.durable) {
      CoversPending(s, k);
      DurableNeverGoesBack(s.ledger);
      assert ValidRestart(p.target, MaximumRestartLimits);
    }
  }

  /** What a positive reply to a publication request does. */
  predicate PublicationOutcome(s: System, t: System, k: string, recorded: bool)
    requires k in s.attempts && s.attempts[k].publication.PublicationRequested?
  {
    var p := s.attempts[k].publication;
    && k in t.attempts && t.attempts[k].committerAccepted && t.serial == (if recorded then s.serial else None)
    && if recorded then
        && t.attempts[k].publication == PublicationApplied
        && t.ledger == ApplyTarget(s.ledger, p.target).(sample := p.nextSample)
        && t.ledger.sample.revision == s.ledger.sample.revision + 1
        && Covers(t.ledger.durable, p.target)
      else t.attempts[k].publication == PublicationAbandoned && t.ledger == s.ledger
  }

  /** What a positive reply to a terminal commit request does. */
  predicate CommitOutcome(s: System, t: System, k: string, recorded: bool)
    requires k in s.attempts && s.attempts[k].commit.CommitRequested?
  {
    var p := s.attempts[k].commit;
    && k in t.attempts
    && if recorded then
        && t.attempts[k].commit == CommitApplied
        && t.ledger == ApplyTarget(s.ledger, p.target)
        && Covers(t.ledger.durable, p.target)
      else t.attempts[k].commit == CommitFailed && t.ledger == s.ledger
  }

  /** A publication the committer accepted is recorded locally - revision advanced,
      target covered - if and only if its request is still recordable. Otherwise
      another attempt's commit moved the durable state without covering it, and
      the publication is abandoned locally although the committer committed it. */
  lemma PublicationReplyIsRecordedIff(s: System, k: string)
    requires Inv(s) && ExpectedCovered(s) && k in s.attempts && s.attempts[k].publication.PublicationRequested?
    ensures Enabled(s, Event.PublicationReply(k, true))
    ensures PublicationOutcome(s, Step(s, Event.PublicationReply(k, true)), k, Recordable(s.ledger, Pending(s.attempts[k]).value))
  {
    hide Inv, ExpectedCovered, StillCurrent, Recordable, Covers;
    StillCurrentIff(s, k);
    SampleIsExpected(s, k);
    AppliedIsCovered(s, k);
  }

  /** A terminal commit the committer accepted likewise; otherwise it is retained
      as failed, to be asked again. */
  lemma CommitReplyIsRecordedIff(s: System, k: string)
    requires Inv(s) && ExpectedCovered(s) && k in s.attempts && s.attempts[k].commit.CommitRequested?
    ensures Enabled(s, CommitReply(k, true))
    ensures CommitOutcome(s, Step(s, CommitReply(k, true)), k, Recordable(s.ledger, PendingTarget(
      s.attempts[k].commit.expected, s.attempts[k].commit.target, s.attempts[k].terminalOutcome)))
  {
    hide Inv, ExpectedCovered, StillCurrent, Recordable, ApplyTarget, Covers;
    OneRequest(s, k);
    StillCurrentIff(s, k);
    AppliedIsCovered(s, k);
  }

  /** Nothing else moves the sample state while a publication is pending. */
  lemma SampleIsExpected(s: System, k: string)
    requires Inv(s) && k in s.attempts && s.attempts[k].publication.PublicationRequested?
    ensures s.attempts[k].publication.expectedSample == s.ledger.sample && s.serial == Some(k)
    ensures s.ledger.sample.revision != MAX_UINT64
    ensures s.attempts[k].publication.nextSample.revision == s.ledger.sample.revision + 1
  {
    hide LedgerOk, AttemptsOk, Disjoint, AllApart, AllPendingOk, TargetsApart, NewestOpen, Capacity, Consumption;
    hide BegunTiles, Accounted, AllFinishedOk, AuditTrue;
    assert SampleRequestOk(s.ledger.sample, s.attempts[k]);
    assert HoldsSerial(s.attempts[k]);
  }

  lemma OneRequest(s: System, k: string)
    requires Inv(s) && k in s.attempts && s.attempts[k].commit.CommitRequested?
    ensures Pending(s.attempts[k]) ==
      Some(PendingTarget(s.attempts[k].commit.expected, s.attempts[k].commit.target, s.attempts[k].terminalOutcome))
  {
    hide LedgerOk, Disjoint, AllApart, AllPendingOk, TargetsApart, NewestOpen, SerialOk, Capacity, Consumption;
    hide BegunTiles, Accounted, AllFinishedOk, AuditTrue;
    assert AttemptOk(s.attempts[k], s.ledger.limits);
  }

  lemma AppliedIsCovered(s: System, k: string)
    requires Inv(s) && k in s.attempts && Pending(s.attempts[k]).Some?
    ensures Covers(ApplyTarget(s.ledger, Pending(s.attempts[k]).value.target).durable, Pending(s.attempts[k]).value.target)
  {
    hide AttemptsOk, Disjoint, AllApart, TargetsApart, NewestOpen, SerialOk, Capacity, Consumption;
    hide BegunTiles, Accounted, AllFinishedOk, AuditTrue, Covers, ValidRestart, ContentFrom, PublicationsAdded;
    var p := Pending(s.attempts[k]).value;
    assert PendingOk(s.ledger.limits, MemoryEnd(s.ledger), s.attempts[k], p);
    ActivatedRanges(s.ledger.limits);
    ValidUnderMaximum(p.target, s.ledger.limits);
    CoversReflexive(p.target);
  }

  lemma ActivatedRanges(limits: LedgerLimits)
    requires Activated(limits)
    ensures limits.maxClaimEntriesPerAttempt <= MAX_PROFILE_DEPENDENCIES
    ensures limits.auditTombstoneMaxEncodedBytes <= MAX_SERIALIZED_CONTRACT_BYTES
  {
  }

  /** Both, in every state of every run that starts with no attempt retained. */
  lemma RepliesOnEveryRun(s: System, events: seq<Event>, k: string)
    requires Inv(s) && s.attempts == map[] && Legal(s, events) && k in Exec(s, events).attempts
    ensures var t := Exec(s, events); var a := t.attempts[k];
      && (a.publication.PublicationRequested? ==>
          && Enabled(t, Event.PublicationReply(k, true))
          && PublicationOutcome(t, Step(t, Event.PublicationReply(k, true)), k,
              Recordable(t.ledger, PendingTarget(a.publication.expected, a.publication.target, Published))))
      && (a.commit.CommitRequested? ==>
          && Enabled(t, CommitReply(k, true))
          && CommitOutcome(t, Step(t, CommitReply(k, true)), k,
              Recordable(t.ledger, PendingTarget(a.commit.expected, a.commit.target, a.terminalOutcome))))
  {
    hide Inv, Legal, Exec, Enabled, Step, PublicationOutcome, CommitOutcome, Recordable;
    RunPreserves(s, events);
    RunExpected(s, events);
    var t := Exec(s, events);
    if t.attempts[k].publication.PublicationRequested? {
      PublicationReplyIsRecordedIff(t, k);
    }
    if t.attempts[k].commit.CommitRequested? {
      CommitReplyIsRecordedIff(t, k);
    }
  }
}
