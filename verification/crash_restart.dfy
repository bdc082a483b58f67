/** What a crash can leave behind: in every state of every run the recorded pair of
    sample state and restart state, and the pair every pending publication hands to
    the committer, are accepted by a restart. */
module CrashRestart {
  import opened Foundation
  import opened LedgerTypes
  import opened RestartHistory
  import opened TerminalMerge
  import opened LedgerProtocol
  import opened LedgerInvariant
  import opened LedgerSteps
  import opened LedgerTheorems

  /** A restart accepts the pair, unless it trusts a later revision. */
  ghost predicate Restarts(sample: SampleState, restart: RestartState, limits: LedgerLimits) {
    forall minimum: uint64 :: minimum <= sample.revision ==> NewLedger(sample, minimum, limits, Some(restart)).Ok?
  }

  /** Retained publications against the sample revision. */
  predicate CountsAgree(sample: SampleState, restart: RestartState) {
    && PublishedCount(restart.tombstones) <= sample.revision
    && (restart.truncated == 0 ==> PublishedCount(restart.tombstones) == sample.revision)
  }

  lemma RestartsIff(sample: SampleState, restart: RestartState, limits: LedgerLimits)
    ensures Restarts(sample, restart, limits) <==>
      && LimitsAccepted(limits) && ValidSample(sample, 0) && ValidRestart(restart, limits)
      && CountsAgree(sample, restart) && EndSequence(restart) >= 2 * sample.revision
  {
    hide LimitsAccepted, ValidHistory, AggregateFits, PublishedCount;
    if Restarts(sample, restart, limits) {
      assert NewLedger(sample, 0, limits, Some(restart)).Ok?;
    }
  }

  // ---- the pair a publication request carries ---------------------------------------------

  /** A committed publication is one of the next sample state. */
  lemma NextSampleIsValid(sample: SampleState, identity: AttemptIdentity)
    requires ValidSample(sample, 0) && sample.revision != MAX_UINT64 && IdentityAdvances(sample.lastCommitted, identity)
    ensures sample.highWater != MAX_UINT64 && ValidSample(AdvanceSample(sample, identity), sample.revision + 1)
  {
  }

  /** An attempt the revision does not count yet has consumed two sequences of its own. */
  lemma UncountedConsumption(s: System, k: string)
    requires Consumption(s) && k in s.attempts && !s.attempts[k].Counted()
    ensures MemoryEnd(s.ledger) >= 2 * (s.ledger.sample.revision + 1)
  {
    TotalRemove(s.attempts, OwedWeight, k);
    TotalNonNegative(s.attempts - {k}, OwedWeight);
  }

  lemma RequestedTarget(ledger: Ledger, a: Attempt)
    requires LedgerOk(ledger) && AttemptOk(a, ledger.limits) && a.AllResolved()
    requires a.Last() <= MemoryEnd(ledger) && Apart(a.first, a.Last(), ledger.durable)
    requires BlockOutcomes(Published, a.Outcomes())
    ensures var target := Target(ledger, a, Published);
      target.Ok? ==>
        && ValidRestart(target.value, ledger.limits) && EndSequence(target.value) == MemoryEnd(ledger)
        && ledger.durable.truncated <= target.value.truncated && PublicationsAdded(ledger.durable, target.value, Published)
        && target.value.next == ledger.next && target.value.exhausted == ledger.exhausted
  {
    hide TerminalTarget, ValidHistory, AggregateFits, AttemptBlock, LiveBlock, Covers, ContentFrom;
    RequestIsSound(ledger, a, Published);
    BlockIsLive(ledger, a, Published);
    TargetCovers(ledger.durable, ledger.next, ledger.exhausted, ledger.limits, Block(a, Published));
  }

  /** A request for the next sample state whose pair restarts, and restores the
      in-memory watermark it was computed at. */
  ghost predicate RequestsRestart(ledger: Ledger, p: Publication) {
    && p.PublicationRequested? && p.nextSample.revision == ledger.sample.revision + 1
    && Restarts(p.nextSample, p.target, ledger.limits)
    && p.target.next == ledger.next && p.target.exhausted == ledger.exhausted
  }

  lemma RequestedPairRestarts(s: System, k: string)
    requires Inv(s) && LimitsAccepted(s.ledger.limits) && Enabled(s, Event.RequestPublication(k))
    ensures var t := Step(s, Event.RequestPublication(k));
      k in t.attempts && RequestsRestart(s.ledger, t.attempts[k].publication)
  {
    hide LimitsAccepted, ValidHistory, AggregateFits, TerminalTarget, AttemptBlock, Restarts, Covers, PublishedCount, BlockOutcomes;
    hide Disjoint, AllPendingOk, TargetsApart, NewestOpen, SerialOk, Capacity, Consumption, BegunTiles, Accounted, AllFinishedOk, AuditTrue;
    var a, e := s.attempts[k], Event.RequestPublication(k);
    RequestShape(s.ledger, s.serial, a, e);
    RequestedTarget(s.ledger, a);
    UncountedConsumption(s, k);
    NextSampleIsValid(s.ledger.sample, a.identity);
    var p := Step(s, e).attempts[k].publication;
    RestartsIff(p.nextSample, p.target, s.ledger.limits);
  }

  // ---- every reachable state ------------------------------------------------------------------

  /** Whatever a crash leaves in the committer's store can be restarted from. */
  ghost predicate CrashSafe(s: System) {
    && Restarts(s.ledger.sample, s.ledger.durable, s.ledger.limits)
    && forall k :: k in s.attempts && s.attempts[k].publication.PublicationRequested? ==>
        Restarts(s.attempts[k].publication.nextSample, s.attempts[k].publication.target, s.ledger.limits)
  }

  lemma LedgerRestarts(ledger: Ledger)
    requires LedgerOk(ledger) && LimitsAccepted(ledger.limits) && EndSequence(ledger.durable) >= 2 * ledger.sample.revision
    ensures Restarts(ledger.sample, ledger.durable, ledger.limits)
  {
    hide LimitsAccepted, ValidRestart, PublishedCount, Restarts;
    RestartsIff(ledger.sample, ledger.durable, ledger.limits);
  }

  /** A publication reply is the only event that moves the sample state. */
  lemma SampleAfter(s: System, k: string, e: Event)
    requires Inv(s) && k in s.attempts && AttemptEnabled(s.ledger, s.serial, s.attempts[k], e)
    ensures var a, ledger := s.attempts[k], LedgerAfter(s.ledger, s.attempts[k], e);
      && ledger.limits == s.ledger.limits
      && (ledger.sample == s.ledger.sample ||
          (a.publication.PublicationRequested? && ledger.sample == a.publication.nextSample
           && Covers(ledger.durable, a.publication.target)))
  {
    hide Inv, Covers, TerminalTarget;
    if e.PublicationReply? {
      AppliedIsCovered(s, k);
    }
  }

  lemma PublicationAfter(ledger: Ledger, serial: Option<string>, a: Attempt, e: Event)
    requires AttemptEnabled(ledger, serial, a, e)
    ensures AttemptAfter(ledger, serial, a, e).publication.PublicationRequested? ==>
      e.RequestPublication? || AttemptAfter(ledger, serial, a, e).publication == a.publication
  {
    hide TerminalTarget, Covers, AttemptBlock;
  }

  lemma WatermarkAfter(s: System, k: string, e: Event)
    requires Inv(s) && CrashSafe(s) && k in s.attempts && AttemptEnabled(s.ledger, s.serial, s.attempts[k], e)
    requires Covers(AttemptStep(s, k, e).ledger.durable, s.ledger.durable)
    ensures LimitsAccepted(s.ledger.limits)
    ensures var ledger := AttemptStep(s, k, e).ledger;
      ledger.limits == s.ledger.limits && EndSequence(ledger.durable) >= 2 * ledger.sample.revision
  {
    hide Inv, Restarts, LimitsAccepted, ValidRestart, AttemptAfter, LedgerAfter, AttemptEnabled, CountsAgree;
    var a := s.attempts[k];
    SampleAfter(s, k, e);
    RestartsIff(s.ledger.sample, s.ledger.durable, s.ledger.limits);
    if a.publication.PublicationRequested? {
      RestartsIff(a.publication.nextSample, a.publication.target, s.ledger.limits);
    }
  }

  lemma AttemptStepSafe(s: System, k: string, e: Event)
    requires Inv(s) && CrashSafe(s) && k in s.attempts && AttemptEnabled(s.ledger, s.serial, s.attempts[k], e)
    requires !e.Begin? && !e.Finalize? && !e.Restart? && e.key == k
    ensures CrashSafe(Step(s, e))
  {
    hide Inv, Covers, Restarts, LimitsAccepted, AttemptAfter, LedgerAfter, AttemptEnabled, LedgerOk;
    var t := AttemptStep(s, k, e);
    assert Enabled(s, e) && Step(s, e) == t;
    StepPreserves(s, e);
    WatermarkAfter(s, k, e);
    assert LedgerOk(t.ledger) by { InvHasLedger(t); }
    LedgerRestarts(t.ledger);
    PublicationAfter(s.ledger, s.serial, s.attempts[k], e);
    if e.RequestPublication? {
      RequestedPairRestarts(s, k);
    }
  }

  lemma InvHasLedger(s: System)
    requires Inv(s)
    ensures LedgerOk(s.ledger)
  {
  }

  lemma BeginSafe(s: System, key: string, identity: AttemptIdentity, claims: nat)
    requires CrashSafe(s) && BatchAvailable(s.ledger.next, s.ledger.exhausted, claims)
    ensures CrashSafe(BeginStep(s, key, identity, claims))
  {
    hide Restarts;
  }

  lemma FinalizeSafe(s: System, k: string)
    requires CrashSafe(s) && k in s.attempts && s.attempts[k].AllResolved()
    ensures CrashSafe(FinalizeStep(s, k))
  {
    hide Restarts;
  }

  lemma StepSafe(s: System, e: Event)
    requires Inv(s) && CrashSafe(s) && Enabled(s, e)
    ensures CrashSafe(Step(s, e))
  {
    hide Inv, CrashSafe, AttemptAfter, LedgerAfter, AttemptStep, BeginStep, FinalizeStep, RestartStep, NewLedger, Export;
    match e
    case Begin(key, identity, claims) => BeginSafe(s, key, identity, claims);
    case Finalize(key) => FinalizeSafe(s, key);
    case Restart(limits, minimum) => RestartSafe(s, limits, minimum);
    case _ => AttemptStepSafe(s, e.key, e);
  }

  lemma RestartSafe(s: System, limits: LedgerLimits, minimum: uint64)
    requires CrashSafe(s) && Enabled(s, Restart(limits, minimum))
    ensures CrashSafe(Step(s, Restart(limits, minimum)))
  {
    hide LimitsAccepted, ValidRestart, PublishedCount;
  }

  lemma {:induction false} RunSafe(s: System, events: seq<Event>)
    requires Inv(s) && CrashSafe(s) && Legal(s, events)
    ensures CrashSafe(Exec(s, events))
    decreases |events|
  {
    hide Inv, CrashSafe, Step, Enabled;
    if |events| > 0 {
      StepPreserves(s, events[0]);
      StepSafe(s, events[0]);
      RunSafe(Step(s, events[0]), events[1..]);
    }
  }

  /** A run from activation can crash anywhere: the pair recorded last and the pair
      of every publication the committer is still deciding are accepted by a restart,
      which trusts any revision up to the pair's own. */
  lemma EveryCrashRestarts(s: System, sample: SampleState, trustedMinimum: uint64, limits: LedgerLimits,
                           restart: Option<RestartState>, events: seq<Event>)
    requires Initial(s, sample, trustedMinimum, limits, restart) && Legal(s, events)
    ensures CrashSafe(Exec(s, events))
  {
    hide Inv, Legal, Exec, LedgerOk, NewLedger, Restarts;
    InitialInvariant(s, sample, trustedMinimum, limits, restart);
    NewLedgerOk(sample, trustedMinimum, limits, restart);
    assert LimitsAccepted(limits) && s.ledger.limits == limits by { NewLedgerLimits(sample, trustedMinimum, limits, restart); }
    LedgerRestarts(s.ledger);
    RunSafe(s, events);
  }

  lemma NewLedgerLimits(sample: SampleState, trustedMinimum: uint64, limits: LedgerLimits, restart: Option<RestartState>)
    requires NewLedger(sample, trustedMinimum, limits, restart).Ok?
    ensures LimitsAccepted(limits) && NewLedger(sample, trustedMinimum, limits, restart).value.limits == limits
  {
    hide LimitsAccepted, ValidRestart, SampleAgrees;
  }
}
