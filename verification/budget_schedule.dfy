/** Whether a terminal commit can be refused for the size of the history: runs in
    which it is, and the limits under which it never is. */
module BudgetSchedule {
  import opened Foundation
  import opened LedgerTypes
  import opened RestartHistory
  import opened TerminalMerge
  import opened HistoryBudget
  import opened LedgerProtocol
  import opened LedgerInvariant
  import opened LedgerSteps
  import opened LedgerTheorems
  import opened OverlapSchedule

  // ---- below the bound ---------------------------------------------------------------------------

  /** Where no retained history exceeds the budget a terminal commit always becomes a request. */
  lemma CommitIsRequested(s: System, k: string)
    requires Inv(s) && Enabled(s, RequestCommit(k)) && ValidLimits(s.ledger.limits) && HistoriesFit(s.ledger.limits)
    ensures k in Step(s, RequestCommit(k)).attempts && Step(s, RequestCommit(k)).attempts[k].commit.CommitRequested?
  {
    hide Inv, AttemptOk, Target, HistoriesFit, MergedHistory, RestartAt, AggregateFits, Conflicting, Block, LedgerAfter, BlockOutcomes;
    CommitIsLive(s, k);
    RestartStateNeverConflicts(s, k, s.attempts[k].terminalOutcome);
  }

  lemma CommitIsLive(s: System, k: string)
    requires Inv(s) && Enabled(s, RequestCommit(k))
    ensures k in s.attempts && !s.attempts[k].Committed() && s.attempts[k].AllResolved()
    ensures BlockOutcomes(s.attempts[k].terminalOutcome, s.attempts[k].Outcomes())
  {
    hide LedgerOk, Disjoint, AllApart, AllPendingOk, TargetsApart, NewestOpen, SerialOk, Capacity, Consumption;
    hide BegunTiles, Accounted, AllFinishedOk, AuditTrue, Target;
    assert AttemptOk(s.attempts[k], s.ledger.limits);
  }

  // ---- above it: a run --------------------------------------------------------------------------------

  /** The ledger between two attempts, after count of them lost every claim. */
  function Resting(limits: LedgerLimits, count: nat): Ledger
    requires Room(limits, count)
  {
    var claims := limits.maxClaimEntriesPerAttempt;
    Ledger(limits, Fresh, Consumed(count, claims) + 1, false, RejectedState(count, claims), 0)
  }

  predicate Room(limits: LedgerLimits, count: nat) {
    0 < limits.maxClaimEntriesPerAttempt && Consumed(count + 1, limits.maxClaimEntriesPerAttempt) < MAX_UINT64
  }

  /** The ledger while one more attempt is retained. */
  function Busy(limits: LedgerLimits, count: nat, durable: RestartState): Ledger
    requires Room(limits, count)
  {
    var claims := limits.maxClaimEntriesPerAttempt;
    Ledger(limits, Fresh, Consumed(count + 1, claims) + 1, false, durable, claims)
  }

  /** That attempt after its first n claims were rejected. */
  function Rejected(first: uint64, claims: nat, n: nat, inProgress: bool): Attempt
    requires first + claims <= MAX_UINT64
  {
    Attempt(AttemptIdentity(1, 0), first, Entries(first, claims, n, inProgress),
            Open, true, false, NotPublishing, CommitIdle, Open, false, false, 0)
  }

  function Entries(first: uint64, claims: nat, n: nat, inProgress: bool): (entries: seq<ClaimEntry>)
    requires first + claims <= MAX_UINT64
    ensures |entries| == claims
  {
    seq(claims, i requires 0 <= i < claims =>
      ClaimEntry(if i < n then Resolved(ClaimRejectedTerminal) else if i == n && inProgress then InProgress else Unresolved,
                 first + 1 + i, if i < n || (i == n && inProgress) then 1 else 0))
  }

  lemma RejectionEffects(ledger: Ledger, first: uint64, claims: nat, n: nat)
    requires first + claims <= MAX_UINT64 && n < claims
    ensures Becomes(ledger, None, Rejected(first, claims, n, false), StartClaim("b", n), Rejected(first, claims, n, true), ledger, None)
    ensures Becomes(ledger, None, Rejected(first, claims, n, true), EndClaim("b", n, ClaimRejectedTerminal),
                    Rejected(first, claims, n + 1, false), ledger, None)
  {
    assert Entries(first, claims, n, false)[n := ClaimEntry(InProgress, first + 1 + n, 1)] == Entries(first, claims, n, true);
    assert Entries(first, claims, n, true)[n := ClaimEntry(Resolved(ClaimRejectedTerminal), first + 1 + n, 1)]
        == Entries(first, claims, n + 1, false);
  }

  /** One claim after the other is rejected. */
  lemma {:induction false} RejectClaims(start: System, events: seq<Event>, s: System, first: uint64, claims: nat, n: nat)
    returns (longer: seq<Event>, t: System)
    requires Reaches(start, events, s) && first + claims <= MAX_UINT64 && n <= claims && s.serial == None
    requires s.attempts == map["b" := Rejected(first, claims, n, false)]
    ensures Reaches(start, longer, t) && t == s.(attempts := map["b" := Rejected(first, claims, claims, false)])
    decreases claims - n
  {
    hide Reaches, Becomes, Rejected;
    longer, t := events, s;
    if n < claims {
      RejectionEffects(s.ledger, first, claims, n);
      longer, t := Take(start, longer, t, StartClaim("b", n), Rejected(first, claims, n, true), s.ledger, None);
      longer, t := Take(start, longer, t, EndClaim("b", n, ClaimRejectedTerminal), Rejected(first, claims, n + 1, false), s.ledger, None);
      assert t == s.(attempts := map["b" := Rejected(first, claims, n + 1, false)]);
      longer, t := RejectClaims(start, longer, t, first, claims, n + 1);
    }
  }

  /** The attempt once it is cancelled and its commit runs. */
  function Withdrawn(first: uint64, claims: nat, commit: Commit, outcome: AttemptPhase): Attempt
    requires first + claims <= MAX_UINT64
  {
    Rejected(first, claims, claims, false).(phase := Cancelling, drained := true, commit := commit, terminalOutcome := outcome)
  }

  predicate AtRest(s: System, limits: LedgerLimits, count: nat)
    requires Room(limits, count)
  {
    s.ledger == Resting(limits, count) && s.attempts == map[] && s.serial == None
  }

  /** The next attempt is about to ask for its terminal commit. */
  predicate Asking(s: System, limits: LedgerLimits, count: nat)
    requires Room(limits, count)
  {
    var claims := limits.maxClaimEntriesPerAttempt;
    && s.ledger == Busy(limits, count, RejectedState(count, claims)) && s.serial == None
    && s.attempts == map["b" := Withdrawn(Consumed(count, claims) + 1, claims, CommitStarted, CancelFailed)]
  }

  lemma WithdrawEffects(ledger: Ledger, first: uint64, claims: nat)
    requires first + claims <= MAX_UINT64
    ensures Becomes(ledger, None, Rejected(first, claims, claims, false), StartCancel("b"),
                    Rejected(first, claims, claims, false).(phase := Cancelling), ledger, None)
    ensures Becomes(ledger, None, Rejected(first, claims, claims, false).(phase := Cancelling), Drain("b"),
                    Withdrawn(first, claims, CommitIdle, Open), ledger, None)
    ensures Becomes(ledger, None, Withdrawn(first, claims, CommitIdle, Open), StartCommit("b", CancelFailed),
                    Withdrawn(first, claims, CommitStarted, CancelFailed), ledger, None)
  {
    assert CancelUnresolved(Entries(first, claims, claims, false)) == Entries(first, claims, claims, false);
  }

  lemma AdmitEffect(ledger: Ledger, first: uint64, claims: nat)
    requires first + claims <= MAX_UINT64
    ensures Becomes(ledger, None, Rejected(first, claims, 0, false).(admitted := false), Admit("b"), Rejected(first, claims, 0, false), ledger, None)
  {
  }

  lemma BeginNext(start: System, events: seq<Event>, s: System, limits: LedgerLimits, count: nat)
    returns (longer: seq<Event>, t: System)
    requires Reaches(start, events, s) && LimitsAccepted(limits) && Room(limits, count)
    requires AtRest(s, limits, count)
    ensures Reaches(start, longer, t) && t.serial == None
    ensures t.ledger == Busy(limits, count, RejectedState(count, limits.maxClaimEntriesPerAttempt))
    ensures var claims := limits.maxClaimEntriesPerAttempt; var first := Consumed(count, claims) + 1;
      t.attempts == map["b" := Rejected(first, claims, 0, false).(admitted := false)]
  {
    hide Reaches, RejectedState, LimitsAccepted;
    AcceptedIsActivated(limits);
    var claims := limits.maxClaimEntriesPerAttempt;
    var first, e := Consumed(count, claims) + 1, Begin("b", AttemptIdentity(1, 0), claims);
    assert NewAttempt(first, e.identity, claims) == Rejected(first, claims, 0, false).(admitted := false) by {
      assert NewAttempt(first, e.identity, claims).entries == Entries(first, claims, 0, false);
    }
    Follow(start, events, s, e);
    longer, t := events + [e], Step(s, e);
  }

  lemma AcceptedIsActivated(limits: LedgerLimits)
    requires LimitsAccepted(limits)
    ensures Activated(limits) && 0 < limits.maxRetainedAttempts && limits.maxClaimEntriesPerAttempt <= limits.maxRetainedClaimEntries
  {
  }

  /** One more attempt is begun, loses every claim and is cancelled; its terminal
      commit is about to be asked for. */
  lemma CancelNext(start: System, events: seq<Event>, s: System, limits: LedgerLimits, count: nat)
    returns (longer: seq<Event>, t: System)
    requires Reaches(start, events, s) && LimitsAccepted(limits) && Room(limits, count)
    requires AtRest(s, limits, count)
    ensures Reaches(start, longer, t) && Asking(t, limits, count)
  {
    hide Becomes, Reaches, LimitsAccepted, Rejected, Withdrawn, AtRest, Busy, RejectedState;
    var claims := limits.maxClaimEntriesPerAttempt;
    var first := Consumed(count, claims) + 1;
    longer, t := BeginNext(start, events, s, limits, count);
    AdmitEffect(t.ledger, first, claims);
    WithdrawEffects(t.ledger, first, claims);
    longer, t := Take(start, longer, t, Admit("b"), Rejected(first, claims, 0, false), t.ledger, None);
    assert t.attempts == map["b" := Rejected(first, claims, 0, false)];
    longer, t := RejectClaims(start, longer, t, first, claims, 0);
    longer, t := Take(start, longer, t, StartCancel("b"), Rejected(first, claims, claims, false).(phase := Cancelling), t.ledger, None);
    longer, t := Take(start, longer, t, Drain("b"), Withdrawn(first, claims, CommitIdle, Open), t.ledger, None);
    longer, t := Take(start, longer, t, StartCommit("b", CancelFailed), Withdrawn(first, claims, CommitStarted, CancelFailed), t.ledger, None);
    assert t.attempts == map["b" := Withdrawn(first, claims, CommitStarted, CancelFailed)];
  }

  /** Where the commit of that attempt goes when it is asked for. */
  function Reply(limits: LedgerLimits, count: nat): Commit
    requires Activated(limits) && RejectedFits(limits, count)
  {
    var claims, target := limits.maxClaimEntriesPerAttempt, NextTarget(limits, count);
    RejectedIsDurable(limits, count);
    if target.Ok? then CommitRequested(RejectedState(count, claims), target.value) else CommitFailed
  }

  lemma RequestEffect(limits: LedgerLimits, count: nat)
    requires Activated(limits) && RejectedFits(limits, count) && Room(limits, count)
    ensures var claims := limits.maxClaimEntriesPerAttempt;
      var ledger, first := Busy(limits, count, RejectedState(count, claims)), Consumed(count, claims) + 1;
      Becomes(ledger, None, Withdrawn(first, claims, CommitStarted, CancelFailed), RequestCommit("b"),
              Withdrawn(first, claims, Reply(limits, count), CancelFailed), ledger, None)
  {
    hide TerminalTarget, AttemptBlock, RejectedHistory, EncodedBytes;
    var claims := limits.maxClaimEntriesPerAttempt;
    assert Withdrawn(Consumed(count, claims) + 1, claims, CommitStarted, CancelFailed).Outcomes() == Rejections(claims);
  }

  lemma RecordEffects(limits: LedgerLimits, count: nat, target: RestartState)
    requires Room(limits, count) && EndSequence(target) > Consumed(count, limits.maxClaimEntriesPerAttempt)
    ensures var claims := limits.maxClaimEntriesPerAttempt;
      var durable, first := RejectedState(count, claims), Consumed(count, claims) + 1;
      var before, after := Busy(limits, count, durable), Busy(limits, count, target);
      && Becomes(before, None, Withdrawn(first, claims, CommitRequested(durable, target), CancelFailed), CommitReply("b", true),
                 Withdrawn(first, claims, CommitApplied, CancelFailed), after, None)
      && Becomes(after, None, Withdrawn(first, claims, CommitApplied, CancelFailed), MarkCommitted("b"),
                 Withdrawn(first, claims, CommitRecorded, CancelFailed).(restartCommitted := true), after, None)
  {
    hide ValidRestart, RejectedHistory, Entries;
  }

  /** A granted commit is recorded and the attempt finalized. */
  lemma RecordNext(start: System, events: seq<Event>, s: System, limits: LedgerLimits, count: nat)
    returns (longer: seq<Event>, t: System)
    requires Activated(limits) && !HistoriesFit(limits) && RejectedFits(limits, count) && RejectedFits(limits, count + 1)
    requires Room(limits, count) && Room(limits, count + 1)
    requires Reaches(start, events, s) && Asking(s, limits, count)
    ensures Reaches(start, longer, t) && AtRest(t, limits, count + 1)
  {
    hide Becomes, Reaches, Withdrawn, NextTarget, RejectedState, RejectedFits, HistoriesFit, Busy, AtRest, EncodedBytes;
    var claims := limits.maxClaimEntriesPerAttempt;
    var durable, target := RejectedState(count, claims), RejectedState(count + 1, claims);
    var first, after := Consumed(count, claims) + 1, Busy(limits, count, target);
    NextMerge(limits, count);
    RequestEffect(limits, count);
    assert EndSequence(target) > Consumed(count, claims) by { StateEnds(count + 1, claims); }
    RecordEffects(limits, count, target);
    longer, t := Take(start, events, s, RequestCommit("b"), Withdrawn(first, claims, CommitRequested(durable, target), CancelFailed), s.ledger, None);
    longer, t := Take(start, longer, t, CommitReply("b", true), Withdrawn(first, claims, CommitApplied, CancelFailed), after, None);
    longer, t := Take(start, longer, t, MarkCommitted("b"),
                      Withdrawn(first, claims, CommitRecorded, CancelFailed).(restartCommitted := true), after, None);
    assert t.attempts.Keys == {"b"};
    longer, t := FinalizeNext(start, longer, t, limits, count);
  }

  lemma StateEnds(count: nat, claims: nat)
    requires 0 < count && Consumed(count, claims) < MAX_UINT64
    ensures EndSequence(RejectedState(count, claims)) > Consumed(count - 1, claims)
  {
  }

  lemma FinalizeNext(start: System, events: seq<Event>, s: System, limits: LedgerLimits, count: nat)
    returns (longer: seq<Event>, t: System)
    requires Reaches(start, events, s) && Room(limits, count) && Room(limits, count + 1)
    requires var claims := limits.maxClaimEntriesPerAttempt;
      && s.ledger == Busy(limits, count, RejectedState(count + 1, claims)) && s.serial == None
      && s.attempts.Keys == {"b"}
      && s.attempts["b"] == Withdrawn(Consumed(count, claims) + 1, claims, CommitRecorded, CancelFailed).(restartCommitted := true)
    ensures Reaches(start, longer, t) && AtRest(t, limits, count + 1)
  {
    hide Reaches, RejectedState;
    var e := Finalize("b");
    Follow(start, events, s, e);
    longer, t := events + [e], Step(s, e);
    assert t.attempts.Keys == {};
  }

  /** A freshly activated ledger. */
  function FreshSystem(limits: LedgerLimits): System {
    System(Ledger(limits, Fresh, 1, false, FreshRestart, 0), map[], None, 0, [], map[])
  }

  /** From there the attempts follow each other until a commit is refused. */
  lemma {:induction false} RunUntilRefused(start: System, events: seq<Event>, s: System, limits: LedgerLimits, count: nat)
    returns (longer: seq<Event>, t: System)
    requires LimitsAccepted(limits) && !HistoriesFit(limits) && RejectedFits(limits, count) && Room(limits, count)
    requires Reaches(start, events, s) && AtRest(s, limits, count)
    ensures Reaches(start, longer, t) && t.ledger.limits == limits
    ensures Enabled(t, RequestCommit("b")) && Step(t, RequestCommit("b")).attempts["b"].commit == CommitFailed
    decreases limits.auditTombstoneLimit - Consumed(count, limits.maxClaimEntriesPerAttempt)
  {
    hide Reaches, LimitsAccepted, HistoriesFit, NextTarget, RejectedState, Withdrawn, Becomes;
    AcceptedIsActivated(limits);
    longer, t := CancelNext(start, events, s, limits, count);
    if RejectedFits(limits, count + 1) {
      RejectedIsDurable(limits, count + 1);
      longer, t := RecordNext(start, longer, t, limits, count);
      longer, t := RunUntilRefused(start, longer, t, limits, count + 1);
    } else {
      NextMerge(limits, count);
      RequestIsRefused(t, limits, count);
    }
  }

  lemma RequestIsRefused(s: System, limits: LedgerLimits, count: nat)
    requires Activated(limits) && RejectedFits(limits, count) && Room(limits, count) && NextTarget(limits, count).Err?
    requires Asking(s, limits, count)
    ensures Enabled(s, RequestCommit("b")) && Step(s, RequestCommit("b")).attempts["b"].commit == CommitFailed
  {
    hide Activated, AttemptEnabled, AttemptAfter, Rejected, NextTarget, RejectedState, RejectedFits;
    RequestEffect(limits, count);
  }

  /** Under accepted limits that leave room for a history beyond the budget, a legal
      run of a fresh ledger after which a terminal commit is asked for and refused. */
  lemma CommitCanBeRefused(limits: LedgerLimits) returns (events: seq<Event>)
    requires LimitsAccepted(limits) && !HistoriesFit(limits)
    ensures Initial(FreshSystem(limits), Fresh, 0, limits, None) && Legal(FreshSystem(limits), events)
    ensures Exec(FreshSystem(limits), events).ledger.limits == limits
    ensures Enabled(Exec(FreshSystem(limits), events), RequestCommit("b"))
    ensures Step(Exec(FreshSystem(limits), events), RequestCommit("b")).attempts["b"].commit == CommitFailed
  {
    hide Legal, Exec, Enabled, Step, LimitsAccepted, HistoriesFit;
    AcceptedIsActivated(limits);
    var start := FreshSystem(limits);
    Stay(start);
    assert RejectedFits(limits, 0);
    RejectedIsDurable(limits, 0);
    var t;
    events, t := RunUntilRefused(start, [], start, limits, 0);
  }

  // ---- the exact condition ----------------------------------------------------------------------------

  /** A run of a ledger activated with these limits, after which attempt k asks for
      its terminal commit under them. */
  ghost predicate Asks(limits: LedgerLimits, s: System, events: seq<Event>, k: string) {
    && (exists sample, trustedMinimum: uint64, restart :: Initial(s, sample, trustedMinimum, limits, restart))
    && Legal(s, events)
    && Exec(s, events).ledger.limits == limits
    && Enabled(Exec(s, events), RequestCommit(k))
  }

  /** The commit of the request becomes one the committer is asked for. */
  ghost predicate Granted(s: System, events: seq<Event>, k: string)
    requires Legal(s, events) && Enabled(Exec(s, events), RequestCommit(k))
  {
    var t := Step(Exec(s, events), RequestCommit(k));
    k in t.attempts && t.attempts[k].commit.CommitRequested?
  }

  /** No run of a ledger activated with the limits ever has a terminal commit refused
      if and only if the limits leave no history that exceeds the budget. */
  lemma CommitsAreNeverRefusedIff(limits: LedgerLimits)
    requires LimitsAccepted(limits)
    ensures HistoriesFit(limits) <==>
      forall s, events, k :: Asks(limits, s, events, k) ==> Granted(s, events, k)
  {
    hide LimitsAccepted, Legal, Exec, Enabled, Step, Initial, Inv, HistoriesFit;
    AcceptedIsActivated(limits);
    if HistoriesFit(limits) {
      forall s, events, k | Asks(limits, s, events, k)
        ensures Granted(s, events, k)
      {
        var sample, trustedMinimum: uint64, restart :| Initial(s, sample, trustedMinimum, limits, restart);
        InitialInvariant(s, sample, trustedMinimum, limits, restart);
        RunPreserves(s, events);
        CommitIsRequested(Exec(s, events), k);
      }
    } else {
      var events := CommitCanBeRefused(limits);
      assert Asks(limits, FreshSystem(limits), events, "b");
      assert !Granted(FreshSystem(limits), events, "b");
    }
  }
}
