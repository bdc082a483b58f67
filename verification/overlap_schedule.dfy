/** A run of the protocol in which the committer commits a publication that the
    ledger then reports as failed. */
module OverlapSchedule {
  import opened Foundation
  import opened LedgerTypes
  import opened RestartHistory
  import opened TerminalMerge
  import opened HistoryBudget
  import opened LedgerProtocol
  import opened LedgerInvariant
  import opened LedgerTheorems

  predicate Reaches(s: System, events: seq<Event>, t: System) {
    Legal(s, events) && Exec(s, events) == t
  }

  lemma Stay(s: System)
    ensures Reaches(s, [], s)
  {
  }

  lemma {:induction false} Follow(s: System, events: seq<Event>, t: System, e: Event)
    requires Reaches(s, events, t) && Enabled(t, e)
    ensures Reaches(s, events + [e], Step(t, e))
    decreases |events|
  {
    hide Step, Enabled;
    if |events| == 0 {
      assert [e][1..] == [];
      Stay(Step(t, e));
    } else {
      Follow(Step(s, events[0]), events[1..], t, e);
      assert (events + [e])[1..] == events[1..] + [e];
    }
  }

  /** What an event of one attempt makes of it, of the ledger and of the token. */
  predicate Becomes(ledger: Ledger, serial: Option<string>, a: Attempt, e: Event, b: Attempt, after: Ledger, token: Option<string>) {
    && !e.Begin? && !e.Finalize? && !e.Restart?
    && AttemptEnabled(ledger, serial, a, e)
    && AttemptAfter(ledger, serial, a, e) == b
    && LedgerAfter(ledger, a, e) == after
    && SerialAfter(serial, e.key, a, b) == token
  }

  lemma Take(start: System, events: seq<Event>, s: System, e: Event, b: Attempt, after: Ledger, token: Option<string>)
    returns (longer: seq<Event>, t: System)
    requires Reaches(start, events, s) && !e.Restart? && e.key in s.attempts
    requires Becomes(s.ledger, s.serial, s.attempts[e.key], e, b, after, token)
    ensures Reaches(start, longer, t)
    ensures longer == events + [e] && t == s.(ledger := after, attempts := s.attempts[e.key := b], serial := token)
  {
    hide AttemptEnabled, AttemptAfter, LedgerAfter, SerialAfter, Reaches;
    longer, t := events + [e], Step(s, e);
    Follow(start, events, s, e);
  }

  // ---- the starting point and the two targets -------------------------------------------------

  lemma DefaultLimitsActivate()
    ensures LimitsAccepted(DefaultLimits)
  {
  }

  lemma OverlapTarget(limits: LedgerLimits, next: uint64, first: uint64, outcome: AttemptPhase, claim: ClaimOutcome)
    returns (target: RestartState)
    requires limits == DefaultLimits && 0 < first && next == first + 2 && first + 1 <= MAX_UINT64 && BlockOutcomes(outcome, [claim])
    ensures TerminalTarget(FreshRestart, next, false, limits, AttemptBlock(first, outcome, [claim])) == Ok(target)
    ensures EndSequence(target) == next - 1
  {
    hide TerminalTarget, ValidHistory;
    DefaultLimitsActivate();
    AttemptBlockValid(limits, first, outcome, [claim]);
    assert ValidHistory([], 0, limits) by { EmptyHistory(limits); }
    LargestSafeLimit(limits);
    TargetNeverFailsWithinBudget(FreshRestart, next, false, limits, AttemptBlock(first, outcome, [claim]));
    TargetCovers(FreshRestart, next, false, limits, AttemptBlock(first, outcome, [claim]));
    target := TerminalTarget(FreshRestart, next, false, limits, AttemptBlock(first, outcome, [claim])).value;
  }

  const Fresh := SampleState(0, 0, AttemptIdentity(0, 0))

  /** A ledger with default limits before anything is published or recorded. */
  function Unpublished(next: uint64, retained: int, durable: RestartState): Ledger {
    Ledger(DefaultLimits, Fresh, next, false, durable, retained)
  }

  const Start := System(Unpublished(1, 0, FreshRestart), map[], None, 0, [], map[])

  lemma StartIsInitial()
    ensures Initial(Start, Fresh, 0, DefaultLimits, None) && Inv(Start)
  {
    hide Inv;
    DefaultLimitsActivate();
    InitialInvariant(Start, Fresh, 0, DefaultLimits, None);
  }

  /** An attempt with one claim, as the protocol begins it. */
  function One(first: uint64, generation: uint64): Attempt
    requires first < MAX_UINT64
  {
    Attempt(AttemptIdentity(generation, 0), first, [ClaimEntry(Unresolved, first + 1, 0)],
            Open, false, false, NotPublishing, CommitIdle, Open, false, false, 0)
  }

  lemma BeginOne(start: System, events: seq<Event>, s: System, key: string, generation: uint64)
    returns (longer: seq<Event>, t: System)
    requires Reaches(start, events, s) && key !in s.attempts && |s.attempts| <= 1
    requires 0 < s.ledger.next < 100 && generation > 0 && 0 <= s.ledger.retainedClaims <= 1
    requires s.ledger == Unpublished(s.ledger.next, s.ledger.retainedClaims, s.ledger.durable)
    ensures Reaches(start, longer, t)
    ensures t.ledger == Unpublished(s.ledger.next + 2, s.ledger.retainedClaims + 1, s.ledger.durable)
    ensures t.attempts == s.attempts[key := One(s.ledger.next, generation)] && t.serial == s.serial
    ensures longer == events + [Begin(key, AttemptIdentity(generation, 0), 1)]
  {
    hide Reaches;
    var e := Begin(key, AttemptIdentity(generation, 0), 1);
    assert NewAttempt(s.ledger.next, e.identity, 1) == One(s.ledger.next, generation);
    longer, t := events + [e], Step(s, e);
    Follow(start, events, s, e);
  }

  // ---- the cancelled attempt ------------------------------------------------------------------

  function Dropped(commit: Commit, outcome: AttemptPhase): Attempt {
    One(1, 1).(entries := [ClaimEntry(Resolved(ClaimAttemptCancelled), 2, 0)], phase := Cancelling, drained := true,
               commit := commit, terminalOutcome := outcome)
  }

  lemma CancelEffects(ledger: Ledger)
    ensures Becomes(ledger, None, One(1, 1), StartCancel("a"), One(1, 1).(phase := Cancelling), ledger, None)
    ensures Becomes(ledger, None, One(1, 1).(phase := Cancelling), Drain("a"), Dropped(CommitIdle, Open), ledger, None)
    ensures Becomes(ledger, None, Dropped(CommitIdle, Open), StartCommit("a", Cancelled), Dropped(CommitStarted, Cancelled), ledger, None)
  {
    assert CancelUnresolved(One(1, 1).entries) == Dropped(CommitIdle, Open).entries;
  }

  lemma CancelRequestEffect(ledger: Ledger, target: RestartState)
    requires ledger == Unpublished(3, 1, FreshRestart)
    requires TerminalTarget(FreshRestart, 3, false, DefaultLimits, AttemptBlock(1, Cancelled, [ClaimAttemptCancelled])) == Ok(target)
    ensures Becomes(ledger, None, Dropped(CommitStarted, Cancelled), RequestCommit("a"),
                    Dropped(CommitRequested(FreshRestart, target), Cancelled), ledger, None)
  {
    hide TerminalTarget, AttemptBlock;
    assert Dropped(CommitStarted, Cancelled).Outcomes() == [ClaimAttemptCancelled];
  }

  /** The first attempt is begun and cancelled, and its commit is requested. */
  lemma CancelFirst() returns (events: seq<Event>, s: System, target: RestartState)
    ensures Reaches(Start, events, s)
    ensures EndSequence(target) == 2
    ensures s.ledger == Unpublished(3, 1, FreshRestart) && s.serial == None
    ensures s.attempts == map["a" := Dropped(CommitRequested(FreshRestart, target), Cancelled)]
  {
    hide TerminalTarget, Reaches, Becomes, ValidRestart;
    target := OverlapTarget(DefaultLimits, 3, 1, Cancelled, ClaimAttemptCancelled);
    Stay(Start);
    events, s := BeginOne(Start, [], Start, "a", 1);
    CancelEffects(s.ledger);
    CancelRequestEffect(s.ledger, target);
    events, s := Take(Start, events, s, StartCancel("a"), One(1, 1).(phase := Cancelling), s.ledger, None);
    events, s := Take(Start, events, s, Drain("a"), Dropped(CommitIdle, Open), s.ledger, None);
    events, s := Take(Start, events, s, StartCommit("a", Cancelled), Dropped(CommitStarted, Cancelled), s.ledger, None);
    events, s := Take(Start, events, s, RequestCommit("a"), Dropped(CommitRequested(FreshRestart, target), Cancelled), s.ledger, None);
  }

  // ---- the published attempt ------------------------------------------------------------------

  function Claimed(state: ClaimState, calls: nat): Attempt {
    One(3, 2).(entries := [ClaimEntry(state, 4, calls)], admitted := true)
  }

  function Publishing(stage: Publication, calls: nat, accepted: bool, commit: Commit, outcome: AttemptPhase): Attempt {
    Claimed(Resolved(ClaimSucceeded), 1).(phase := AttemptPhase.Publishing, publication := stage, publicationCalls := calls,
      committerAccepted := accepted, commit := commit, terminalOutcome := outcome)
  }

  lemma ClaimEffects(ledger: Ledger)
    ensures Becomes(ledger, None, One(3, 2), Admit("b"), Claimed(Unresolved, 0), ledger, None)
    ensures Becomes(ledger, None, Claimed(Unresolved, 0), StartClaim("b", 0), Claimed(InProgress, 1), ledger, None)
    ensures Becomes(ledger, None, Claimed(InProgress, 1), EndClaim("b", 0, ClaimSucceeded), Claimed(Resolved(ClaimSucceeded), 1), ledger, None)
  {
    assert Claimed(Unresolved, 0).entries[0 := ClaimEntry(InProgress, 4, 1)] == Claimed(InProgress, 1).entries;
    assert Claimed(InProgress, 1).entries[0 := ClaimEntry(Resolved(ClaimSucceeded), 4, 1)] == Claimed(Resolved(ClaimSucceeded), 1).entries;
  }

  lemma PublishEffects(ledger: Ledger)
    ensures Becomes(ledger, None, Claimed(Resolved(ClaimSucceeded), 1), Seal("b"),
                    Claimed(Resolved(ClaimSucceeded), 1).(phase := Sealed), ledger, None)
    ensures Becomes(ledger, None, Claimed(Resolved(ClaimSucceeded), 1).(phase := Sealed), StartPublish("b"),
                    Publishing(Waiting, 0, false, CommitIdle, Open), ledger, None)
    ensures Becomes(ledger, None, Publishing(Waiting, 0, false, CommitIdle, Open), TakeSerial("b"),
                    Publishing(Holding, 0, false, CommitIdle, Open), ledger, Some("b"))
  {
  }

  function Asked(target: RestartState): Publication {
    PublicationRequested(Fresh, SampleState(1, 1, AttemptIdentity(2, 0)), FreshRestart, target)
  }

  lemma PublishRequestEffect(ledger: Ledger, target: RestartState)
    requires ledger == Unpublished(5, 2, FreshRestart)
    requires TerminalTarget(FreshRestart, 5, false, DefaultLimits, AttemptBlock(3, Published, [ClaimSucceeded])) == Ok(target)
    ensures Becomes(ledger, Some("b"), Publishing(Holding, 0, false, CommitIdle, Open), RequestPublication("b"),
                    Publishing(Asked(target), 1, false, CommitIdle, Open), ledger, Some("b"))
  {
    hide TerminalTarget, AttemptBlock;
    assert Publishing(Holding, 0, false, CommitIdle, Open).Outcomes() == [ClaimSucceeded];
  }

  /** The second attempt begins, claims, seals and asks the committer to publish. */
  lemma PublishSecond(events: seq<Event>, s: System) returns (longer: seq<Event>, t: System, target: RestartState)
    requires Reaches(Start, events, s) && s.ledger == Unpublished(3, 1, FreshRestart) && s.serial == None
    requires |s.attempts| == 1 && "b" !in s.attempts
    ensures Reaches(Start, longer, t)
    ensures EndSequence(target) == 4
    ensures t.ledger == Unpublished(5, 2, FreshRestart) && t.serial == Some("b")
    ensures t.attempts == s.attempts["b" := Publishing(Asked(target), 1, false, CommitIdle, Open)]
  {
    hide TerminalTarget, Reaches, Becomes, ValidRestart;
    target := OverlapTarget(DefaultLimits, 5, 3, Published, ClaimSucceeded);
    longer, t := BeginOne(Start, events, s, "b", 2);
    ClaimEffects(t.ledger);
    PublishEffects(t.ledger);
    PublishRequestEffect(t.ledger, target);
    longer, t := Take(Start, longer, t, Admit("b"), Claimed(Unresolved, 0), t.ledger, None);
    longer, t := Take(Start, longer, t, StartClaim("b", 0), Claimed(InProgress, 1), t.ledger, None);
    longer, t := Take(Start, longer, t, EndClaim("b", 0, ClaimSucceeded), Claimed(Resolved(ClaimSucceeded), 1), t.ledger, None);
    longer, t := Take(Start, longer, t, Seal("b"), Claimed(Resolved(ClaimSucceeded), 1).(phase := Sealed), t.ledger, None);
    longer, t := Take(Start, longer, t, StartPublish("b"), Publishing(Waiting, 0, false, CommitIdle, Open), t.ledger, None);
    longer, t := Take(Start, longer, t, TakeSerial("b"), Publishing(Holding, 0, false, CommitIdle, Open), t.ledger, Some("b"));
    longer, t := Take(Start, longer, t, RequestPublication("b"), Publishing(Asked(target), 1, false, CommitIdle, Open), t.ledger, Some("b"));
  }

  // ---- the two replies ------------------------------------------------------------------------

  lemma RepliesEffects(cancelTarget: RestartState, publishTarget: RestartState)
    requires EndSequence(cancelTarget) == 2 && EndSequence(publishTarget) == 4
    ensures Becomes(Unpublished(5, 2, FreshRestart), Some("b"), Dropped(CommitRequested(FreshRestart, cancelTarget), Cancelled),
                    CommitReply("a", true), Dropped(CommitApplied, Cancelled), Unpublished(5, 2, cancelTarget), Some("b"))
    ensures Becomes(Unpublished(5, 2, cancelTarget), Some("b"), Publishing(Asked(publishTarget), 1, false, CommitIdle, Open),
                    PublicationReply("b", true), Publishing(PublicationAbandoned, 1, true, CommitIdle, Open),
                    Unpublished(5, 2, cancelTarget), None)
  {
    hide TerminalTarget, AttemptBlock;
  }

  lemma FailureEffects(durable: RestartState, target: RestartState)
    requires TerminalTarget(durable, 5, false, DefaultLimits, AttemptBlock(3, PublishFailed, [ClaimSucceeded])) == Ok(target)
    ensures var ledger := Unpublished(5, 2, durable);
      && Becomes(ledger, None, Publishing(PublicationAbandoned, 1, true, CommitIdle, Open), StartCommit("b", PublishFailed),
                 Publishing(PublicationAbandoned, 1, true, CommitStarted, PublishFailed), ledger, None)
      && Becomes(ledger, None, Publishing(PublicationAbandoned, 1, true, CommitStarted, PublishFailed), RequestCommit("b"),
                 Publishing(PublicationAbandoned, 1, true, CommitRequested(durable, target), PublishFailed), ledger, None)
  {
    hide TerminalTarget, AttemptBlock;
    assert Publishing(PublicationAbandoned, 1, true, CommitStarted, PublishFailed).Outcomes() == [ClaimSucceeded];
  }

  lemma RecordEffects(durable: RestartState, target: RestartState)
    ensures var after := ApplyTarget(Unpublished(5, 2, durable), target);
      && Becomes(Unpublished(5, 2, durable), None, Publishing(PublicationAbandoned, 1, true, CommitRequested(durable, target), PublishFailed),
                 CommitReply("b", true), Publishing(PublicationAbandoned, 1, true, CommitApplied, PublishFailed), after, None)
      && Becomes(after, None, Publishing(PublicationAbandoned, 1, true, CommitApplied, PublishFailed), MarkCommitted("b"),
                 Publishing(PublicationAbandoned, 1, true, CommitRecorded, PublishFailed).(restartCommitted := true), after, None)
  {
    hide Covers;
  }

  /** The failed outcome is persisted and the attempt finalized. */
  lemma FinishSecond(events: seq<Event>, s: System) returns (longer: seq<Event>, t: System)
    requires Reaches(Start, events, s) && s.ledger == Unpublished(5, 2, s.ledger.durable) && s.serial == None
    requires "b" in s.attempts && s.attempts["b"] == Publishing(PublicationAbandoned, 1, true, CommitIdle, Open)
    ensures Reaches(Start, longer, t) && events <= longer
    ensures 3 in t.finished && t.finished[3] == Finished([ClaimSucceeded], PublishFailed, true)
    ensures t.ledger.sample == Fresh
  {
    hide Becomes, Reaches, TerminalTarget, AttemptBlock, Covers;
    var durable := s.ledger.durable;
    var target := SecondTarget(events, s);
    FailureEffects(durable, target);
    RecordEffects(durable, target);
    var after := ApplyTarget(s.ledger, target);
    longer, t := Take(Start, events, s, StartCommit("b", PublishFailed), Publishing(PublicationAbandoned, 1, true, CommitStarted, PublishFailed), s.ledger, None);
    longer, t := Take(Start, longer, t, RequestCommit("b"), Publishing(PublicationAbandoned, 1, true, CommitRequested(durable, target), PublishFailed), s.ledger, None);
    longer, t := Take(Start, longer, t, CommitReply("b", true), Publishing(PublicationAbandoned, 1, true, CommitApplied, PublishFailed), after, None);
    var last := Publishing(PublicationAbandoned, 1, true, CommitRecorded, PublishFailed).(restartCommitted := true);
    longer, t := Take(Start, longer, t, MarkCommitted("b"), last, after, None);
    assert last.Outcomes() == [ClaimSucceeded];
    Follow(Start, longer, t, Finalize("b"));
    longer, t := longer + [Finalize("b")], Step(t, Finalize("b"));
  }

  /** Persisting the failure never fails: the attempt is live and resolved. */
  lemma SecondTarget(events: seq<Event>, s: System) returns (target: RestartState)
    requires Reaches(Start, events, s) && s.ledger == Unpublished(5, 2, s.ledger.durable)
    requires "b" in s.attempts && s.attempts["b"] == Publishing(PublicationAbandoned, 1, true, CommitIdle, Open)
    ensures TerminalTarget(s.ledger.durable, 5, false, DefaultLimits, AttemptBlock(3, PublishFailed, [ClaimSucceeded])) == Ok(target)
  {
    hide Inv, TerminalTarget, AttemptBlock, Legal, Exec;
    StartIsInitial();
    RunPreserves(Start, events);
    assert s.attempts["b"].Outcomes() == [ClaimSucceeded];
    RestartStateNeverConflicts(s, "b", PublishFailed);
    target := Target(s.ledger, s.attempts["b"], PublishFailed).value;
  }

  /** A run from a fresh ledger in which the committer accepts a publication and
      the attempt nevertheless finishes as failed to publish, with the revision
      not advanced: another attempt's commit was recorded in between. */
  lemma AcceptedPublicationCanFail() returns (events: seq<Event>)
    ensures Initial(Start, Fresh, 0, DefaultLimits, None) && Legal(Start, events)
    ensures PublicationReply("b", true) in events
    ensures 3 in Exec(Start, events).finished
    ensures Exec(Start, events).finished[3] == Finished([ClaimSucceeded], PublishFailed, true)
    ensures Exec(Start, events).ledger.sample.revision == 0
  {
    hide Becomes, TerminalTarget, AttemptBlock, Legal, Exec, Step, Enabled;
    StartIsInitial();
    var s, cancelTarget, publishTarget;
    events, s, cancelTarget := CancelFirst();
    events, s, publishTarget := PublishSecond(events, s);
    RepliesEffects(cancelTarget, publishTarget);
    events, s := Take(Start, events, s, CommitReply("a", true), Dropped(CommitApplied, Cancelled), Unpublished(5, 2, cancelTarget), Some("b"));
    events, s := Take(Start, events, s, PublicationReply("b", true), Publishing(PublicationAbandoned, 1, true, CommitIdle, Open),
      Unpublished(5, 2, cancelTarget), None);
    var answered := events;
    assert answered[|answered| - 1] == PublicationReply("b", true);
    events, s := FinishSecond(events, s);
    assert events[|answered| - 1] == PublicationReply("b", true);
  }
}
