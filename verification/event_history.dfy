/** What the state of the ledger says about the events of the run: every outcome,
    live, finished or durable, is one that was reported. */
module EventHistory {
  import opened Foundation
  import opened LedgerTypes
  import opened RestartHistory
  import opened TerminalMerge
  import opened LedgerProtocol
  import opened LedgerInvariant
  import opened LedgerSteps
  import opened LedgerTheorems

  /** The events of one attempt: from is its Begin, and those of its key up to but
      not including to are its own. */
  datatype Span = Span(key: string, from: nat, to: nat)

  predicate Concerns(e: Event, key: string) {
    !e.Restart? && e.key == key
  }

  /** e is among the attempt's own events. */
  predicate Happened(events: seq<Event>, span: Span, e: Event) {
    exists j :: span.from < j < span.to && j < |events| && events[j] == e
  }

  // ---- one attempt ----------------------------------------------------------------------------

  /** A claim's outcome is the one its capability call ended with; a claim whose
      capability was never called is cancelled. */
  predicate ClaimTold(events: seq<Event>, span: Span, ordinal: nat, outcome: ClaimOutcome) {
    && (forall other :: Happened(events, span, EndClaim(span.key, ordinal, other)) ==> other == outcome)
    && (Happened(events, span, EndClaim(span.key, ordinal, outcome)) ||
        (outcome == ClaimAttemptCancelled && !Happened(events, span, StartClaim(span.key, ordinal))))
  }

  predicate EntryTold(events: seq<Event>, span: Span, ordinal: nat, entry: ClaimEntry) {
    && (entry.state.Resolved? ==> ClaimTold(events, span, ordinal, entry.state.outcome))
    && (!entry.state.Resolved? ==> forall other :: !Happened(events, span, EndClaim(span.key, ordinal, other)))
    && (entry.state.Unresolved? <== !Happened(events, span, StartClaim(span.key, ordinal)) && !entry.state.Resolved?)
    && (entry.state.Unresolved? ==> !Happened(events, span, StartClaim(span.key, ordinal)))
    && (Happened(events, span, StartClaim(span.key, ordinal)) ==> Happened(events, span, Admit(span.key)))
  }

  /** What was recorded of the attempt's life: each stage was entered by its event. */
  predicate PhaseTold(events: seq<Event>, span: Span, a: Attempt) {
    && (a.admitted && a.phase.Open? ==> Happened(events, span, Admit(span.key)))
    && (a.phase.Sealed? || a.phase.Publishing? ==> Happened(events, span, Seal(span.key)))
    && (a.phase.Publishing? ==> Happened(events, span, Event.StartPublish(span.key)))
    && (a.drained ==> Happened(events, span, Drain(span.key)))
  }

  /** What was recorded of its publication and commit: the committer's answers, and the
      one outcome that was asked for. */
  predicate ReplyTold(events: seq<Event>, span: Span, a: Attempt) {
    && (a.committerAccepted <==> Happened(events, span, Event.PublicationReply(span.key, true)))
    && (!a.commit.CommitIdle? ==> Happened(events, span, StartCommit(span.key, a.terminalOutcome)))
    && (forall other :: Happened(events, span, StartCommit(span.key, other)) ==> !a.commit.CommitIdle? && other == a.terminalOutcome)
    && (a.Committed() && !a.Counted() ==> Happened(events, span, CommitReply(span.key, true)))
  }

  predicate StagesTold(events: seq<Event>, span: Span, a: Attempt) {
    PhaseTold(events, span, a) && ReplyTold(events, span, a)
  }

  predicate AttemptTold(events: seq<Event>, span: Span, a: Attempt) {
    && StagesTold(events, span, a)
    && forall i :: 0 <= i < |a.entries| ==> EntryTold(events, span, i, a.entries[i])
  }

  predicate FinishedTold(events: seq<Event>, span: Span, f: Finished) {
    && (forall i :: 0 <= i < |f.outcomes| ==> ClaimTold(events, span, i, f.outcomes[i]))
    && Happened(events, span, StartCommit(span.key, f.outcome))
    && (forall other :: Happened(events, span, StartCommit(span.key, other)) ==> other == f.outcome)
    && (f.outcome.Cancelled? || f.outcome.CancelFailed? ==> Happened(events, span, Drain(span.key)))
    && (f.outcome.Published? || f.outcome.PublishFailed? ==> Happened(events, span, Event.StartPublish(span.key)))
    && (f.committerAccepted <==> Happened(events, span, Event.PublicationReply(span.key, true)))
    && (f.outcome.Published? ==> f.committerAccepted && Happened(events, span, Seal(span.key)))
    && (!f.outcome.Published? ==> Happened(events, span, CommitReply(span.key, true)))
  }

  // ---- one more event ----------------------------------------------------------------------------

  lemma OneMoreEvent(events: seq<Event>, span: Span, e: Event, x: Event)
    requires span.to == |events| && span.from < span.to
    ensures Happened(events + [e], span.(to := span.to + 1), x) <==> Happened(events, span, x) || x == e
  {
    var longer, wider := events + [e], span.(to := span.to + 1);
    if Happened(events, span, x) {
      var j :| span.from < j < span.to && j < |events| && events[j] == x;
      assert longer[j] == x;
    }
    if x == e {
      assert longer[|events|] == x;
    }
  }

  /** A closed span is not affected by what follows. */
  lemma ClosedSpan(events: seq<Event>, span: Span, e: Event, x: Event)
    requires span.to <= |events|
    ensures Happened(events + [e], span, x) <==> Happened(events, span, x)
  {
    var longer := events + [e];
    if Happened(events, span, x) {
      var j :| span.from < j < span.to && j < |events| && events[j] == x;
      assert longer[j] == x;
    }
  }

  lemma EntryMoves(ledger: Ledger, serial: Option<string>, a: Attempt, e: Event, i: nat)
    requires AttemptOk(a, ledger.limits) && AttemptEnabled(ledger, serial, a, e) && i < |a.entries|
    ensures |AttemptAfter(ledger, serial, a, e).entries| == |a.entries|
    ensures var before, after := a.entries[i].state, AttemptAfter(ledger, serial, a, e).entries[i].state;
      if e.StartClaim? && e.ordinal == i then before.Unresolved? && after.InProgress? && a.phase.Open? && a.admitted
      else if e.EndClaim? && e.ordinal == i then before.InProgress? && after == Resolved(e.outcome)
      else after == before || (before.Unresolved? && after == Resolved(ClaimAttemptCancelled))
  {
    hide TerminalTarget, Covers, AttemptBlock, ValidLimits;
  }

  /** The three ways a claim moves keep its account. */
  lemma EntryTransition(events: seq<Event>, span: Span, e: Event, i: nat, before: ClaimEntry, after: ClaimEntry)
    requires span.to == |events| && span.from < span.to && Concerns(e, span.key) && EntryTold(events, span, i, before)
    requires if e.StartClaim? && e.ordinal == i
      then before.state.Unresolved? && after.state.InProgress? && Happened(events, span, Admit(span.key))
      else if e.EndClaim? && e.ordinal == i then before.state.InProgress? && after.state == Resolved(e.outcome)
      else after.state == before.state || (before.state.Unresolved? && after.state == Resolved(ClaimAttemptCancelled))
    ensures EntryTold(events + [e], span.(to := span.to + 1), i, after)
  {
    hide Happened;
    var start, admit := StartClaim(span.key, i), Admit(span.key);
    OneMoreEvent(events, span, e, start);
    OneMoreEvent(events, span, e, admit);
    var longer, wider := events + [e], span.(to := span.to + 1);
    forall other
      ensures Happened(longer, wider, EndClaim(span.key, i, other))
        <==> Happened(events, span, EndClaim(span.key, i, other)) || e == EndClaim(span.key, i, other)
    {
      OneMoreEvent(events, span, e, EndClaim(span.key, i, other));
    }
    if e.EndClaim? && e.ordinal == i {
      assert e == EndClaim(span.key, i, e.outcome);
    }
  }

  lemma EntryStep(events: seq<Event>, span: Span, ledger: Ledger, serial: Option<string>, a: Attempt, e: Event, i: nat)
    requires span.to == |events| && span.from < span.to && Concerns(e, span.key)
    requires AttemptOk(a, ledger.limits) && AttemptEnabled(ledger, serial, a, e) && i < |a.entries|
    requires AttemptTold(events, span, a)
    ensures i < |AttemptAfter(ledger, serial, a, e).entries|
    ensures EntryTold(events + [e], span.(to := span.to + 1), i, AttemptAfter(ledger, serial, a, e).entries[i])
  {
    hide AttemptAfter, AttemptEnabled, AttemptOk, Happened, EntryTold;
    EntryMoves(ledger, serial, a, e, i);
    assert EntryTold(events, span, i, a.entries[i]);
    EntryTransition(events, span, e, i, a.entries[i], AttemptAfter(ledger, serial, a, e).entries[i]);
  }

  lemma PhaseStep(events: seq<Event>, span: Span, ledger: Ledger, serial: Option<string>, a: Attempt, e: Event)
    requires span.to == |events| && span.from < span.to && Concerns(e, span.key)
    requires AttemptOk(a, ledger.limits) && AttemptEnabled(ledger, serial, a, e) && PhaseTold(events, span, a)
    ensures PhaseTold(events + [e], span.(to := span.to + 1), AttemptAfter(ledger, serial, a, e))
  {
    hide TerminalTarget, Covers, AttemptBlock, ValidLimits, EntriesOk, Happened, Target, StillCurrent, CancelUnresolved;
    OneMoreEvent(events, span, e, Admit(span.key));
    OneMoreEvent(events, span, e, Seal(span.key));
    OneMoreEvent(events, span, e, Drain(span.key));
    OneMoreEvent(events, span, e, Event.StartPublish(span.key));
    match e {
      case Admit(_) => assert e == Admit(span.key);
      case Seal(_) => assert e == Seal(span.key);
      case Drain(_) => assert e == Drain(span.key);
      case StartPublish(_) => assert e == Event.StartPublish(span.key);
      case _ =>
    }
  }

  lemma ReplyStep(events: seq<Event>, span: Span, ledger: Ledger, serial: Option<string>, a: Attempt, e: Event)
    requires span.to == |events| && span.from < span.to && Concerns(e, span.key)
    requires AttemptOk(a, ledger.limits) && AttemptEnabled(ledger, serial, a, e) && ReplyTold(events, span, a)
    ensures ReplyTold(events + [e], span.(to := span.to + 1), AttemptAfter(ledger, serial, a, e))
  {
    hide TerminalTarget, Covers, AttemptBlock, ValidLimits, EntriesOk, Happened, Target, StillCurrent, CancelUnresolved;
    var longer, wider := events + [e], span.(to := span.to + 1);
    OneMoreEvent(events, span, e, Event.PublicationReply(span.key, true));
    OneMoreEvent(events, span, e, CommitReply(span.key, true));
    forall outcome
      ensures Happened(longer, wider, StartCommit(span.key, outcome)) <==>
        Happened(events, span, StartCommit(span.key, outcome)) || e == StartCommit(span.key, outcome)
    {
      OneMoreEvent(events, span, e, StartCommit(span.key, outcome));
    }
    match e {
      case PublicationReply(_, committed) => assert e == Event.PublicationReply(span.key, committed);
      case StartCommit(_, outcome) => assert e == StartCommit(span.key, outcome);
      case CommitReply(_, ok) => assert e == CommitReply(span.key, ok);
      case _ =>
    }
  }

  lemma OwnStep(events: seq<Event>, span: Span, ledger: Ledger, serial: Option<string>, a: Attempt, e: Event)
    requires span.to == |events| && span.from < span.to && Concerns(e, span.key)
    requires AttemptOk(a, ledger.limits) && AttemptEnabled(ledger, serial, a, e) && AttemptTold(events, span, a)
    ensures AttemptTold(events + [e], span.(to := span.to + 1), AttemptAfter(ledger, serial, a, e))
  {
    hide AttemptAfter, AttemptEnabled, AttemptOk, PhaseTold, ReplyTold, EntryTold;
    assert StagesTold(events, span, a);
    PhaseStep(events, span, ledger, serial, a, e);
    ReplyStep(events, span, ledger, serial, a, e);
    AttemptStaysOk(ledger, serial, a, e);
    forall i | 0 <= i < |a.entries|
      ensures EntryTold(events + [e], span.(to := span.to + 1), i, AttemptAfter(ledger, serial, a, e).entries[i])
    {
      EntryStep(events, span, ledger, serial, a, e, i);
    }
  }

  /** An event of another attempt leaves the account alone. */
  lemma OtherStep(events: seq<Event>, span: Span, a: Attempt, e: Event)
    requires span.to == |events| && span.from < span.to && !Concerns(e, span.key) && AttemptTold(events, span, a)
    ensures AttemptTold(events + [e], span.(to := span.to + 1), a)
  {
    hide Happened;
    var longer, wider := events + [e], span.(to := span.to + 1);
    forall x | Concerns(x, span.key)
      ensures Happened(longer, wider, x) <==> Happened(events, span, x)
    {
      OneMoreEvent(events, span, e, x);
    }
  }

  lemma ClosedStep(events: seq<Event>, span: Span, f: Finished, e: Event)
    requires span.to <= |events| && FinishedTold(events, span, f)
    ensures FinishedTold(events + [e], span, f)
  {
    hide Happened;
    var longer := events + [e];
    forall x
      ensures Happened(longer, span, x) <==> Happened(events, span, x)
    {
      ClosedSpan(events, span, e, x);
    }
  }

  /** Nothing has happened to an attempt that was just begun. */
  lemma BegunStep(events: seq<Event>, key: string, identity: AttemptIdentity, claims: nat, first: uint64)
    requires first + claims <= MAX_UINT64
    ensures AttemptTold(events + [Begin(key, identity, claims)], Span(key, |events|, |events| + 1), NewAttempt(first, identity, claims))
  {
  }

  lemma FinalizedStep(events: seq<Event>, span: Span, ledger: Ledger, serial: Option<string>, a: Attempt, e: Event)
    requires span.to == |events| && AttemptTold(events, span, a) && AttemptOk(a, ledger.limits)
    requires AttemptEnabled(ledger, serial, a, e) && e.Finalize?
    ensures a.AllResolved() && FinishedTold(events, span, Finished(a.Outcomes(), a.terminalOutcome, a.committerAccepted))
  {
    hide Happened, ClaimTold;
    forall i | 0 <= i < |a.entries|
      ensures ClaimTold(events, span, i, a.Outcomes()[i])
    {
      assert EntryTold(events, span, i, a.entries[i]);
    }
  }

  // ---- the whole run -------------------------------------------------------------------------------

  /** The span starts with the Begin that reserved these sequences, and nothing in
      it begins or finalizes the key again. */
  ghost predicate Spans(s: System, events: seq<Event>, span: Span, first: int, claims: nat)
    requires Legal(s, events)
  {
    && span.from < span.to <= |events|
    && events[span.from].Begin? && events[span.from].key == span.key && events[span.from].claims == claims
    && At(s, events, span.from).ledger.next == first
    && forall j :: span.from < j < span.to ==> !(Concerns(events[j], span.key) && (events[j].Begin? || events[j].Finalize?))
  }

  ghost predicate LiveTold(s: System, events: seq<Event>, a: Attempt, span: Span)
    requires Legal(s, events)
  {
    && Spans(s, events, span, a.first, |a.entries|) && span.to == |events|
    && events[span.from].Begin? && events[span.from].identity == a.identity
    && AttemptTold(events, span, a)
  }

  ghost predicate DoneTold(s: System, events: seq<Event>, first: int, f: Finished, span: Span)
    requires Legal(s, events)
  {
    Spans(s, events, span, first, |f.outcomes|) && FinishedTold(events, span, f)
  }

  /** Every attempt, live or finished, tells its own events. */
  ghost predicate Told(s: System, events: seq<Event>, t: System)
    requires Legal(s, events)
  {
    && (forall k :: k in t.attempts ==> exists span: Span :: span.key == k && LiveTold(s, events, t.attempts[k], span))
    && (forall f :: f in t.finished ==> exists span: Span :: DoneTold(s, events, f, t.finished[f], span))
  }

  lemma LegalLast(s: System, events: seq<Event>, e: Event)
    requires Legal(s, events + [e])
    ensures Legal(s, events) && Enabled(Exec(s, events), e) && Exec(s, events + [e]) == Step(Exec(s, events), e)
  {
    hide Step, Enabled;
    var longer := events + [e];
    LegalSplit(s, longer, |events|);
    assert longer[..|events|] == events && longer[|events|..] == [e];
    assert [e][1..] == [];
  }

  lemma AtLonger(s: System, events: seq<Event>, e: Event, n: nat)
    requires Legal(s, events) && Legal(s, events + [e]) && n <= |events|
    ensures At(s, events + [e], n) == At(s, events, n)
  {
    hide Legal, Exec;
    LegalSplit(s, events, n);
    LegalSplit(s, events + [e], n);
    assert (events + [e])[..n] == events[..n];
  }

  lemma SpansLonger(s: System, events: seq<Event>, e: Event, span: Span, first: int, claims: nat)
    requires Legal(s, events) && Legal(s, events + [e]) && Spans(s, events, span, first, claims)
    ensures Spans(s, events + [e], span, first, claims)
    ensures span.to == |events| && !(Concerns(e, span.key) && (e.Begin? || e.Finalize?)) ==>
      Spans(s, events + [e], span.(to := span.to + 1), first, claims)
  {
    hide Legal, Exec, At;
    AtLonger(s, events, e, span.from);
    assert forall j :: 0 <= j < |events| ==> (events + [e])[j] == events[j];
  }

  lemma LiveOwn(s: System, events: seq<Event>, t: System, e: Event, span: Span)
    requires Legal(s, events) && Legal(s, events + [e]) && t == Exec(s, events) && Inv(t)
    requires !e.Begin? && !e.Finalize? && !e.Restart? && Enabled(t, e)
    requires span.key == e.key && LiveTold(s, events, t.attempts[e.key], span)
    ensures LiveTold(s, events + [e], AttemptAfter(t.ledger, t.serial, t.attempts[e.key], e), span.(to := span.to + 1))
  {
    hide Legal, Exec, Spans, AttemptTold, AttemptAfter, AttemptEnabled, AttemptOk, Inv, BeginEnabled;
    var a := t.attempts[e.key];
    assert AttemptOk(a, t.ledger.limits) by { InvAttempt(t, e.key); }
    SpanStart(s, events, e, span, a.first, |a.entries|);
    EnabledAttempt(t, e);
    AttemptStaysOk(t.ledger, t.serial, a, e);
    OwnStep(events, span, t.ledger, t.serial, a, e);
    SpansLonger(s, events, e, span, a.first, |a.entries|);
  }

  lemma EnabledAttempt(t: System, e: Event)
    requires Enabled(t, e) && !e.Begin? && !e.Restart?
    ensures e.key in t.attempts && AttemptEnabled(t.ledger, t.serial, t.attempts[e.key], e)
  {
    hide AttemptEnabled;
  }

  lemma SpanStart(s: System, events: seq<Event>, e: Event, span: Span, first: int, claims: nat)
    requires Legal(s, events) && Spans(s, events, span, first, claims)
    ensures span.from < span.to <= |events| && (events + [e])[span.from] == events[span.from]
    ensures events[span.from].Begin? && events[span.from].key == span.key
  {
  }

  lemma InvAttempt(s: System, k: string)
    requires Inv(s) && k in s.attempts
    ensures AttemptOk(s.attempts[k], s.ledger.limits)
  {
    hide AttemptOk;
  }

  lemma LiveOther(s: System, events: seq<Event>, a: Attempt, e: Event, span: Span)
    requires Legal(s, events) && Legal(s, events + [e]) && LiveTold(s, events, a, span) && !Concerns(e, span.key)
    ensures LiveTold(s, events + [e], a, span.(to := span.to + 1))
  {
    hide Legal, Exec, Spans, AttemptTold;
    SpanStart(s, events, e, span, a.first, |a.entries|);
    OtherStep(events, span, a, e);
    SpansLonger(s, events, e, span, a.first, |a.entries|);
  }

  lemma LiveBegun(s: System, events: seq<Event>, t: System, e: Event)
    requires Legal(s, events) && Legal(s, events + [e]) && t == Exec(s, events) && e.Begin? && Enabled(t, e)
    ensures LiveTold(s, events + [e], NewAttempt(t.ledger.next, e.identity, e.claims), Span(e.key, |events|, |events| + 1))
  {
    hide Legal, Exec, AttemptTold;
    BegunStep(events, e.key, e.identity, e.claims, t.ledger.next);
    LegalLast(s, events, e);
    AtLonger(s, events, e, |events|);
    LegalSplit(s, events, |events|);
    assert events[..|events|] == events;
  }

  lemma DoneStays(s: System, events: seq<Event>, first: int, f: Finished, e: Event, span: Span)
    requires Legal(s, events) && Legal(s, events + [e]) && DoneTold(s, events, first, f, span)
    ensures DoneTold(s, events + [e], first, f, span)
  {
    hide Legal, Exec, Spans, FinishedTold;
    SpanStart(s, events, e, span, first, |f.outcomes|);
    SpansLonger(s, events, e, span, first, |f.outcomes|);
    ClosedStep(events, span, f, e);
  }

  lemma DoneNow(s: System, events: seq<Event>, t: System, e: Event, span: Span)
    requires Legal(s, events) && Legal(s, events + [e]) && t == Exec(s, events) && Inv(t) && Enabled(t, e) && e.Finalize?
    requires span.key == e.key && LiveTold(s, events, t.attempts[e.key], span)
    ensures var a := t.attempts[e.key];
      a.AllResolved() && DoneTold(s, events + [e], a.first, Finished(a.Outcomes(), a.terminalOutcome, a.committerAccepted), span)
  {
    hide Legal, Exec, Spans, FinishedTold, AttemptTold, AttemptEnabled, AttemptOk;
    var a := t.attempts[e.key];
    assert AttemptOk(a, t.ledger.limits) by { InvAttempt(t, e.key); }
    FinalizedStep(events, span, t.ledger, t.serial, a, e);
    DoneStays(s, events, a.first, Finished(a.Outcomes(), a.terminalOutcome, a.committerAccepted), e, span);
  }

  lemma ToldLive(s: System, events: seq<Event>, t: System, e: Event, k: string)
    requires Legal(s, events) && Legal(s, events + [e]) && t == Exec(s, events) && Inv(t) && Enabled(t, e) && Told(s, events, t)
    requires k in Step(t, e).attempts
    ensures exists span: Span :: span.key == k && LiveTold(s, events + [e], Step(t, e).attempts[k], span)
  {
    hide Legal, Exec, Inv, LiveTold, DoneTold, AttemptAfter, LedgerAfter, AttemptEnabled, Export, NewLedger, Reserve, NewAttempt;
    if e.Begin? && e.key == k {
      LiveBegun(s, events, t, e);
      assert LiveTold(s, events + [e], Step(t, e).attempts[k], Span(k, |events|, |events| + 1));
    } else {
      assert k in t.attempts;
      var span: Span :| span.key == k && LiveTold(s, events, t.attempts[k], span);
      if Concerns(e, k) {
        LiveOwn(s, events, t, e, span);
      } else {
        LiveOther(s, events, t.attempts[k], e, span);
      }
      assert LiveTold(s, events + [e], Step(t, e).attempts[k], span.(to := span.to + 1));
    }
  }

  lemma ToldDone(s: System, events: seq<Event>, t: System, e: Event, f: int)
    requires Legal(s, events) && Legal(s, events + [e]) && t == Exec(s, events) && Inv(t) && Enabled(t, e) && Told(s, events, t)
    requires f in Step(t, e).finished
    ensures exists span: Span :: DoneTold(s, events + [e], f, Step(t, e).finished[f], span)
  {
    hide Legal, Exec, Inv, LiveTold, DoneTold, Enabled, Step;
    StepFinishes(t, e);
    if e.Finalize? && f == t.attempts[e.key].first {
      var span: Span :| span.key == e.key && LiveTold(s, events, t.attempts[e.key], span);
      DoneNow(s, events, t, e, span);
    } else {
      var span: Span :| DoneTold(s, events, f, t.finished[f], span);
      DoneStays(s, events, f, t.finished[f], e, span);
    }
  }

  /** On every run, every outcome the state holds is one that an event reported. */
  lemma {:induction false} EveryOutcomeIsTold(s: System, events: seq<Event>)
    requires Inv(s) && s.attempts == map[] && s.finished == map[] && Legal(s, events)
    ensures Told(s, events, Exec(s, events))
    decreases |events|
  {
    hide Inv, LiveTold, DoneTold, Enabled, Step;
    if |events| > 0 {
      var front, e := events[..|events| - 1], events[|events| - 1];
      assert events == front + [e];
      LegalLast(s, front, e);
      RunPreserves(s, front);
      EveryOutcomeIsTold(s, front);
      var t := Exec(s, front);
      forall k | k in Step(t, e).attempts
        ensures exists span: Span :: span.key == k && LiveTold(s, events, Step(t, e).attempts[k], span)
      {
        ToldLive(s, front, t, e, k);
      }
      forall f | f in Step(t, e).finished
        ensures exists span: Span :: DoneTold(s, events, f, Step(t, e).finished[f], span)
      {
        ToldDone(s, front, t, e, f);
      }
    }
  }

  // ---- what that means for publications and for the durable history ------------------------------------

  /** The reports behind an attempt that was recorded with an outcome: a publication
      was sealed, every claim's capability reported success and the committer accepted
      it; anything else was committed as the outcome that was asked for. */
  predicate Reported(events: seq<Event>, span: Span, claims: nat, outcome: AttemptPhase) {
    if outcome.Published? then
      && Happened(events, span, Seal(span.key)) && Happened(events, span, Event.PublicationReply(span.key, true))
      && forall i :: 0 <= i < claims ==> Happened(events, span, EndClaim(span.key, i, ClaimSucceeded))
    else
      Happened(events, span, CommitReply(span.key, true)) && Happened(events, span, StartCommit(span.key, outcome))
  }

  lemma DoneIsReported(s: System, events: seq<Event>, first: int)
    requires Inv(s) && s.attempts == map[] && s.finished == map[] && Legal(s, events) && first in Exec(s, events).finished
    ensures var f := Exec(s, events).finished[first];
      exists span :: DoneTold(s, events, first, f, span) && Reported(events, span, |f.outcomes|, f.outcome)
  {
    hide Inv, Legal, Exec, Spans, Happened;
    EveryOutcomeIsTold(s, events);
    RunPreserves(s, events);
    var t := Exec(s, events);
    var f := t.finished[first];
    var span: Span :| DoneTold(s, events, first, f, span);
    if f.outcome.Published? {
      PublishedMeansCommitted(t, first);
      forall i | 0 <= i < |f.outcomes|
        ensures Happened(events, span, EndClaim(span.key, i, ClaimSucceeded))
      {
        assert ClaimTold(events, span, i, f.outcomes[i]);
      }
    }
  }

  lemma LiveIsReported(s: System, events: seq<Event>, t: System, k: string)
    requires Legal(s, events) && t == Exec(s, events) && Inv(t) && Told(s, events, t)
    requires k in t.attempts && t.attempts[k].Committed() && t.attempts[k].AllResolved()
    ensures var a := t.attempts[k];
      exists span: Span :: span.key == k && LiveTold(s, events, a, span) && Reported(events, span, |a.entries|, RecordedOutcome(a))
  {
    hide Inv, Legal, Exec, Spans, Happened;
    var a := t.attempts[k];
    var span: Span :| span.key == k && LiveTold(s, events, a, span);
    InvAttempt(t, k);
    if a.Counted() {
      forall i | 0 <= i < |a.entries|
        ensures Happened(events, span, EndClaim(span.key, i, ClaimSucceeded))
      {
        assert EntryTold(events, span, i, a.entries[i]);
      }
    }
  }

  /** A durable tombstone says what the events of its attempt reported: the record of
      an attempt its outcome and number of claims, the record of a claim the outcome
      its capability call ended with, each under the sequence reserved for it. */
  ghost predicate TombstoneTold(s: System, events: seq<Event>, t: Tombstone, span: Span, claims: nat)
    requires Legal(s, events)
  {
    if t.kind.AttemptRecord? then
      && Spans(s, events, span, t.sequence, claims) && t.claimCount == claims
      && t.outcome.OfAttempt? && Reported(events, span, claims, t.outcome.phase)
    else
      && t.kind.ClaimRecord? && Spans(s, events, span, t.attemptSequence, claims)
      && t.ordinal < claims && t.sequence == t.attemptSequence + 1 + t.ordinal
      && t.outcome.OfClaim? && ClaimTold(events, span, t.ordinal, t.outcome.claim)
  }

  lemma BlockIsTold(s: System, events: seq<Event>, span: Span, first: uint64, outcome: AttemptPhase, outcomes: seq<ClaimOutcome>, t: Tombstone)
    requires Legal(s, events) && first + |outcomes| <= MAX_UINT64 && t in AttemptBlock(first, outcome, outcomes)
    requires Spans(s, events, span, first, |outcomes|) && Reported(events, span, |outcomes|, outcome)
    requires forall i :: 0 <= i < |outcomes| ==> ClaimTold(events, span, i, outcomes[i])
    ensures TombstoneTold(s, events, t, span, |outcomes|)
  {
    hide Legal, Exec, Spans, Reported, ClaimTold;
  }

  /** Every durable tombstone written since activation is the account of an attempt
      of the run. */
  lemma DurableTombstonesAreTold(s: System, events: seq<Event>, t: Tombstone)
    requires Inv(s) && s.attempts == map[] && s.finished == map[] && Legal(s, events)
    requires t in Exec(s, events).ledger.durable.tombstones && t.sequence > Exec(s, events).base
    ensures exists span: Span, claims: nat :: TombstoneTold(s, events, t, span, claims)
  {
    hide Inv, Legal, Exec, Reported, FinishedTold, AttemptTold, Spans, AttemptBlock, TombstoneTold;
    EveryOutcomeIsTold(s, events);
    RunPreserves(s, events);
    var last := Exec(s, events);
    AuditTellsTheTruth(last, t);
    if first: uint64 :| FromFinished(last.finished, t, first) {
      DoneIsReported(s, events, first);
      var f := last.finished[first];
      var span: Span :| DoneTold(s, events, first, f, span) && Reported(events, span, |f.outcomes|, f.outcome);
      DoneClaims(events, span, f);
      BlockIsTold(s, events, span, first, f.outcome, f.outcomes, t);
    } else {
      var k :| FromLive(last.attempts, t, k);
      var a := last.attempts[k];
      LiveIsReported(s, events, last, k);
      var span: Span :| span.key == k && LiveTold(s, events, a, span) && Reported(events, span, |a.entries|, RecordedOutcome(a));
      LiveClaims(events, span, a);
      BlockIsTold(s, events, span, a.first, RecordedOutcome(a), a.Outcomes(), t);
    }
  }

  lemma DoneClaims(events: seq<Event>, span: Span, f: Finished)
    requires FinishedTold(events, span, f)
    ensures forall i :: 0 <= i < |f.outcomes| ==> ClaimTold(events, span, i, f.outcomes[i])
  {
    hide ClaimTold;
  }

  lemma LiveClaims(events: seq<Event>, span: Span, a: Attempt)
    requires AttemptTold(events, span, a) && a.AllResolved()
    ensures forall i :: 0 <= i < |a.entries| ==> ClaimTold(events, span, i, a.Outcomes()[i])
  {
    hide ClaimTold;
    forall i | 0 <= i < |a.entries|
      ensures ClaimTold(events, span, i, a.Outcomes()[i])
    {
      assert EntryTold(events, span, i, a.entries[i]);
    }
  }

  // ---- what moves the ledger -----------------------------------------------------------------------------

  /** The durable state moves only on a reply the committer accepted, and the sample
      state only when it accepted a publication: then by one revision, to the identity
      the attempt was begun with. */
  lemma OnlyAcceptedRepliesMoveTheLedger(s: System, e: Event)
    requires Inv(s) && Enabled(s, e)
    ensures Step(s, e).ledger.durable != s.ledger.durable ==>
      !e.Restart? && (e == Event.PublicationReply(e.key, true) || e == CommitReply(e.key, true))
    ensures Step(s, e).ledger.sample != s.ledger.sample ==>
      && !e.Restart? && e == Event.PublicationReply(e.key, true) && e.key in s.attempts
      && s.ledger.sample.revision < MAX_UINT64
      && Step(s, e).ledger.sample ==
          SampleState(s.ledger.sample.revision + 1, s.ledger.sample.revision + 1, s.attempts[e.key].identity)
      && s.attempts[e.key].identity.generation > s.ledger.sample.lastCommitted.generation
  {
    hide Covers, TerminalTarget, ValidRestart, AttemptsOk, Disjoint, AllApart, AllPendingOk, TargetsApart, NewestOpen;
    hide Capacity, Consumption, BegunTiles, Accounted, AllFinishedOk, AuditTrue;
    if e.PublicationReply? {
      SampleIsExpected(s, e.key);
      assert SampleRequestOk(s.ledger.sample, s.attempts[e.key]);
    }
  }

  /** An attempt can begin exactly when its identity is later than every publication,
      its key and the capacity for it are free, and its sequences are left. */
  lemma BeginsIff(s: System, key: string, identity: AttemptIdentity, claims: nat)
    requires Inv(s)
    ensures Enabled(s, Begin(key, identity, claims)) <==>
      && identity.generation > s.ledger.sample.lastCommitted.generation
      && key !in s.attempts && |s.attempts| + 1 <= s.ledger.limits.maxRetainedAttempts
      && 0 < claims <= s.ledger.limits.maxClaimEntriesPerAttempt
      && s.ledger.retainedClaims + claims <= s.ledger.limits.maxRetainedClaimEntries
      && MemoryEnd(s.ledger) + 1 + claims <= MAX_UINT64
  {
    hide ValidRestart, AttemptsOk, Disjoint, AllApart, AllPendingOk, TargetsApart, NewestOpen;
    hide Capacity, Consumption, BegunTiles, Accounted, AllFinishedOk, AuditTrue, SerialOk;
  }
}
