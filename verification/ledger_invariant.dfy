/** The inductive invariant of the ledger protocol. */
module LedgerInvariant {
  import opened Foundation
  import opened LedgerTypes
  import opened RestartHistory
  import opened TerminalMerge
  import opened LedgerProtocol

  // ---- one attempt -----------------------------------------------------------------

  predicate EntriesOk(a: Attempt) {
    forall i :: 0 <= i < |a.entries| ==>
      && a.entries[i].sequence == a.first + 1 + i
      && a.entries[i].calls <= 1
      && (a.entries[i].state.Unresolved? ==> a.entries[i].calls == 0)
  }

  predicate StagesOk(a: Attempt) {
    && (a.phase.Publishing? <==> !a.publication.NotPublishing?)
    && (!a.commit.CommitIdle? ==> OutcomeAdmitted(a, a.terminalOutcome))
    && (a.restartCommitted <==> a.publication.PublicationRecorded? || a.commit.CommitRecorded?)
    && (a.publication.PublicationRecorded? ==> a.commit.CommitIdle? || a.commit.CommitRecorded?)
    && a.publicationCalls <= 1
    && (a.publication.NotPublishing? || a.publication.Waiting? || a.publication.Holding? ==> a.publicationCalls == 0)
    && (a.Counted() ==> a.committerAccepted)
  }

  predicate AttemptOk(a: Attempt, limits: LedgerLimits) {
    && 0 < a.first && 0 < |a.entries| <= limits.maxClaimEntriesPerAttempt && a.Last() <= MAX_UINT64
    && EntriesOk(a)
    && (a.phase.Open? || a.phase.Sealed? || a.phase.Cancelling? || a.phase.Publishing?)
    && (a.phase.Sealed? || a.phase.Publishing? ==> a.AllSucceeded())
    && (a.drained ==> a.phase.Cancelling? && a.AllResolved())
    && StagesOk(a)
  }

  lemma AttemptStaysOk(ledger: Ledger, serial: Option<string>, a: Attempt, e: Event)
    requires AttemptOk(a, ledger.limits) && AttemptEnabled(ledger, serial, a, e)
    ensures AttemptOk(AttemptAfter(ledger, serial, a, e), ledger.limits)
    ensures AttemptAfter(ledger, serial, a, e).first == a.first
    ensures |AttemptAfter(ledger, serial, a, e).entries| == |a.entries|
    ensures AttemptAfter(ledger, serial, a, e).identity == a.identity
  {
    hide TerminalTarget, Covers, AttemptBlock, ValidLimits;
  }

  // ---- pending committer requests ----------------------------------------------------

  datatype PendingTarget = PendingTarget(expected: RestartState, target: RestartState, outcome: AttemptPhase)

  function Pending(a: Attempt): Option<PendingTarget> {
    if a.publication.PublicationRequested? then Some(PendingTarget(a.publication.expected, a.publication.target, Published))
    else if a.commit.CommitRequested? then Some(PendingTarget(a.commit.expected, a.commit.target, a.terminalOutcome))
    else None
  }

  predicate PublicationsAdded(expected: RestartState, target: RestartState, outcome: AttemptPhase) {
    var added := if outcome.Published? then 1 else 0;
    && PublishedCount(target.tombstones) <= PublishedCount(expected.tombstones) + added
    && (target.truncated == 0 ==> PublishedCount(target.tombstones) == PublishedCount(expected.tombstones) + added)
  }

  /** A target adds nothing to what it was computed from but the attempt's own block. */
  predicate ContentFrom(a: Attempt, p: PendingTarget) {
    && a.AllResolved() && a.Last() <= MAX_UINT64
    && forall t :: t in p.target.tombstones ==> t in p.expected.tombstones || t in Block(a, p.outcome)
  }

  predicate PendingOk(limits: LedgerLimits, end: int, a: Attempt, p: PendingTarget) {
    && ValidRestart(p.target, limits)
    && p.expected.truncated <= p.target.truncated
    && Covers(p.target, p.expected)
    && a.Last() <= EndSequence(p.target) <= end
    && PublicationsAdded(p.expected, p.target, p.outcome)
    && ContentFrom(a, p)
  }

  // ---- the whole system -----------------------------------------------------------------

  predicate LedgerOk(ledger: Ledger) {
    && Activated(ledger.limits)
    && ValidRestart(ledger.durable, ledger.limits)
    && (ledger.exhausted <==> ledger.next == 0)
    && EndSequence(ledger.durable) <= MemoryEnd(ledger)
    && ValidSample(ledger.sample, 0)
    && PublishedCount(ledger.durable.tombstones) <= ledger.sample.revision
    && (ledger.durable.truncated == 0 ==> PublishedCount(ledger.durable.tombstones) == ledger.sample.revision)
  }

  predicate AttemptsOk(s: System) {
    forall k :: k in s.attempts ==>
      AttemptOk(s.attempts[k], s.ledger.limits) && s.base < s.attempts[k].first && s.attempts[k].Last() <= MemoryEnd(s.ledger)
  }

  predicate Disjoint(attempts: map<string, Attempt>) {
    forall j, k :: j in attempts && k in attempts && j != k ==>
      attempts[j].Last() < attempts[k].first || attempts[k].Last() < attempts[j].first
  }

  predicate AllApart(durable: RestartState, attempts: map<string, Attempt>) {
    forall k :: k in attempts && !attempts[k].Committed() ==> Apart(attempts[k].first, attempts[k].Last(), durable)
  }

  predicate AllPendingOk(ledger: Ledger, attempts: map<string, Attempt>) {
    forall k :: k in attempts && Pending(attempts[k]).Some? ==>
      PendingOk(ledger.limits, MemoryEnd(ledger), attempts[k], Pending(attempts[k]).value)
  }

  /** No pending target records or splits another uncommitted attempt. */
  predicate TargetsApart(attempts: map<string, Attempt>) {
    forall j, k :: j in attempts && k in attempts && j != k && Pending(attempts[k]).Some? && !attempts[j].Committed() ==>
      Apart(attempts[j].first, attempts[j].Last(), Pending(attempts[k]).value.target)
  }

  predicate OpenUpTo(attempts: map<string, Attempt>, k: string, end: int) {
    k in attempts && !attempts[k].Committed() && attempts[k].Last() == end
  }

  /** The durable watermark lags only while the newest attempt is uncommitted. */
  ghost predicate NewestOpen(s: System) {
    EndSequence(s.ledger.durable) < MemoryEnd(s.ledger) ==> exists k :: OpenUpTo(s.attempts, k, MemoryEnd(s.ledger))
  }

  /** One publication at a time, and nothing else moves the sample state. */
  predicate SerialOk(s: System) {
    && (forall k :: k in s.attempts && HoldsSerial(s.attempts[k]) ==> s.serial == Some(k))
    && (s.serial.Some? ==> s.serial.value in s.attempts && HoldsSerial(s.attempts[s.serial.value]))
    && (forall k :: k in s.attempts && s.attempts[k].publication.PublicationRequested? ==>
        SampleRequestOk(s.ledger.sample, s.attempts[k]))
  }

  predicate SampleRequestOk(sample: SampleState, a: Attempt)
    requires a.publication.PublicationRequested?
  {
    && a.publication.expectedSample == sample
    && sample.revision != MAX_UINT64 && sample.highWater != MAX_UINT64
    && a.publication.nextSample == AdvanceSample(sample, a.identity)
    && IdentityAdvances(sample.lastCommitted, a.identity)
  }

  // ---- totals over the attempt map ---------------------------------------------------------

  ghost function AnyKey(m: map<string, Attempt>): (k: string)
    requires m != map[]
    ensures k in m
  {
    assert exists k :: k in m by {
      assert m.Keys != {};
    }
    var k :| k in m;
    k
  }

  ghost function Total(m: map<string, Attempt>, weight: Attempt -> int): int
    decreases |m|
  {
    if m == map[] then 0
    else
      var k := AnyKey(m);
      assert (m - {k}).Keys == m.Keys - {k};
      weight(m[k]) + Total(m - {k}, weight)
  }

  lemma {:induction false} TotalRemove(m: map<string, Attempt>, weight: Attempt -> int, k: string)
    requires k in m
    ensures Total(m, weight) == weight(m[k]) + Total(m - {k}, weight)
    decreases |m|
  {
    var c := AnyKey(m);
    assert (m - {c}).Keys == m.Keys - {c};
    if c != k {
      TotalRemove(m - {c}, weight, k);
      assert (m - {k}).Keys == m.Keys - {k};
      assert (m - {k}) != map[] by {
        assert c in m - {k};
      }
      TotalRemove(m - {k}, weight, c);
      assert m - {c} - {k} == m - {k} - {c};
    }
  }

  lemma TotalUpdate(m: map<string, Attempt>, weight: Attempt -> int, k: string, a: Attempt)
    ensures k in m ==> Total(m[k := a], weight) == Total(m, weight) - weight(m[k]) + weight(a)
    ensures k !in m ==> Total(m[k := a], weight) == Total(m, weight) + weight(a)
  {
    TotalRemove(m[k := a], weight, k);
    assert m[k := a] - {k} == m - {k};
    if k in m {
      TotalRemove(m, weight, k);
    } else {
      assert m - {k} == m;
    }
  }

  lemma {:induction false} TotalNonNegative(m: map<string, Attempt>, weight: Attempt -> int)
    requires forall a :: weight(a) >= 0
    ensures Total(m, weight) >= 0
    decreases |m|
  {
    if m != map[] {
      var k := AnyKey(m);
      assert (m - {k}).Keys == m.Keys - {k};
      TotalNonNegative(m - {k}, weight);
    }
  }

  function ClaimWeight(a: Attempt): int { |a.entries| }

  /** Sequences a live attempt still owes to a possible publication. */
  function OwedWeight(a: Attempt): int { if a.Counted() then 0 else 2 }

  predicate WithinCapacity(limits: LedgerLimits, retainedClaims: int, attempts: map<string, Attempt>) {
    && |attempts| <= limits.maxRetainedAttempts
    && 0 <= retainedClaims <= limits.maxRetainedClaimEntries
  }

  /** Retained counts are exactly the live set's, and within the limits. */
  ghost predicate Capacity(s: System) {
    && WithinCapacity(s.ledger.limits, s.ledger.retainedClaims, s.attempts)
    && s.ledger.retainedClaims == Total(s.attempts, ClaimWeight)
  }

  /** Committed publications and uncounted live attempts have consumed two
      sequences each. */
  ghost predicate Consumption(s: System) {
    MemoryEnd(s.ledger) >= 2 * s.ledger.sample.revision + Total(s.attempts, OwedWeight)
  }

  // ---- the history of attempts ----------------------------------------------------------------

  /** Block i starts where the previous one ended. */
  predicate StartsInOrder(begun: seq<Begun>, base: int, i: nat)
    requires i < |begun|
  {
    && begun[i].claims > 0
    && begun[i].first == if i == 0 then base + 1 else begun[i - 1].first + begun[i - 1].claims + 1
  }

  /** The blocks ever begun tile everything consumed since activation. */
  predicate BegunTiles(begun: seq<Begun>, base: int, end: int) {
    && (forall i :: 0 <= i < |begun| ==> StartsInOrder(begun, base, i))
    && end == if |begun| == 0 then base else begun[|begun| - 1].first + begun[|begun| - 1].claims
  }

  ghost predicate IsLive(attempts: map<string, Attempt>, b: Begun) {
    exists k :: k in attempts && attempts[k].first == b.first && |attempts[k].entries| == b.claims
  }

  /** Every attempt ever begun is either live or finished, never both. */
  ghost predicate Accounted(s: System) {
    && (forall b :: b in s.begun ==> (b.first in s.finished <==> !IsLive(s.attempts, b)))
    && (forall b :: b in s.begun && b.first in s.finished ==> |s.finished[b.first].outcomes| == b.claims)
    && (forall k :: k in s.attempts ==> Begun(s.attempts[k].first, |s.attempts[k].entries|) in s.begun)
    && (forall f :: f in s.finished ==> Begun(f, |s.finished[f].outcomes|) in s.begun)
  }

  predicate FinishedOk(f: Finished) {
    && TerminalPhase(f.outcome)
    && BlockOutcomes(f.outcome, f.outcomes)
    && (f.outcome.Published? ==> f.committerAccepted)
  }

  predicate AllFinishedOk(finished: map<int, Finished>) {
    forall f :: f in finished ==> FinishedOk(finished[f])
  }

  /** The outcome a committed live attempt was recorded with. */
  function RecordedOutcome(a: Attempt): AttemptPhase {
    if a.Counted() then Published else a.terminalOutcome
  }

  predicate FromFinished(finished: map<int, Finished>, t: Tombstone, first: uint64) {
    && first in finished && first + |finished[first].outcomes| <= MAX_UINT64
    && t in AttemptBlock(first, finished[first].outcome, finished[first].outcomes)
  }

  predicate FromLive(attempts: map<string, Attempt>, t: Tombstone, k: string) {
    && k in attempts && attempts[k].Committed() && attempts[k].AllResolved() && attempts[k].Last() <= MAX_UINT64
    && t in Block(attempts[k], RecordedOutcome(attempts[k]))
  }

  /** Every durable tombstone of this activation says what its attempt did. */
  ghost predicate AuditTrue(s: System) {
    forall t :: t in s.ledger.durable.tombstones && t.sequence > s.base ==>
      (exists first: uint64 :: FromFinished(s.finished, t, first)) || (exists k :: FromLive(s.attempts, t, k))
  }

  ghost predicate Inv(s: System) {
    && LedgerOk(s.ledger) && s.base <= MemoryEnd(s.ledger)
    && AttemptsOk(s)
    && Disjoint(s.attempts)
    && AllApart(s.ledger.durable, s.attempts)
    && AllPendingOk(s.ledger, s.attempts)
    && TargetsApart(s.attempts)
    && NewestOpen(s)
    && SerialOk(s)
    && Capacity(s)
    && Consumption(s)
    && BegunTiles(s.begun, s.base, MemoryEnd(s.ledger))
    && Accounted(s)
    && AllFinishedOk(s.finished)
    && AuditTrue(s)
  }
}
