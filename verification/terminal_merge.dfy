/** How one attempt's terminal tombstones are merged into the durable history:
    the target restart state, its exact shape, and what it keeps. */
module TerminalMerge {
  import opened Foundation
  import opened LedgerTypes
  import opened RestartHistory

  // ---- activation ----------------------------------------------------------------

  /** The limits a running ledger relies on: any tombstone it writes fits. */
  predicate Activated(limits: LedgerLimits) {
    && ValidLimits(limits)
    && EncodedBytes(LargestAttempt(limits)) <= limits.auditTombstoneMaxEncodedBytes
    && EncodedBytes(LargestClaim()) <= limits.auditTombstoneMaxEncodedBytes
  }

  /** What newSampleLedger demands of the limits before a ledger exists. */
  predicate LimitsAccepted(limits: LedgerLimits) {
    && Activated(limits)
    && limits.maxRetainedClaimEntries <= limits.maxRetainedAttempts * limits.maxClaimEntriesPerAttempt
    && limits.auditTombstoneLimit * (limits.auditTombstoneMaxEncodedBytes + 1) <= MAX_SERIALIZED_CONTRACT_BYTES - 512
  }

  function LargestAttempt(limits: LedgerLimits): Tombstone
    requires ValidLimits(limits)
  {
    Tombstone(1, AttemptRecord, MAX_UINT64, limits.maxClaimEntriesPerAttempt, 0, 0, OfAttempt(PublishFailed))
  }

  function LargestClaim(): Tombstone {
    Tombstone(1, ClaimRecord, MAX_UINT64, 0, MAX_UINT64, MAX_UINT64, OfClaim(ClaimRejectedTerminal))
  }

  lemma LargestAttemptBounds(limits: LedgerLimits, t: Tombstone)
    requires ValidLimits(limits) && t.kind.AttemptRecord? && t.outcome.OfAttempt? && TerminalPhase(t.outcome.phase)
    requires t.claimCount <= limits.maxClaimEntriesPerAttempt
    ensures EncodedBytes(t) <= EncodedBytes(LargestAttempt(limits))
  {
    DecimalDigitsMonotone(t.sequence, MAX_UINT64);
    DecimalDigitsMonotone(t.claimCount, limits.maxClaimEntriesPerAttempt);
  }

  lemma LargestClaimBounds(t: Tombstone)
    requires t.kind.ClaimRecord? && t.outcome.OfClaim?
    ensures EncodedBytes(t) <= EncodedBytes(LargestClaim())
  {
    DecimalDigitsMonotone(t.sequence, MAX_UINT64);
    DecimalDigitsMonotone(t.attemptSequence, MAX_UINT64);
    DecimalDigitsMonotone(t.ordinal, MAX_UINT64);
  }

  /** No tombstone an activated ledger writes exceeds the per-tombstone bound. */
  lemma ActivatedTombstoneFits(limits: LedgerLimits, t: Tombstone)
    requires Activated(limits) && WellFormed(t)
    requires t.claimCount <= limits.maxClaimEntriesPerAttempt
    ensures EncodedBytes(t) <= limits.auditTombstoneMaxEncodedBytes
  {
    if t.kind.AttemptRecord? {
      LargestAttemptBounds(limits, t);
    } else {
      LargestClaimBounds(t);
    }
  }

  // ---- terminal tombstones of one attempt ------------------------------------------

  function AttemptBlock(first: uint64, phase: AttemptPhase, outcomes: seq<ClaimOutcome>): (block: seq<Tombstone>)
    requires first + |outcomes| <= MAX_UINT64
    ensures |block| == 1 + |outcomes|
  {
    [Tombstone(1, AttemptRecord, first, |outcomes|, 0, 0, OfAttempt(phase))] +
    seq(|outcomes|, i requires 0 <= i < |outcomes| =>
      Tombstone(1, ClaimRecord, first + 1 + i, 0, first, i, OfClaim(outcomes[i])))
  }

  predicate BlockOutcomes(phase: AttemptPhase, outcomes: seq<ClaimOutcome>) {
    && TerminalPhase(phase)
    && (PublicationPhase(phase) ==> forall i :: 0 <= i < |outcomes| ==> outcomes[i] == ClaimSucceeded)
  }

  lemma AttemptBlockValid(limits: LedgerLimits, first: uint64, phase: AttemptPhase, outcomes: seq<ClaimOutcome>)
    requires Activated(limits) && 0 < first && first + |outcomes| <= MAX_UINT64
    requires 0 < |outcomes| <= limits.maxClaimEntriesPerAttempt && BlockOutcomes(phase, outcomes)
    ensures var block := AttemptBlock(first, phase, outcomes);
      && Records(block, limits) && Dense(block, first - 1)
      && BlockAt(block, 0, limits.maxClaimEntriesPerAttempt) && block[0].claimCount == |outcomes|
  {
    var block := AttemptBlock(first, phase, outcomes);
    forall i | 0 <= i < |block|
      ensures WellFormed(block[i]) && EncodedBytes(block[i]) <= limits.auditTombstoneMaxEncodedBytes
    {
      ActivatedTombstoneFits(limits, block[i]);
    }
  }

  // ---- the merge ---------------------------------------------------------------------

  predicate Has(pool: seq<Tombstone>, s: int) {
    exists i :: 0 <= i < |pool| && pool[i].sequence == s
  }

  predicate Conflicting(pool: seq<Tombstone>) {
    exists i, j :: 0 <= i < |pool| && 0 <= j < |pool| && pool[i].sequence == pool[j].sequence && pool[i] != pool[j]
  }

  function Pick(pool: seq<Tombstone>, s: int): (t: Tombstone)
    requires Has(pool, s)
    ensures t in pool && t.sequence == s
  {
    if pool[0].sequence == s then pool[0]
    else
      assert Has(pool[1..], s) by {
        var i :| 0 <= i < |pool| && pool[i].sequence == s;
        assert pool[1..][i - 1].sequence == s;
      }
      Pick(pool[1..], s)
  }

  /** Lowest sequence from which the pool is gap-free up to s. */
  function RunStart(pool: seq<Tombstone>, s: int): (start: int)
    requires Has(pool, s)
    ensures start <= s
    ensures forall q :: start <= q <= s ==> Has(pool, q)
    ensures !Has(pool, start - 1)
    decreases s
  {
    if Has(pool, s - 1) then RunStart(pool, s - 1) else s
  }

  function Run(pool: seq<Tombstone>, start: int, end: int): (run: seq<Tombstone>)
    requires start <= end + 1
    requires forall q :: start <= q <= end ==> Has(pool, q)
    ensures |run| == end + 1 - start && Dense(run, start - 1)
    ensures forall i :: 0 <= i < |run| ==> run[i] == Pick(pool, start + i)
    decreases end + 1 - start
  {
    if start > end then [] else Run(pool, start, end - 1) + [Pick(pool, end)]
  }

  /** The retained history: the gap-free run that reaches the in-memory watermark,
      kept only when it starts exactly at the truncation watermark. */
  function Retained(pool: seq<Tombstone>, truncated: int, end: int): seq<Tombstone> {
    if Has(pool, end) && RunStart(pool, end) == truncated + 1 then Run(pool, truncated + 1, end) else []
  }

  function Newest(ts: seq<Tombstone>, limit: nat): (kept: seq<Tombstone>)
    ensures |kept| == if |ts| > limit then limit else |ts|
    ensures kept == ts[|ts| - |kept|..]
  {
    if |ts| > limit then ts[|ts| - limit..] else ts
  }

  /** The restart state that retains the newest tombstones of ts below the watermark. */
  function RestartAt(next: uint64, exhausted: bool, limits: LedgerLimits, ts: seq<Tombstone>): RestartState
    requires ValidLimits(limits) && |ts| <= WatermarkEnd(next, exhausted)
  {
    var kept := Newest(ts, limits.auditTombstoneLimit);
    RestartState(1, next, exhausted, WatermarkEnd(next, exhausted) - |kept|, kept)
  }

  lemma RetainedFits(pool: seq<Tombstone>, truncated: uint64, end: int)
    requires 0 <= end
    ensures |Retained(pool, truncated, end)| <= end
  {
  }

  /** terminalRestartStateLocked as a function of the durable state, the
      in-memory watermark and the attempt's tombstones. */
  function TerminalTarget(durable: RestartState, next: uint64, exhausted: bool, limits: LedgerLimits,
                          records: seq<Tombstone>): Result<RestartState>
    requires ValidLimits(limits) && (exhausted <==> next == 0)
  {
    var pool := durable.tombstones + records;
    if Conflicting(pool) then
      Err
    else
      var end := WatermarkEnd(next, exhausted);
      RetainedFits(pool, durable.truncated, end);
      var target := RestartAt(next, exhausted, limits, Retained(pool, durable.truncated, end));
      if ValidRestart(target, limits) then Ok(target) else Err
  }

  // ---- its exact shape -----------------------------------------------------------------

  /** An interval of sequences that a durable state neither records nor splits:
      it is wholly below the truncation watermark or wholly above the end. */
  predicate Apart(first: int, last: int, durable: RestartState) {
    last <= durable.truncated || EndSequence(durable) < first
  }

  /** What the merge retains, before trimming to the tombstone limit. */
  function MergedHistory(durable: RestartState, end: int, records: seq<Tombstone>): seq<Tombstone>
    requires |records| > 0
  {
    var first, last := records[0].sequence, records[|records| - 1].sequence;
    if first == EndSequence(durable) + 1 && last == end then durable.tombstones + records
    else if EndSequence(durable) == end && last != durable.truncated then durable.tombstones
    else []
  }

  lemma {:induction false} RunStartIs(pool: seq<Tombstone>, start: int, s: int)
    requires start <= s && (forall q :: start <= q <= s ==> Has(pool, q)) && !Has(pool, start - 1)
    ensures RunStart(pool, s) == start
    decreases s - start
  {
    if start < s {
      RunStartIs(pool, start, s - 1);
    }
  }

  /** What the pool holds: the history's interval and the block's interval. */
  lemma PoolContents(ts: seq<Tombstone>, low: int, records: seq<Tombstone>, first: int)
    requires Dense(ts, low) && Dense(records, first - 1)
    ensures forall s :: Has(ts + records, s) <==> (low < s <= low + |ts| || first <= s < first + |records|)
  {
    var pool := ts + records;
    forall s | low < s <= low + |ts| || first <= s < first + |records|
      ensures Has(pool, s)
    {
      if low < s <= low + |ts| {
        assert pool[s - low - 1].sequence == s;
      } else {
        assert pool[|ts| + s - first].sequence == s;
      }
    }
  }

  lemma PoolHasNoConflict(ts: seq<Tombstone>, low: int, records: seq<Tombstone>, first: int)
    requires Dense(ts, low) && Dense(records, first - 1)
    requires first + |records| - 1 <= low || low + |ts| < first
    ensures !Conflicting(ts + records)
  {
  }

  lemma PickIsUnique(pool: seq<Tombstone>, i: nat)
    requires i < |pool| && !Conflicting(pool)
    ensures Has(pool, pool[i].sequence) && Pick(pool, pool[i].sequence) == pool[i]
  {
    assert Has(pool, pool[i].sequence);
    var t := Pick(pool, pool[i].sequence);
    var j :| 0 <= j < |pool| && pool[j] == t;
  }

  lemma RunIs(pool: seq<Tombstone>, ts: seq<Tombstone>, low: int)
    requires !Conflicting(pool) && Dense(ts, low) && forall t :: t in ts ==> t in pool
    ensures forall q :: low + 1 <= q <= low + |ts| ==> Has(pool, q)
    ensures Run(pool, low + 1, low + |ts|) == ts
  {
    forall q | low + 1 <= q <= low + |ts|
      ensures Has(pool, q) && Pick(pool, q) == ts[q - low - 1]
    {
      assert ts[q - low - 1] in pool;
      var i :| 0 <= i < |pool| && pool[i] == ts[q - low - 1];
      PickIsUnique(pool, i);
    }
  }

  /** A gap-free pool that reaches exactly down to the watermark is retained whole. */
  lemma RetainedRun(pool: seq<Tombstone>, ts: seq<Tombstone>, low: int)
    requires !Conflicting(pool) && Dense(ts, low) && |ts| > 0 && (forall t :: t in ts ==> t in pool) && !Has(pool, low)
    ensures Retained(pool, low, low + |ts|) == ts
  {
    RunIs(pool, ts, low);
    RunStartIs(pool, low + 1, low + |ts|);
  }

  lemma RetainedNothing(pool: seq<Tombstone>, low: int, start: int, end: int)
    requires start <= end && (forall q :: start <= q <= end ==> Has(pool, q)) && !Has(pool, start - 1)
    requires start != low + 1
    ensures Retained(pool, low, end) == []
  {
    RunStartIs(pool, start, end);
  }

  lemma RetainedUnreached(pool: seq<Tombstone>, low: int, end: int)
    requires !Has(pool, end)
    ensures Retained(pool, low, end) == []
  {
  }

  lemma RetainedShape(durable: RestartState, end: int, records: seq<Tombstone>)
    requires Dense(durable.tombstones, durable.truncated)
    requires durable.truncated + |durable.tombstones| == EndSequence(durable) <= end
    requires |records| > 0 && Dense(records, records[0].sequence - 1)
    requires records[|records| - 1].sequence <= end
    requires Apart(records[0].sequence, records[|records| - 1].sequence, durable)
    ensures !Conflicting(durable.tombstones + records)
    ensures Retained(durable.tombstones + records, durable.truncated, end) == MergedHistory(durable, end, records)
  {
    hide Retained, Conflicting, Has;
    var ts, low, first := durable.tombstones, durable.truncated, records[0].sequence;
    var last := first + |records| - 1;
    assert records[|records| - 1].sequence == last;
    var pool := ts + records;
    PoolHasNoConflict(ts, low, records, first);
    PoolContents(ts, low, records, first);
    if !Has(pool, end) {
      RetainedUnreached(pool, low, end);
    } else {
      if first == low + |ts| + 1 {
        assert Dense(pool, low);
        RetainedRun(pool, pool, low);
      } else if first > low + |ts| || last == low {
        RetainedNothing(pool, low, first, end);
      } else {
        RetainedRun(pool, ts, low);
      }
    }
  }

  // ---- what the merge keeps --------------------------------------------------------------

  /** A durable state as every ledger holds it. */
  predicate Durable(durable: RestartState, limits: LedgerLimits) {
    Activated(limits) && ValidRestart(durable, limits)
  }

  /** A live attempt's tombstones, relative to the durable state and the in-memory end. */
  predicate LiveBlock(durable: RestartState, end: int, limits: LedgerLimits, records: seq<Tombstone>) {
    && |records| > 0 && records[0].sequence > 0
    && Records(records, limits) && Dense(records, records[0].sequence - 1)
    && BlockAt(records, 0, limits.maxClaimEntriesPerAttempt) && |records| == 1 + records[0].claimCount
    && records[|records| - 1].sequence <= end
    && Apart(records[0].sequence, records[|records| - 1].sequence, durable)
  }

  lemma MergedHistoryTiles(durable: RestartState, end: int, limits: LedgerLimits, records: seq<Tombstone>)
    requires Durable(durable, limits) && EndSequence(durable) <= end && LiveBlock(durable, end, limits, records)
    ensures var merged := MergedHistory(durable, end, records);
      |merged| <= end && ValidHistory(merged, end - |merged|, limits)
  {
    if records[0].sequence == EndSequence(durable) + 1 {
      AppendBlock(durable.tombstones, durable.truncated, limits, records);
    }
  }

  lemma NewestValid(ts: seq<Tombstone>, truncated: nat, limits: LedgerLimits, limit: nat)
    requires ValidHistory(ts, truncated, limits)
    ensures var kept := Newest(ts, limit); ValidHistory(kept, truncated + |ts| - |kept|, limits)
  {
    hide ValidHistory;
    DropPrefix(ts, truncated, limits, |ts| - |Newest(ts, limit)|);
  }

  lemma MergedHistoryValid(durable: RestartState, end: int, limits: LedgerLimits, records: seq<Tombstone>)
    requires Durable(durable, limits) && EndSequence(durable) <= end && LiveBlock(durable, end, limits, records)
    ensures var merged := MergedHistory(durable, end, records); var kept := Newest(merged, limits.auditTombstoneLimit);
      |merged| <= end && ValidHistory(kept, end - |kept|, limits)
  {
    hide ValidHistory, MergedHistory, Newest, EncodedBytes;
    MergedHistoryTiles(durable, end, limits, records);
    var merged := MergedHistory(durable, end, records);
    NewestValid(merged, end - |merged|, limits, limits.auditTombstoneLimit);
  }

  /** For a live attempt the merge never finds a conflict and its result always
      tiles; it fails exactly when an extended history exceeds the aggregate
      serialization budget. */
  lemma TargetIs(durable: RestartState, next: uint64, exhausted: bool, limits: LedgerLimits, records: seq<Tombstone>)
    requires Durable(durable, limits) && (exhausted <==> next == 0)
    requires EndSequence(durable) <= WatermarkEnd(next, exhausted)
    requires LiveBlock(durable, WatermarkEnd(next, exhausted), limits, records)
    ensures var end := WatermarkEnd(next, exhausted); var merged := MergedHistory(durable, end, records);
      && |merged| <= end
      && var target := RestartAt(next, exhausted, limits, merged);
      && TerminalTarget(durable, next, exhausted, limits, records)
        == if target.tombstones == [] || AggregateFits(target.tombstones) then Ok(target) else Err
  {
    hide ValidRestart, MergedHistory, RestartAt, AggregateFits, Conflicting, Retained, Apart, BlockAt, Records;
    var end := WatermarkEnd(next, exhausted);
    DurableIsDense(durable, limits);
    RetainedShape(durable, end, records);
    MergedHistoryValid(durable, WatermarkEnd(next, exhausted), limits, records);
    RestartAtValid(next, exhausted, limits, MergedHistory(durable, end, records));
  }

  lemma DurableIsDense(durable: RestartState, limits: LedgerLimits)
    requires Durable(durable, limits)
    ensures ValidLimits(limits) && Dense(durable.tombstones, durable.truncated)
    ensures durable.truncated + |durable.tombstones| == EndSequence(durable)
  {
  }

  lemma RestartAtValid(next: uint64, exhausted: bool, limits: LedgerLimits, ts: seq<Tombstone>)
    requires Activated(limits) && (exhausted <==> next == 0) && |ts| <= WatermarkEnd(next, exhausted)
    requires var kept := Newest(ts, limits.auditTombstoneLimit);
      ValidHistory(kept, WatermarkEnd(next, exhausted) - |kept|, limits)
    ensures var target := RestartAt(next, exhausted, limits, ts);
      ValidRestart(target, limits) <==> (target.tombstones == [] || AggregateFits(target.tombstones))
  {
    hide ValidHistory, EncodedBytes, AggregateFits;
  }

  lemma {:induction false} WellFormedCost(ts: seq<Tombstone>)
    requires forall i :: 0 <= i < |ts| ==> WellFormed(ts[i])
    ensures HistoryCost(ts) <= 782 * |ts|
  {
    if |ts| > 0 {
      WellFormedCost(ts[..|ts| - 1]);
    }
  }

  /** The target covers the durable state it was computed from, ends at the
      in-memory watermark and never lowers the truncation watermark. */
  lemma TargetCovers(durable: RestartState, next: uint64, exhausted: bool, limits: LedgerLimits, records: seq<Tombstone>)
    requires Durable(durable, limits) && (exhausted <==> next == 0)
    requires EndSequence(durable) <= WatermarkEnd(next, exhausted)
    requires LiveBlock(durable, WatermarkEnd(next, exhausted), limits, records)
    ensures var computed := TerminalTarget(durable, next, exhausted, limits, records);
      computed.Ok? ==> var target := computed.value;
      && ValidRestart(target, limits) && EndSequence(target) == WatermarkEnd(next, exhausted)
      && durable.truncated <= target.truncated
      && Covers(target, durable)
  {
    hide TerminalTarget, ValidHistory, LiveBlock, Covers, AggregateFits, MergedHistory, Newest;
    TargetIs(durable, next, exhausted, limits, records);
    RestartCovers(durable, next, exhausted, limits, records);
    assert |records| > 0 by { LiveBlockShape(durable, WatermarkEnd(next, exhausted), limits, records); }
    RestartAtValid(next, exhausted, limits, MergedHistory(durable, WatermarkEnd(next, exhausted), records)) by {
      MergedHistoryValid(durable, WatermarkEnd(next, exhausted), limits, records);
    }
  }

  lemma RestartCovers(durable: RestartState, next: uint64, exhausted: bool, limits: LedgerLimits, records: seq<Tombstone>)
    requires Durable(durable, limits) && (exhausted <==> next == 0)
    requires EndSequence(durable) <= WatermarkEnd(next, exhausted)
    requires LiveBlock(durable, WatermarkEnd(next, exhausted), limits, records)
    ensures var merged := MergedHistory(durable, WatermarkEnd(next, exhausted), records);
      && |merged| <= WatermarkEnd(next, exhausted)
      && var target := RestartAt(next, exhausted, limits, merged);
      durable.truncated <= target.truncated && (ValidRestart(target, limits) ==> Covers(target, durable))
  {
    hide ValidHistory, Newest, MergedHistory, LiveBlock, AggregateFits, Activated;
    var end := WatermarkEnd(next, exhausted);
    LiveBlockShape(durable, end, limits, records);
    DurableIsDense(durable, limits);
    var merged := MergedHistory(durable, end, records);
    assert |merged| <= end by { MergedHistoryValid(durable, end, limits, records); }
    var target := RestartAt(next, exhausted, limits, merged);
    ValidUnderMaximum(durable, limits);
    MergeKeepsNewest(durable, end, limits, records, target.tombstones, target.truncated);
    if ValidRestart(target, limits) {
      ValidUnderMaximum(target, limits);
    }
  }

  lemma LiveBlockShape(durable: RestartState, end: int, limits: LedgerLimits, records: seq<Tombstone>)
    requires LiveBlock(durable, end, limits, records)
    ensures |records| > 0 && records[|records| - 1].sequence <= end && Dense(records, records[0].sequence - 1)
  {
  }

  lemma MergeKeepsNewest(durable: RestartState, end: int, limits: LedgerLimits, records: seq<Tombstone>,
                         kept: seq<Tombstone>, truncated: int)
    requires Dense(durable.tombstones, durable.truncated) && |records| > 0 && ValidLimits(limits)
    requires durable.truncated + |durable.tombstones| == EndSequence(durable) <= end
    requires records[|records| - 1].sequence <= end && Dense(records, records[0].sequence - 1)
    requires kept == Newest(MergedHistory(durable, end, records), limits.auditTombstoneLimit)
    requires truncated == end - |kept|
    ensures durable.truncated <= truncated
    ensures forall t :: t in durable.tombstones && t.sequence > truncated ==> t in kept
  {
    var merged := MergedHistory(durable, end, records);
    forall t | t in durable.tombstones && t.sequence > truncated
      ensures t in kept
    {
      var i :| 0 <= i < |durable.tombstones| && durable.tombstones[i] == t;
      assert merged[i] == t;
      assert kept[i - (|merged| - |kept|)] == t;
    }
  }

  /** The target neither records nor splits any other unrecorded interval below
      the in-memory watermark. */
  lemma TargetApart(durable: RestartState, next: uint64, exhausted: bool, limits: LedgerLimits, records: seq<Tombstone>,
                    first: int, last: int)
    requires Durable(durable, limits) && (exhausted <==> next == 0)
    requires EndSequence(durable) <= WatermarkEnd(next, exhausted)
    requires LiveBlock(durable, WatermarkEnd(next, exhausted), limits, records)
    requires Apart(first, last, durable) && first <= last <= WatermarkEnd(next, exhausted)
    requires last < records[0].sequence || records[|records| - 1].sequence < first
    ensures var computed := TerminalTarget(durable, next, exhausted, limits, records);
      computed.Ok? ==> Apart(first, last, computed.value)
  {
    TargetIs(durable, next, exhausted, limits, records);
  }

  // ---- published attempts in a history -----------------------------------------------------

  predicate PublishedRecord(t: Tombstone) {
    t.kind.AttemptRecord? && t.outcome == OfAttempt(Published)
  }

  function PublishedCount(ts: seq<Tombstone>): (n: nat)
    ensures n <= |ts|
  {
    if |ts| == 0 then 0
    else PublishedCount(ts[..|ts| - 1]) + if PublishedRecord(ts[|ts| - 1]) then 1 else 0
  }

  lemma {:induction false} PublishedCountConcat(a: seq<Tombstone>, b: seq<Tombstone>)
    ensures PublishedCount(a + b) == PublishedCount(a) + PublishedCount(b)
    decreases |b|
  {
    if |b| == 0 {
      assert a + b == a;
    } else {
      assert (a + b)[..|a + b| - 1] == a + b[..|b| - 1];
      PublishedCountConcat(a, b[..|b| - 1]);
    }
  }

  lemma {:induction false} NoPublished(ts: seq<Tombstone>)
    requires forall i :: 0 <= i < |ts| ==> !PublishedRecord(ts[i])
    ensures PublishedCount(ts) == 0
  {
    if |ts| > 0 {
      NoPublished(ts[..|ts| - 1]);
    }
  }

  lemma BlockPublishedCount(first: uint64, phase: AttemptPhase, outcomes: seq<ClaimOutcome>)
    requires first + |outcomes| <= MAX_UINT64
    ensures PublishedCount(AttemptBlock(first, phase, outcomes)) == if phase.Published? then 1 else 0
  {
    var block := AttemptBlock(first, phase, outcomes);
    assert block == block[..1] + block[1..];
    PublishedCountConcat(block[..1], block[1..]);
    NoPublished(block[1..]);
    assert block[..1][..0] == [];
  }

  lemma NewestPublications(ts: seq<Tombstone>, limit: nat)
    ensures PublishedCount(Newest(ts, limit)) <= PublishedCount(ts)
    ensures forall t :: t in Newest(ts, limit) ==> t in ts
  {
    var kept := Newest(ts, limit);
    var dropped := ts[..|ts| - |kept|];
    assert ts == dropped + kept;
    PublishedCountConcat(dropped, kept);
  }

  /** A history that starts at sequence one can only be the extended one: a
      live block below the watermark would have to end at zero. */
  lemma CompleteMergeIsExtension(durable: RestartState, end: int, limits: LedgerLimits, records: seq<Tombstone>)
    requires Durable(durable, limits) && EndSequence(durable) <= end && LiveBlock(durable, end, limits, records)
    requires |MergedHistory(durable, end, records)| == end
    ensures MergedHistory(durable, end, records) == durable.tombstones + records
  {
  }

  /** A merge adds at most the block's own publication, and adds it exactly when
      nothing has been truncated. */
  lemma TargetPublications(durable: RestartState, next: uint64, exhausted: bool, limits: LedgerLimits, records: seq<Tombstone>)
    requires Durable(durable, limits) && (exhausted <==> next == 0)
    requires EndSequence(durable) <= WatermarkEnd(next, exhausted)
    requires LiveBlock(durable, WatermarkEnd(next, exhausted), limits, records)
    ensures var computed := TerminalTarget(durable, next, exhausted, limits, records);
      computed.Ok? ==> var target := computed.value;
      && PublishedCount(target.tombstones) <= PublishedCount(durable.tombstones) + PublishedCount(records)
      && (target.truncated == 0 ==>
          PublishedCount(target.tombstones) == PublishedCount(durable.tombstones) + PublishedCount(records))
      && forall t :: t in target.tombstones ==> t in durable.tombstones || t in records
  {
    TargetIs(durable, next, exhausted, limits, records);
    var computed := TerminalTarget(durable, next, exhausted, limits, records);
    var end := WatermarkEnd(next, exhausted);
    var merged := MergedHistory(durable, end, records);
    PublishedCountConcat(durable.tombstones, records);
    NewestPublications(merged, limits.auditTombstoneLimit);
    if computed.Ok? && computed.value.truncated == 0 {
      CompleteMergeIsExtension(durable, end, limits, records);
    }
  }
}
