/** The durable audit history: what a valid restart state is, the multi-loop
    validator that decides it, and the watermark order between two states. */
module RestartHistory {
  import opened Foundation
  import opened LedgerTypes

  // ---- the declarative meaning of a valid restart state -----------------------

  /** Last consumed terminal sequence; -1 for the impossible watermark zero. */
  function WatermarkEnd(next: uint64, exhausted: bool): int {
    if exhausted then MAX_UINT64 else next - 1
  }

  function EndSequence(restart: RestartState): int {
    WatermarkEnd(restart.next, restart.exhausted)
  }

  predicate WellFormed(t: Tombstone) {
    match t.kind
    case AttemptRecord =>
      && t.outcome.OfAttempt? && TerminalPhase(t.outcome.phase)
      && t.schemaVersion == 1 && t.sequence != 0 && t.claimCount != 0
      && t.attemptSequence == 0 && t.ordinal == 0
    case ClaimRecord =>
      && t.outcome.OfClaim?
      && t.schemaVersion == 1 && t.sequence != 0 && t.attemptSequence != 0 && t.claimCount == 0
    case OtherRecord(_) => false
  }

  predicate Dense(ts: seq<Tombstone>, truncated: int) {
    forall i :: 0 <= i < |ts| ==> ts[i].sequence == truncated + 1 + i
  }

  predicate Records(ts: seq<Tombstone>, limits: LedgerLimits) {
    forall i :: 0 <= i < |ts| ==> WellFormed(ts[i]) && EncodedBytes(ts[i]) <= limits.auditTombstoneMaxEncodedBytes
  }

  /** c is claim number k of attempt a, with an outcome a's own outcome admits. */
  predicate ClaimOf(a: Tombstone, c: Tombstone, k: int) {
    && c.kind.ClaimRecord?
    && c.attemptSequence == a.sequence
    && c.ordinal == k
    && (a.outcome.OfAttempt? && PublicationPhase(a.outcome.phase) ==> c.outcome == OfClaim(ClaimSucceeded))
  }

  /** A whole attempt-plus-claims block starts at index p. */
  predicate BlockAt(ts: seq<Tombstone>, p: nat, maxClaims: int) {
    && p < |ts|
    && ts[p].kind.AttemptRecord?
    && ts[p].claimCount <= maxClaims
    && p + ts[p].claimCount < |ts|
    && forall i :: p < i <= p + ts[p].claimCount ==> ClaimOf(ts[p], ts[i], i - p - 1)
  }

  /** Whole blocks tile the history from index p to its end. */
  predicate Tiled(ts: seq<Tombstone>, p: nat, maxClaims: int)
    decreases |ts| - p
  {
    p == |ts| || (BlockAt(ts, p, maxClaims) && Tiled(ts, p + 1 + ts[p].claimCount, maxClaims))
  }

  /** Index of the first tombstone from p on that is not a claim. */
  function LeadingClaims(ts: seq<Tombstone>, p: nat := 0): (k: nat)
    requires p <= |ts|
    ensures p <= k <= |ts|
    ensures forall i :: p <= i < k ==> ts[i].kind.ClaimRecord?
    ensures k < |ts| ==> !ts[k].kind.ClaimRecord?
    decreases |ts| - p
  {
    if p < |ts| && ts[p].kind.ClaimRecord? then LeadingClaims(ts, p + 1) else p
  }

  /** The first k tombstones are a run of claims of one attempt that was truncated away. */
  predicate TruncatedSuffix(ts: seq<Tombstone>, k: nat, truncated: int, maxClaims: int)
    requires k <= |ts|
  {
    forall i :: 0 <= i < k ==>
      && ts[i].kind.ClaimRecord?
      && ts[i].attemptSequence == ts[0].attemptSequence <= truncated
      && ts[i].sequence == ts[i].attemptSequence + ts[i].ordinal + 1
      && ts[i].ordinal < maxClaims
  }

  predicate Tiles(ts: seq<Tombstone>, truncated: int, maxClaims: int) {
    && TruncatedSuffix(ts, LeadingClaims(ts), truncated, maxClaims)
    && Tiled(ts, LeadingClaims(ts), maxClaims)
  }

  predicate ValidHistory(ts: seq<Tombstone>, truncated: int, limits: LedgerLimits) {
    && Dense(ts, truncated)
    && Records(ts, limits)
    && Tiles(ts, truncated, limits.maxClaimEntriesPerAttempt)
  }

  predicate ValidRestart(restart: RestartState, limits: LedgerLimits) {
    && restart.schemaVersion == 1
    && |restart.tombstones| <= limits.auditTombstoneLimit
    && (restart.exhausted <==> restart.next == 0)
    && restart.truncated + |restart.tombstones| == EndSequence(restart)
    && ValidHistory(restart.tombstones, restart.truncated, limits)
    && (restart.tombstones != [] ==> AggregateFits(restart.tombstones))
  }

  // ---- consequences of tiling --------------------------------------------------

  /** Every index of a tiled history lies in one block. */
  lemma {:induction false} Owner(ts: seq<Tombstone>, start: nat, maxClaims: int, i: nat) returns (p: nat)
    requires start <= i < |ts| && Tiled(ts, start, maxClaims)
    ensures start <= p <= i && BlockAt(ts, p, maxClaims) && i <= p + ts[p].claimCount
    ensures Tiled(ts, p, maxClaims)
    decreases |ts| - start
  {
    if i <= start + ts[start].claimCount {
      p := start;
    } else {
      p := Owner(ts, start + 1 + ts[start].claimCount, maxClaims, i);
    }
  }

  /** Whole blocks never contain another attempt, so an attempt index starts its own block. */
  lemma OwnerOfAttempt(ts: seq<Tombstone>, start: nat, maxClaims: int, i: nat)
    requires start <= i < |ts| && Tiled(ts, start, maxClaims) && !ts[i].kind.ClaimRecord?
    ensures BlockAt(ts, i, maxClaims) && Tiled(ts, i, maxClaims)
  {
    var p := Owner(ts, start, maxClaims, i);
  }

  /** A claim above the watermark belongs to the retained block its sequence names. */
  lemma OwnerOfClaim(ts: seq<Tombstone>, truncated: int, maxClaims: int, i: nat) returns (p: nat)
    requires Dense(ts, truncated) && Tiles(ts, truncated, maxClaims)
    requires i < |ts| && ts[i].kind.ClaimRecord? && LeadingClaims(ts) <= i
    ensures LeadingClaims(ts) <= p < i <= p + ts[p].claimCount && BlockAt(ts, p, maxClaims)
    ensures ts[i].attemptSequence == ts[p].sequence == truncated + 1 + p
    ensures ts[i].ordinal == i - p - 1 < ts[p].claimCount
  {
    p := Owner(ts, LeadingClaims(ts), maxClaims, i);
    assert p != i;
    assert ClaimOf(ts[p], ts[i], i - p - 1);
  }

  // ---- the validator -----------------------------------------------------------

  predicate LeadingRecord(t: Tombstone, truncated: int) {
    t.kind.ClaimRecord? && t.attemptSequence <= truncated
  }

  /** Every leading record precedes every attempt and names one attempt. */
  predicate LeadingCoherent(ts: seq<Tombstone>, truncated: int) {
    forall i, j :: 0 <= i < j < |ts| && LeadingRecord(ts[j], truncated) ==>
      && !ts[i].kind.AttemptRecord?
      && (LeadingRecord(ts[i], truncated) ==> ts[i].attemptSequence == ts[j].attemptSequence)
  }

  /** What the block loop requires of index i. */
  predicate RecordCoherent(ts: seq<Tombstone>, truncated: int, maxClaims: int, i: nat)
    requires i < |ts|
  {
    if ts[i].kind.ClaimRecord? then
      && ts[i].ordinal < maxClaims
      && ts[i].sequence == ts[i].attemptSequence + ts[i].ordinal + 1
      && (ts[i].attemptSequence > truncated ==>
        && 0 <= ts[i].attemptSequence - truncated - 1 < |ts|
        && ts[ts[i].attemptSequence - truncated - 1].kind.AttemptRecord?)
    else
      BlockAt(ts, i, maxClaims)
  }

  predicate WithinReservation(ts: seq<Tombstone>, truncated: int, i: nat)
    requires i < |ts|
  {
    var p := ts[i].attemptSequence - truncated - 1;
    ts[i].kind.ClaimRecord? && 0 <= p < |ts| && ts[p].kind.AttemptRecord? ==> ts[i].ordinal < ts[p].claimCount
  }

  lemma TilesPointwise(ts: seq<Tombstone>, truncated: int, maxClaims: int)
    requires Dense(ts, truncated) && Tiles(ts, truncated, maxClaims)
    ensures LeadingCoherent(ts, truncated)
    ensures forall i :: 0 <= i < |ts| ==> RecordCoherent(ts, truncated, maxClaims, i)
    ensures forall i :: 0 <= i < |ts| ==> WithinReservation(ts, truncated, i)
    ensures forall i :: 0 <= i < |ts| && LeadingRecord(ts[i], truncated) ==> i < LeadingClaims(ts)
  {
    var k := LeadingClaims(ts);
    forall i | k <= i < |ts|
      ensures RecordCoherent(ts, truncated, maxClaims, i)
      ensures WithinReservation(ts, truncated, i)
      ensures !LeadingRecord(ts[i], truncated)
    {
      if ts[i].kind.ClaimRecord? {
        var p := OwnerOfClaim(ts, truncated, maxClaims, i);
      } else {
        OwnerOfAttempt(ts, k, maxClaims, i);
      }
    }
  }

  lemma {:induction false} TiledFromPointwise(ts: seq<Tombstone>, truncated: int, maxClaims: int, p: nat)
    requires Dense(ts, truncated) && truncated >= 0
    requires LeadingClaims(ts) <= p <= |ts|
    requires LeadingCoherent(ts, truncated)
    requires forall i :: 0 <= i < |ts| ==> RecordCoherent(ts, truncated, maxClaims, i)
    requires forall i :: 0 <= i < |ts| ==> WithinReservation(ts, truncated, i)
    requires LeadingClaims(ts) < |ts| ==> ts[LeadingClaims(ts)].kind.AttemptRecord?
    requires forall q :: 0 <= q < p && ts[q].kind.AttemptRecord? ==> q + ts[q].claimCount < p
    ensures Tiled(ts, p, maxClaims)
    decreases |ts| - p
  {
    if p < |ts| {
      assert RecordCoherent(ts, truncated, maxClaims, p);
      assert WithinReservation(ts, truncated, p);
      assert ts[p].kind.AttemptRecord?;
      var next := p + 1 + ts[p].claimCount;
      assert forall q :: p < q < next ==> ClaimOf(ts[p], ts[q], q - p - 1);
      TiledFromPointwise(ts, truncated, maxClaims, next);
    }
  }

  lemma LeadingIsTruncated(ts: seq<Tombstone>, truncated: int, maxClaims: int, i: nat)
    requires Dense(ts, truncated) && truncated >= 0
    requires forall i :: 0 <= i < |ts| ==> RecordCoherent(ts, truncated, maxClaims, i)
    requires i < LeadingClaims(ts)
    ensures LeadingRecord(ts[i], truncated)
  {
    assert RecordCoherent(ts, truncated, maxClaims, i);
  }

  lemma TilesFromPointwise(ts: seq<Tombstone>, truncated: int, maxClaims: int)
    requires Dense(ts, truncated) && truncated >= 0
    requires forall i :: 0 <= i < |ts| ==> WellFormed(ts[i])
    requires LeadingCoherent(ts, truncated)
    requires forall i :: 0 <= i < |ts| ==> RecordCoherent(ts, truncated, maxClaims, i)
    requires forall i :: 0 <= i < |ts| ==> WithinReservation(ts, truncated, i)
    ensures Tiles(ts, truncated, maxClaims)
  {
    var k := LeadingClaims(ts);
    forall i | 0 <= i < k
      ensures LeadingRecord(ts[i], truncated) && RecordCoherent(ts, truncated, maxClaims, i)
      ensures ts[i].attemptSequence == ts[0].attemptSequence
    {
      LeadingIsTruncated(ts, truncated, maxClaims, i);
      LeadingIsTruncated(ts, truncated, maxClaims, 0);
    }
    TiledFromPointwise(ts, truncated, maxClaims, k);
  }

  // Each scan below is one loop of the source's validator.

  /** Sequences are consecutive and every record encodes within its bound. */
  method ScanRecords(restart: RestartState, limits: LedgerLimits)
    returns (ok: bool, bySequence: map<int, Tombstone>, previous: int)
    requires |restart.tombstones| > 0
    ensures ok <==> Dense(restart.tombstones, restart.truncated) && Records(restart.tombstones, limits)
    ensures ok ==> previous == restart.truncated + |restart.tombstones|
    ensures ok ==> forall s :: s in bySequence <==> 0 <= s - restart.truncated - 1 < |restart.tombstones|
    ensures ok ==> forall s :: s in bySequence ==> bySequence[s] == restart.tombstones[s - restart.truncated - 1]
  {
    hide EncodedBytes, WellFormed;
    var ts, truncated := restart.tombstones, restart.truncated;
    bySequence, previous := map[], 0;
    for index := 0 to |ts|
      invariant index > 0 ==> previous == truncated + index
      invariant forall i :: 0 <= i < index ==> ts[i].sequence == truncated + 1 + i
      invariant forall i :: 0 <= i < index ==> WellFormed(ts[i]) && EncodedBytes(ts[i]) <= limits.auditTombstoneMaxEncodedBytes
      invariant forall s :: s in bySequence <==> 0 <= s - truncated - 1 < index
      invariant forall s :: s in bySequence ==> bySequence[s] == ts[s - truncated - 1]
    {
      var t := ts[index];
      if !WellFormed(t) || EncodedBytes(t) > limits.auditTombstoneMaxEncodedBytes ||
         (index == 0 && t.sequence != truncated + 1) ||
         (index > 0 && (previous == MAX_UINT64 || t.sequence != previous + 1))
      {
        ok := false;
        return;
      }
      bySequence := bySequence[t.sequence := t];
      previous := t.sequence;
    }
    ok := true;
  }

  /** Claims of truncated attempts form one run at the front. */
  method ScanLeading(ts: seq<Tombstone>, truncated: uint64, ghost maxClaims: int) returns (ok: bool)
    requires Dense(ts, truncated) && forall i :: 0 <= i < |ts| ==> WellFormed(ts[i])
    ensures ok ==> LeadingCoherent(ts, truncated)
    ensures Tiles(ts, truncated, maxClaims) ==> ok
  {
    ghost var good := Tiles(ts, truncated, maxClaims);
    ghost var k := LeadingClaims(ts);
    if good {
      TilesPointwise(ts, truncated, maxClaims);
    }
    var leadingAttempt, leadingOrdinal, attemptSeen := 0, 0, false;
    for index := 0 to |ts|
      invariant attemptSeen <==> exists i :: 0 <= i < index && ts[i].kind.AttemptRecord?
      invariant forall i :: 0 <= i < index && LeadingRecord(ts[i], truncated) ==> ts[i].attemptSequence == leadingAttempt
      invariant forall i, j :: 0 <= i < j < index && LeadingRecord(ts[j], truncated) ==> !ts[i].kind.AttemptRecord?
      invariant good && 0 < index <= k ==> leadingAttempt == ts[0].attemptSequence && leadingOrdinal == ts[index - 1].ordinal
      invariant index == 0 ==> leadingAttempt == 0
    {
      var t := ts[index];
      if t.kind.AttemptRecord? {
        attemptSeen := true;
      } else if t.kind.ClaimRecord? && t.attemptSequence <= truncated {
        if attemptSeen {
          return false;
        }
        if leadingAttempt == 0 {
          leadingAttempt, leadingOrdinal := t.attemptSequence, t.ordinal;
        } else {
          if t.attemptSequence != leadingAttempt || leadingOrdinal == MAX_UINT64 || t.ordinal != leadingOrdinal + 1 {
            return false;
          }
          leadingOrdinal := t.ordinal;
        }
      }
    }
    return true;
  }

  /** index holds the latest claim of attempt a before bound, which carries ordinal. */
  ghost predicate LatestClaim(ts: seq<Tombstone>, bound: nat, a: int, ordinal: int, index: nat) {
    && index < bound <= |ts|
    && ts[index].kind.ClaimRecord? && ts[index].attemptSequence == a && ts[index].ordinal == ordinal
    && forall i :: index < i < bound ==> !(ts[i].kind.ClaimRecord? && ts[i].attemptSequence == a)
  }

  /** In a tiled history the claims of one attempt are consecutive from ordinal
      zero, or from wherever truncation cut them. */
  lemma ClaimsAreContiguous(ts: seq<Tombstone>, truncated: int, maxClaims: int, i: nat)
    requires Dense(ts, truncated) && Tiles(ts, truncated, maxClaims)
    requires i < |ts| && ts[i].kind.ClaimRecord?
    requires ts[i].ordinal != 0 && (i > 0 || ts[i].attemptSequence > truncated)
    ensures i > 0 && ts[i - 1].kind.ClaimRecord? && ts[i - 1].attemptSequence == ts[i].attemptSequence
    ensures ts[i - 1].ordinal + 1 == ts[i].ordinal
  {
    if LeadingClaims(ts) <= i {
      var p := OwnerOfClaim(ts, truncated, maxClaims, i);
      assert ClaimOf(ts[p], ts[i - 1], i - 1 - p - 1);
    }
  }

  lemma FirstOrdinal(ts: seq<Tombstone>, truncated: int, maxClaims: int, i: nat)
    requires Dense(ts, truncated) && Tiles(ts, truncated, maxClaims)
    requires i < |ts| && ts[i].kind.ClaimRecord? && ts[i].ordinal == 0
    requires ts[i].sequence == ts[i].attemptSequence + 1
    ensures forall j :: 0 <= j < i && ts[j].kind.ClaimRecord? ==> ts[j].attemptSequence != ts[i].attemptSequence
  {
    TilesPointwise(ts, truncated, maxClaims);
    forall j | 0 <= j < i && ts[j].kind.ClaimRecord?
      ensures ts[j].attemptSequence != ts[i].attemptSequence
    {
      assert RecordCoherent(ts, truncated, maxClaims, j);
    }
  }

  ghost predicate HasLatest(ts: seq<Tombstone>, bound: nat, a: int, ordinal: int) {
    exists index: nat :: LatestClaim(ts, bound, a, ordinal, index)
  }

  /** The validator's map from attempts to the ordinal of their latest claim. */
  ghost predicate LastOrdinals(ts: seq<Tombstone>, bound: nat, last: map<int, int>)
    requires bound <= |ts|
  {
    && (forall i :: 0 <= i < bound && ts[i].kind.ClaimRecord? ==> ts[i].attemptSequence in last)
    && (forall a :: a in last ==> HasLatest(ts, bound, a, last[a]))
  }

  lemma LastOrdinalsStep(ts: seq<Tombstone>, index: nat, last: map<int, int>)
    requires index < |ts| && LastOrdinals(ts, index, last)
    ensures LastOrdinals(ts, index + 1,
      if ts[index].kind.ClaimRecord? then last[ts[index].attemptSequence := ts[index].ordinal] else last)
  {
    var t := ts[index];
    if t.kind.ClaimRecord? {
      assert LatestClaim(ts, index + 1, t.attemptSequence, t.ordinal, index);
    }
    forall a | a in last && !(t.kind.ClaimRecord? && a == t.attemptSequence)
      ensures HasLatest(ts, index + 1, a, last[a])
    {
      var i: nat :| LatestClaim(ts, index, a, last[a], i);
      assert LatestClaim(ts, index + 1, a, last[a], i);
    }
  }

  /** In a tiled history the latest ordinal of a claim's attempt is one less than
      the claim's own, and an attempt seen for the first time starts at zero. */
  lemma LastOrdinalsInTiledHistory(ts: seq<Tombstone>, truncated: int, maxClaims: int, index: nat, last: map<int, int>)
    requires Dense(ts, truncated) && Tiles(ts, truncated, maxClaims)
    requires index < |ts| && LastOrdinals(ts, index, last) && ts[index].kind.ClaimRecord?
    ensures ts[index].attemptSequence in last ==> ts[index].ordinal == last[ts[index].attemptSequence] + 1
    ensures ts[index].attemptSequence !in last && ts[index].attemptSequence > truncated ==> ts[index].ordinal == 0
  {
    var t := ts[index];
    TilesPointwise(ts, truncated, maxClaims);
    assert RecordCoherent(ts, truncated, maxClaims, index);
    if t.ordinal == 0 {
      FirstOrdinal(ts, truncated, maxClaims, index);
    } else if index > 0 || t.attemptSequence > truncated {
      ClaimsAreContiguous(ts, truncated, maxClaims, index);
    }
  }

  /** The attempt at index is followed by exactly its claims. */
  method ScanAttempt(ts: seq<Tombstone>, ghost truncated: int, index: nat, end: int, maxClaims: int) returns (ok: bool)
    requires index < |ts| && ts[index].kind.AttemptRecord? && maxClaims <= MAX_PROFILE_DEPENDENCIES
    requires Dense(ts, truncated) && truncated + |ts| == end <= MAX_UINT64
    ensures ok <==> BlockAt(ts, index, maxClaims)
    ensures Tiles(ts, truncated, maxClaims) ==> ok
  {
    var t := ts[index];
    if Tiles(ts, truncated, maxClaims) {
      TilesPointwise(ts, truncated, maxClaims);
      assert RecordCoherent(ts, truncated, maxClaims, index);
    }
    if t.claimCount > maxClaims || t.claimCount > MAX_UINT64 - t.sequence {
      return false;
    }
    if t.sequence + t.claimCount > end || index + t.claimCount >= |ts| {
      return false;
    }
    for ordinal := 0 to t.claimCount
      invariant forall i :: index < i <= index + ordinal ==> ClaimOf(t, ts[i], i - index - 1)
    {
      var claim := ts[index + ordinal + 1];
      if !claim.kind.ClaimRecord? || claim.attemptSequence != t.sequence || claim.ordinal != ordinal ||
         claim.sequence != t.sequence + ordinal + 1
      {
        return false;
      }
      if (t.outcome == OfAttempt(Published) || t.outcome == OfAttempt(PublishFailed)) &&
         claim.outcome != OfClaim(ClaimSucceeded)
      {
        return false;
      }
    }
    return true;
  }

  /** The claim at index names a retained attempt and continues its ordinals. */
  method ScanClaim(ts: seq<Tombstone>, truncated: uint64, maxClaims: int, index: nat,
                   bySequence: map<int, Tombstone>, lastOrdinal: map<int, int>)
    returns (ok: bool)
    requires Dense(ts, truncated) && index < |ts| && ts[index].kind.ClaimRecord? && maxClaims <= MAX_PROFILE_DEPENDENCIES
    requires forall s :: s in bySequence <==> 0 <= s - truncated - 1 < |ts|
    requires forall s :: s in bySequence ==> bySequence[s] == ts[s - truncated - 1]
    requires LastOrdinals(ts, index, lastOrdinal)
    ensures ok ==> RecordCoherent(ts, truncated, maxClaims, index)
    ensures Tiles(ts, truncated, maxClaims) ==> ok
  {
    var t := ts[index];
    if Tiles(ts, truncated, maxClaims) {
      TilesPointwise(ts, truncated, maxClaims);
      assert RecordCoherent(ts, truncated, maxClaims, index);
      LastOrdinalsInTiledHistory(ts, truncated, maxClaims, index, lastOrdinal);
    }
    if t.ordinal >= maxClaims || t.ordinal == MAX_UINT64 {
      return false;
    }
    var offset := t.ordinal + 1;
    if t.attemptSequence > MAX_UINT64 - offset || t.sequence != t.attemptSequence + offset {
      return false;
    }
    if t.attemptSequence > truncated &&
       (t.attemptSequence !in bySequence || !bySequence[t.attemptSequence].kind.AttemptRecord?)
    {
      return false;
    }
    if t.attemptSequence in lastOrdinal {
      var prior := lastOrdinal[t.attemptSequence];
      if prior == MAX_UINT64 || t.ordinal != prior + 1 {
        return false;
      }
    } else if t.attemptSequence > truncated && t.ordinal != 0 {
      return false;
    }
    return true;
  }

  /** Claims point at their retained attempt, attempts are followed by exactly their claims. */
  method ScanBlocks(restart: RestartState, limits: LedgerLimits, bySequence: map<int, Tombstone>) returns (ok: bool)
    requires limits.maxClaimEntriesPerAttempt <= MAX_PROFILE_DEPENDENCIES
    requires Dense(restart.tombstones, restart.truncated)
    requires forall i :: 0 <= i < |restart.tombstones| ==> WellFormed(restart.tombstones[i])
    requires restart.truncated + |restart.tombstones| == EndSequence(restart)
    requires forall s :: s in bySequence <==> 0 <= s - restart.truncated - 1 < |restart.tombstones|
    requires forall s :: s in bySequence ==> bySequence[s] == restart.tombstones[s - restart.truncated - 1]
    ensures ok ==> forall i :: 0 <= i < |restart.tombstones| ==>
      RecordCoherent(restart.tombstones, restart.truncated, limits.maxClaimEntriesPerAttempt, i)
    ensures Tiles(restart.tombstones, restart.truncated, limits.maxClaimEntriesPerAttempt) ==> ok
  {
    hide Tiles, LatestClaim;
    var ts, truncated, maxClaims := restart.tombstones, restart.truncated, limits.maxClaimEntriesPerAttempt;
    var lastOrdinal: map<int, int> := map[];
    for index := 0 to |ts|
      invariant forall i :: 0 <= i < index ==> RecordCoherent(ts, truncated, maxClaims, i)
      invariant LastOrdinals(ts, index, lastOrdinal)
    {
      LastOrdinalsStep(ts, index, lastOrdinal);
      if ts[index].kind.ClaimRecord? {
        ok := ScanClaim(ts, truncated, maxClaims, index, bySequence, lastOrdinal);
        if !ok {
          return;
        }
        lastOrdinal := lastOrdinal[ts[index].attemptSequence := ts[index].ordinal];
      } else {
        ok := ScanAttempt(ts, truncated, index, EndSequence(restart), maxClaims);
        if !ok {
          return;
        }
      }
    }
    return true;
  }

  /** No claim exceeds the reservation of the attempt it names. */
  method ScanReservations(ts: seq<Tombstone>, truncated: uint64, bySequence: map<int, Tombstone>) returns (ok: bool)
    requires Dense(ts, truncated)
    requires forall s :: s in bySequence <==> 0 <= s - truncated - 1 < |ts|
    requires forall s :: s in bySequence ==> bySequence[s] == ts[s - truncated - 1]
    ensures ok <==> forall i :: 0 <= i < |ts| ==> WithinReservation(ts, truncated, i)
  {
    for index := 0 to |ts|
      invariant forall i :: 0 <= i < index ==> WithinReservation(ts, truncated, i)
    {
      var t := ts[index];
      if t.kind.ClaimRecord? && t.attemptSequence in bySequence &&
         bySequence[t.attemptSequence].kind.AttemptRecord? && t.ordinal >= bySequence[t.attemptSequence].claimCount
      {
        assert !WithinReservation(ts, truncated, index);
        return false;
      }
    }
    return true;
  }

  /** The restart validator accepts exactly the histories that are a claim suffix
      of one truncated attempt followed by whole blocks up to the watermark. */
  method ValidateLedgerRestartState(restart: RestartState, limits: LedgerLimits) returns (ok: bool)
    requires limits.maxClaimEntriesPerAttempt <= MAX_PROFILE_DEPENDENCIES
    ensures ok <==> ValidRestart(restart, limits)
  {
    var ts, truncated := restart.tombstones, restart.truncated;
    if restart.schemaVersion != 1 || |ts| > limits.auditTombstoneLimit ||
       (restart.exhausted && restart.next != 0) || (!restart.exhausted && restart.next == 0)
    {
      return false;
    }
    var end := if restart.exhausted then MAX_UINT64 else restart.next - 1;
    if truncated > end {
      return false;
    }
    if |ts| == 0 {
      return truncated == end;
    }
    if truncated == MAX_UINT64 {
      return false;
    }
    var dense, bySequence, previous := ScanRecords(restart, limits);
    if !dense || previous != end {
      return false;
    }
    var leading := ScanLeading(ts, truncated, limits.maxClaimEntriesPerAttempt);
    if !leading {
      return false;
    }
    var blocks := ScanBlocks(restart, limits, bySequence);
    if !blocks {
      return false;
    }
    var reserved := ScanReservations(ts, truncated, bySequence);
    if !reserved {
      if Tiles(ts, truncated, limits.maxClaimEntriesPerAttempt) {
        TilesPointwise(ts, truncated, limits.maxClaimEntriesPerAttempt);
      }
      return false;
    }
    TilesFromPointwise(ts, truncated, limits.maxClaimEntriesPerAttempt);
    return AggregateFits(ts);
  }

  // ---- closure of valid histories ----------------------------------------------

  lemma SuffixPointwise(ts: seq<Tombstone>, truncated: int, maxClaims: int, d: nat, i: nat)
    requires Dense(ts, truncated) && Tiles(ts, truncated, maxClaims) && d + i < |ts|
    ensures RecordCoherent(ts[d..], truncated + d, maxClaims, i)
    ensures WithinReservation(ts[d..], truncated + d, i)
  {
    TilesPointwise(ts, truncated, maxClaims);
    assert RecordCoherent(ts, truncated, maxClaims, d + i);
    assert WithinReservation(ts, truncated, d + i);
    if !ts[d + i].kind.ClaimRecord? {
      forall j | i < j <= i + ts[d + i].claimCount
        ensures ClaimOf(ts[d..][i], ts[d..][j], j - i - 1)
      {
        assert ClaimOf(ts[d + i], ts[d + j], d + j - (d + i) - 1);
      }
    }
  }

  lemma SuffixLeading(ts: seq<Tombstone>, truncated: int, maxClaims: int, d: nat)
    requires Dense(ts, truncated) && Tiles(ts, truncated, maxClaims) && d <= |ts| && truncated >= 0
    ensures LeadingCoherent(ts[d..], truncated + d)
  {
    TilesPointwise(ts, truncated, maxClaims);
    forall i, j | d <= i < j < |ts| && LeadingRecord(ts[j], truncated + d)
      ensures ts[i].kind.ClaimRecord? && ts[i].attemptSequence == ts[j].attemptSequence
    {
      if LeadingClaims(ts) <= j {
        var p := OwnerOfClaim(ts, truncated, maxClaims, j);
        assert ClaimOf(ts[p], ts[i], i - p - 1);
      }
    }
  }

  /** Valid histories are closed under forgetting a prefix and raising the
      truncation watermark past it. */
  lemma DropPrefix(ts: seq<Tombstone>, truncated: int, limits: LedgerLimits, d: nat)
    requires ValidHistory(ts, truncated, limits) && d <= |ts| && truncated >= 0
    ensures ValidHistory(ts[d..], truncated + d, limits)
  {
    var maxClaims, rest, watermark := limits.maxClaimEntriesPerAttempt, ts[d..], truncated + d;
    forall i | 0 <= i < |rest|
      ensures RecordCoherent(rest, watermark, maxClaims, i) && WithinReservation(rest, watermark, i)
    {
      SuffixPointwise(ts, truncated, maxClaims, d, i);
    }
    SuffixLeading(ts, truncated, maxClaims, d);
    TilesFromPointwise(rest, watermark, maxClaims);
  }

  lemma {:induction false} TiledAppend(ts: seq<Tombstone>, block: seq<Tombstone>, maxClaims: int, p: nat)
    requires p <= |ts| && Tiled(ts, p, maxClaims)
    requires BlockAt(block, 0, maxClaims) && |block| == 1 + block[0].claimCount
    ensures Tiled(ts + block, p, maxClaims)
    decreases |ts| - p
  {
    var all := ts + block;
    if p == |ts| {
      forall i | p < i <= p + block[0].claimCount
        ensures ClaimOf(all[p], all[i], i - p - 1)
      {
        assert ClaimOf(block[0], block[i - p], i - p - 0 - 1);
      }
      assert BlockAt(all, p, maxClaims);
    } else {
      TiledAppend(ts, block, maxClaims, p + 1 + ts[p].claimCount);
      forall i | p < i <= p + ts[p].claimCount
        ensures ClaimOf(all[p], all[i], i - p - 1)
      {
        assert ClaimOf(ts[p], ts[i], i - p - 1);
      }
      assert BlockAt(all, p, maxClaims);
    }
  }

  lemma {:induction false} LeadingClaimsAppend(ts: seq<Tombstone>, block: seq<Tombstone>, p: nat)
    requires p <= |ts| && |block| > 0 && !block[0].kind.ClaimRecord?
    ensures LeadingClaims(ts + block, p) == LeadingClaims(ts, p)
    decreases |ts| - p
  {
    if p < |ts| && ts[p].kind.ClaimRecord? {
      LeadingClaimsAppend(ts, block, p + 1);
    }
  }

  /** A history is extended by the whole block that starts at its watermark. */
  lemma AppendBlock(ts: seq<Tombstone>, truncated: int, limits: LedgerLimits, block: seq<Tombstone>)
    requires ValidHistory(ts, truncated, limits)
    requires Records(block, limits) && Dense(block, truncated + |ts|)
    requires BlockAt(block, 0, limits.maxClaimEntriesPerAttempt) && |block| == 1 + block[0].claimCount
    ensures ValidHistory(ts + block, truncated, limits)
  {
    var k := LeadingClaims(ts);
    LeadingClaimsAppend(ts, block, 0);
    TiledAppend(ts, block, limits.maxClaimEntriesPerAttempt, k);
  }

  lemma EmptyHistory(limits: LedgerLimits)
    ensures ValidHistory([], 0, limits)
  {
  }

  lemma {:induction false} HistoryCostConcat(a: seq<Tombstone>, b: seq<Tombstone>)
    ensures HistoryCost(a + b) == HistoryCost(a) + HistoryCost(b)
    decreases |b|
  {
    if |b| == 0 {
      assert a + b == a;
    } else {
      assert (a + b)[..|a + b| - 1] == a + b[..|b| - 1];
      HistoryCostConcat(a, b[..|b| - 1]);
    }
  }

  lemma {:induction false} HistoryCostBound(ts: seq<Tombstone>)
    ensures HistoryCost(ts) >= 614 * |ts|
  {
    if |ts| > 0 {
      HistoryCostBound(ts[..|ts| - 1]);
    }
  }

  // ---- the watermark order -------------------------------------------------------

  /** CoversTerminalWatermark: restart prevents reuse of every sequence prior
      covers and contradicts none of the history it still retains. */
  predicate Covers(restart: RestartState, prior: RestartState) {
    && ValidRestart(restart, MaximumRestartLimits)
    && ValidRestart(prior, MaximumRestartLimits)
    && EndSequence(prior) <= EndSequence(restart)
    && forall t :: t in prior.tombstones && t.sequence > restart.truncated ==> t in restart.tombstones
  }

  method CoversTerminalWatermark(restart: RestartState, prior: RestartState) returns (covered: bool)
    ensures covered <==> Covers(restart, prior)
  {
    var valid := ValidateLedgerRestartState(restart, MaximumRestartLimits);
    if !valid {
      return false;
    }
    valid := ValidateLedgerRestartState(prior, MaximumRestartLimits);
    if !valid {
      return false;
    }
    if prior.exhausted && !restart.exhausted {
      return false;
    }
    if !restart.exhausted && !prior.exhausted && restart.next < prior.next {
      return false;
    }
    covered := RetainedHistoryAgrees(restart.tombstones, restart.truncated, prior.tombstones);
  }

  method RetainedHistoryAgrees(ts: seq<Tombstone>, truncated: uint64, prior: seq<Tombstone>) returns (agrees: bool)
    requires Dense(ts, truncated)
    ensures agrees <==> forall t :: t in prior && t.sequence > truncated ==> t in ts
  {
    var current: map<int, Tombstone> := map[];
    for i := 0 to |ts|
      invariant forall s :: s in current <==> 0 <= s - truncated - 1 < i
      invariant forall s :: s in current ==> current[s] == ts[s - truncated - 1]
    {
      current := current[ts[i].sequence := ts[i]];
    }
    for i := 0 to |prior|
      invariant forall j :: 0 <= j < i && prior[j].sequence > truncated ==> prior[j] in ts
    {
      var t := prior[i];
      if t.sequence > truncated && (t.sequence !in current || current[t.sequence] != t) {
        assert t in prior && t !in ts;
        return false;
      }
    }
    return true;
  }

  /** A ledger's own limits never admit more than the comparison's. */
  lemma ValidUnderMaximum(restart: RestartState, limits: LedgerLimits)
    requires ValidRestart(restart, limits)
    requires limits.maxClaimEntriesPerAttempt <= MAX_PROFILE_DEPENDENCIES
    requires limits.auditTombstoneMaxEncodedBytes <= MAX_SERIALIZED_CONTRACT_BYTES
    ensures ValidRestart(restart, MaximumRestartLimits)
  {
    HistoryCostBound(restart.tombstones);
    var ts := restart.tombstones;
    var k := LeadingClaims(ts);
    TiledUnderLargerBound(ts, k, limits.maxClaimEntriesPerAttempt, MAX_PROFILE_DEPENDENCIES);
  }

  lemma {:induction false} TiledUnderLargerBound(ts: seq<Tombstone>, p: nat, small: int, large: int)
    requires p <= |ts| && Tiled(ts, p, small) && small <= large
    ensures Tiled(ts, p, large)
    decreases |ts| - p
  {
    if p < |ts| {
      assert BlockAt(ts, p, large);
      TiledUnderLargerBound(ts, p + 1 + ts[p].claimCount, small, large);
    }
  }

  lemma CoversReflexive(restart: RestartState)
    requires ValidRestart(restart, MaximumRestartLimits)
    ensures Covers(restart, restart)
  {
  }

  /** The watermark order composes when truncation does not go back. */
  lemma CoversComposes(last: RestartState, middle: RestartState, first: RestartState)
    requires Covers(last, middle) && Covers(middle, first) && middle.truncated <= last.truncated
    ensures Covers(last, first)
  {
  }

  /** Without that condition it does not: the middle state may have truncated
      history that the outer two disagree about. */
  lemma CoversNeedsMonotoneTruncation(last: RestartState, middle: RestartState) returns (first: RestartState)
    requires Covers(last, middle) && last.truncated < middle.truncated && middle.truncated >= 2
    ensures Covers(middle, first) && !Covers(last, first)
  {
    var at := middle.truncated;
    var kept := last.tombstones[at - last.truncated - 1];
    var outcome := if kept.outcome == OfClaim(ClaimSucceeded) then ClaimAttemptCancelled else ClaimSucceeded;
    first := SingleClaimState(at, outcome);
  }

  /** A restart state that retains one claim tombstone just below its watermark. */
  lemma SingleClaimState(at: uint64, outcome: ClaimOutcome) returns (restart: RestartState)
    requires at >= 2
    ensures ValidRestart(restart, MaximumRestartLimits)
    ensures EndSequence(restart) == at && restart.truncated == at - 1
    ensures |restart.tombstones| == 1 && restart.tombstones[0].outcome == OfClaim(outcome)
  {
    var claim := Tombstone(1, ClaimRecord, at, 0, at - 1, 0, OfClaim(outcome));
    restart := RestartState(1, if at == MAX_UINT64 then 0 else at + 1, at == MAX_UINT64, at - 1, [claim]);
    SingleClaimFits(claim);
    assert LeadingClaims([claim], 1) == 1;
  }

  lemma SingleClaimFits(claim: Tombstone)
    requires claim.kind.ClaimRecord? && claim.outcome.OfClaim?
    ensures EncodedBytes(claim) <= MAX_SERIALIZED_CONTRACT_BYTES
    ensures AggregateFits([claim])
  {
    assert HistoryCost([claim][..0]) == 0;
  }
}
