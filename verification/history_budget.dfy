/** When a terminal merge can exceed the aggregate budget: the largest charge a
    retained history can have, as a function of the two limits it depends on. */
module HistoryBudget {
  import opened Foundation
  import opened LedgerTypes
  import opened RestartHistory
  import opened TerminalMerge

  // ---- the largest charge ----------------------------------------------------------------

  /** A rejected claim is charged 782; every attempt record is at least 48 cheaper,
      its claims included, and there is one for every maxClaims claims. */
  function LargestCharge(n: nat, maxClaims: nat): int {
    782 * n - 48 * (n / (maxClaims + 1))
  }

  /** No retained history exceeds the budget of the aggregate preflight. */
  predicate HistoriesFit(limits: LedgerLimits)
    requires ValidLimits(limits)
  {
    434 + LargestCharge(limits.auditTombstoneLimit, limits.maxClaimEntriesPerAttempt) <= MAX_SERIALIZED_CONTRACT_BYTES
  }

  lemma {:induction false} CostAtMost(ts: seq<Tombstone>, most: nat)
    requires forall i :: 0 <= i < |ts| ==> TombstoneCost(ts[i]) <= most
    ensures HistoryCost(ts) <= most * |ts|
  {
    hide TombstoneCost;
    if |ts| > 0 {
      CostAtMost(ts[..|ts| - 1], most);
    }
  }

  /** An attempt record and its claims. */
  lemma BlockCharge(block: seq<Tombstone>, maxClaims: int)
    requires BlockAt(block, 0, maxClaims) && |block| == 1 + block[0].claimCount
    requires forall i :: 0 <= i < |block| ==> WellFormed(block[i])
    ensures HistoryCost(block) <= 782 * |block| - 48
  {
    var claims := block[1..];
    assert block == block[..1] + claims;
    assert block[..1][..0] == [];
    HistoryCostConcat(block[..1], claims);
    if PublicationPhase(block[0].outcome.phase) {
      CostAtMost(claims, 734);
    } else {
      CostAtMost(claims, 782);
    }
  }

  /** A tiled history from index p on has enough blocks, each with its saving. */
  lemma {:induction false} TiledCharge(ts: seq<Tombstone>, p: nat, maxClaims: nat) returns (blocks: nat)
    requires p <= |ts| && Tiled(ts, p, maxClaims)
    requires forall i :: 0 <= i < |ts| ==> WellFormed(ts[i])
    ensures HistoryCost(ts[p..]) <= 782 * (|ts| - p) - 48 * blocks
    ensures |ts| - p <= blocks * (maxClaims + 1)
    decreases |ts| - p
  {
    hide WellFormed;
    if p == |ts| {
      blocks := 0;
    } else {
      var q := p + 1 + ts[p].claimCount;
      var block := ts[p..q];
      blocks := TiledCharge(ts, q, maxClaims);
      BlockCharge(block, maxClaims);
      assert ts[p..] == block + ts[q..];
      HistoryCostConcat(block, ts[q..]);
      assert (blocks + 1) * (maxClaims + 1) == blocks * (maxClaims + 1) + (maxClaims + 1);
      blocks := blocks + 1;
    }
  }

  /** The claims left of a truncated attempt are no more than one attempt can have. */
  lemma LeadingClaimsAtMost(ts: seq<Tombstone>, truncated: int, maxClaims: int)
    requires Dense(ts, truncated) && TruncatedSuffix(ts, LeadingClaims(ts), truncated, maxClaims) && maxClaims >= 0
    ensures LeadingClaims(ts) <= maxClaims
  {
    var k := LeadingClaims(ts);
    if k > 0 {
      assert ts[k - 1].sequence == ts[0].sequence + k - 1;
    }
  }

  lemma ValidHistoryCharge(ts: seq<Tombstone>, truncated: int, limits: LedgerLimits)
    requires ValidHistory(ts, truncated, limits) && limits.maxClaimEntriesPerAttempt >= 0
    ensures HistoryCost(ts) <= LargestCharge(|ts|, limits.maxClaimEntriesPerAttempt)
  {
    hide TombstoneCost, TruncatedSuffix, Tiled, BlockAt, LargestCharge, Dense, EncodedBytes, WellFormed;
    var k, maxClaims := LeadingClaims(ts), limits.maxClaimEntriesPerAttempt;
    LeadingClaimsAtMost(ts, truncated, maxClaims);
    var blocks := TiledCharge(ts, k, maxClaims);
    assert ts == ts[..k] + ts[k..];
    HistoryCostConcat(ts[..k], ts[k..]);
    WellFormedCost(ts[..k]);
    assert |ts| < (blocks + 1) * (maxClaims + 1);
    LargestChargeBetween(|ts|, maxClaims, blocks);
  }

  lemma LargestChargeBetween(n: nat, maxClaims: nat, blocks: nat)
    requires n < (blocks + 1) * (maxClaims + 1)
    ensures 782 * n - 48 * blocks <= LargestCharge(n, maxClaims) <= 782 * n
  {
    QuotientAtMost(n, maxClaims + 1, blocks);
  }

  lemma QuotientAtMost(n: nat, d: nat, q: nat)
    requires d > 0 && n < (q + 1) * d
    ensures n / d <= q
  {
    assert (q + 1 - n / d) * d == (q + 1) * d - n / d * d;
    PositiveFactor(q + 1 - n / d, d);
  }

  lemma LargestChargeAtMost(n: nat, maxClaims: nat, blocks: nat)
    requires blocks * (maxClaims + 1) <= n
    ensures LargestCharge(n, maxClaims) <= 782 * n - 48 * blocks
  {
    var d := maxClaims + 1;
    assert n < n / d * d + d;
    assert (n / d + 1 - blocks) * d == n / d * d + d - blocks * d;
    PositiveFactor(n / d + 1 - blocks, d);
  }

  lemma PositiveFactor(a: int, d: nat)
    requires a * d > 0
    ensures a > 0
  {
  }

  lemma LargestChargeMonotone(n: nat, m: nat, maxClaims: nat)
    requires n <= m
    ensures LargestCharge(n, maxClaims) <= LargestCharge(m, maxClaims)
  {
    QuotientGrowth(n, m - n, maxClaims + 1);
  }

  lemma QuotientGrowth(n: nat, k: nat, d: nat)
    requires d > 0
    ensures (n + k) / d <= n / d + k
  {
    var q := n / d;
    assert n < q * d + d;
    assert k * d >= k;
    assert (q + k + 1) * d == q * d + k * d + d;
    QuotientAtMost(n + k, d, q + k);
  }

  /** With at most 5363 tombstones - the default is 4096 - every history fits; with
      room for 315 claims per attempt that is the exact bound. */
  lemma LargestSafeLimit(limits: LedgerLimits)
    requires ValidLimits(limits)
    ensures limits.auditTombstoneLimit <= 5363 ==> HistoriesFit(limits)
    ensures limits.maxClaimEntriesPerAttempt >= 315 ==> (HistoriesFit(limits) <==> limits.auditTombstoneLimit <= 5363)
  {
    hide LargestCharge;
    var n, maxClaims := limits.auditTombstoneLimit, limits.maxClaimEntriesPerAttempt;
    LargestChargeBetween(n, maxClaims, n);
    if n >= 5364 && maxClaims >= 315 {
      LargestChargeMonotone(5364, n, maxClaims);
      LargestChargeBetween(5364, maxClaims, 16);
    }
  }

  // ---- a merge below the bound -------------------------------------------------------------

  /** What a terminal merge is asked for: a live block beside a durable history. */
  predicate MergeSetting(durable: RestartState, next: uint64, exhausted: bool, limits: LedgerLimits, records: seq<Tombstone>) {
    && Durable(durable, limits) && (exhausted <==> next == 0)
    && EndSequence(durable) <= WatermarkEnd(next, exhausted)
    && LiveBlock(durable, WatermarkEnd(next, exhausted), limits, records)
  }

  /** Where no retained history exceeds the budget the merge never fails. */
  lemma TargetNeverFailsWithinBudget(durable: RestartState, next: uint64, exhausted: bool, limits: LedgerLimits, records: seq<Tombstone>)
    requires MergeSetting(durable, next, exhausted, limits, records)
    requires ValidLimits(limits) && HistoriesFit(limits)
    ensures TerminalTarget(durable, next, exhausted, limits, records).Ok?
  {
    hide TerminalTarget, ValidHistory, LiveBlock, MergedHistory, HistoriesFit, AggregateFits, Newest;
    TargetIs(durable, next, exhausted, limits, records);
    MergedHistoryValid(durable, WatermarkEnd(next, exhausted), limits, records);
    var end := WatermarkEnd(next, exhausted);
    assert |records| > 0 by { LiveBlockShape(durable, end, limits, records); }
    var kept := Newest(MergedHistory(durable, end, records), limits.auditTombstoneLimit);
    KeptFits(kept, end - |kept|, limits);
  }

  lemma KeptFits(kept: seq<Tombstone>, truncated: int, limits: LedgerLimits)
    requires ValidLimits(limits) && HistoriesFit(limits)
    requires ValidHistory(kept, truncated, limits) && |kept| <= limits.auditTombstoneLimit
    ensures AggregateFits(kept)
  {
    hide ValidHistory, LargestCharge, HistoryCost;
    ValidHistoryCharge(kept, truncated, limits);
    LargestChargeMonotone(|kept|, limits.auditTombstoneLimit, limits.maxClaimEntriesPerAttempt);
  }

  // ---- a merge above it ----------------------------------------------------------------------

  function Rejections(claims: nat): (outcomes: seq<ClaimOutcome>)
    ensures |outcomes| == claims && forall i :: 0 <= i < |outcomes| ==> outcomes[i] == ClaimRejectedTerminal
  {
    seq(claims, i => ClaimRejectedTerminal)
  }

  /** The tombstones of an attempt whose claims were all rejected and whose cancellation failed. */
  function RejectedBlock(first: uint64, claims: nat): (block: seq<Tombstone>)
    requires first + claims <= MAX_UINT64
    ensures |block| == 1 + claims
  {
    AttemptBlock(first, CancelFailed, Rejections(claims))
  }

  /** Sequences that many such attempts consume. */
  function Consumed(count: nat, claims: nat): (end: nat)
    ensures count == 0 <==> end == 0
  {
    if count == 0 then 0 else Consumed(count - 1, claims) + claims + 1
  }

  function RejectedHistory(count: nat, claims: nat): (ts: seq<Tombstone>)
    requires Consumed(count, claims) <= MAX_UINT64
    ensures |ts| == Consumed(count, claims)
  {
    if count == 0 then []
    else RejectedHistory(count - 1, claims) + RejectedBlock(Consumed(count - 1, claims) + 1, claims)
  }

  /** The durable state after those attempts, one after the other. */
  function RejectedState(count: nat, claims: nat): RestartState
    requires Consumed(count, claims) < MAX_UINT64
  {
    RestartState(1, Consumed(count, claims) + 1, false, 0, RejectedHistory(count, claims))
  }

  lemma {:induction false} RejectedPrefixCost(ts: seq<Tombstone>)
    requires |ts| > 0 && TombstoneCost(ts[0]) == 734
    requires forall i :: 1 <= i < |ts| ==> TombstoneCost(ts[i]) == 782
    ensures HistoryCost(ts) == 782 * |ts| - 48
    decreases |ts|
  {
    hide TombstoneCost;
    if |ts| > 1 {
      RejectedPrefixCost(ts[..|ts| - 1]);
    } else {
      assert ts[..0] == [];
    }
  }

  /** Any prefix of such a block. */
  lemma RejectedBlockCost(first: uint64, claims: nat, n: nat)
    requires first + claims <= MAX_UINT64 && 0 < n <= claims + 1
    ensures HistoryCost(RejectedBlock(first, claims)[..n]) == 782 * n - 48
  {
    hide HistoryCost;
    RejectedPrefixCost(RejectedBlock(first, claims)[..n]);
  }

  lemma {:induction false} RejectedHistoryCost(count: nat, claims: nat)
    requires Consumed(count, claims) <= MAX_UINT64
    ensures HistoryCost(RejectedHistory(count, claims)) == 782 * Consumed(count, claims) - 48 * count
  {
    hide RejectedBlock, TombstoneCost;
    if count > 0 {
      var block := RejectedBlock(Consumed(count - 1, claims) + 1, claims);
      RejectedHistoryCost(count - 1, claims);
      RejectedBlockCost(Consumed(count - 1, claims) + 1, claims, claims + 1);
      assert block[..claims + 1] == block;
      HistoryCostConcat(RejectedHistory(count - 1, claims), block);
    }
  }

  lemma {:induction false} RejectedHistoryStart(count: nat, claims: nat)
    requires 0 < count && Consumed(count, claims) <= MAX_UINT64
    ensures Consumed(count, claims) >= claims + 1
    ensures RejectedHistory(count, claims)[..claims + 1] == RejectedBlock(1, claims)
  {
    hide RejectedBlock;
    if count > 1 {
      RejectedHistoryStart(count - 1, claims);
    } else {
      assert RejectedHistory(1, claims) == RejectedBlock(1, claims);
    }
  }

  /** The newest tombstones of the history, cut within its first block. */
  lemma NewestRejectedCost(count: nat, claims: nat, limit: nat)
    requires 0 < count && Consumed(count - 1, claims) <= limit < Consumed(count, claims) <= MAX_UINT64
    ensures HistoryCost(Newest(RejectedHistory(count, claims), limit)) == 782 * limit - 48 * (count - 1)
  {
    hide RejectedBlock, RejectedHistory, TombstoneCost, HistoryCost;
    var ts := RejectedHistory(count, claims);
    var n := |ts| - limit;
    RejectedHistoryStart(count, claims);
    RejectedBlockCost(1, claims, n);
    assert ts[..n] == ts[..claims + 1][..n];
    assert ts == ts[..n] + ts[n..];
    HistoryCostConcat(ts[..n], ts[n..]);
    RejectedHistoryCost(count, claims);
  }

  lemma {:induction false} RejectedHistoryValid(limits: LedgerLimits, count: nat)
    requires Activated(limits) && Consumed(count, limits.maxClaimEntriesPerAttempt) <= MAX_UINT64
    ensures ValidHistory(RejectedHistory(count, limits.maxClaimEntriesPerAttempt), 0, limits)
  {
    hide ValidHistory, AttemptBlock, Records, BlockAt, Dense;
    var claims := limits.maxClaimEntriesPerAttempt;
    if count == 0 {
      EmptyHistory(limits);
    } else {
      var first := Consumed(count - 1, claims) + 1;
      RejectedHistoryValid(limits, count - 1);
      AttemptBlockValid(limits, first, CancelFailed, Rejections(claims));
      AppendBlock(RejectedHistory(count - 1, claims), 0, limits, RejectedBlock(first, claims));
    }
  }

  /** That many such attempts leave a history that is complete and within the budget. */
  predicate RejectedFits(limits: LedgerLimits, count: nat)
    requires ValidLimits(limits)
  {
    var claims := limits.maxClaimEntriesPerAttempt;
    && Consumed(count, claims) <= limits.auditTombstoneLimit
    && 434 + 782 * Consumed(count, claims) - 48 * count <= MAX_SERIALIZED_CONTRACT_BYTES
  }

  lemma RejectedIsDurable(limits: LedgerLimits, count: nat)
    requires Activated(limits) && RejectedFits(limits, count)
    ensures var claims := limits.maxClaimEntriesPerAttempt;
      && Consumed(count + 1, claims) < MAX_UINT64
      && Durable(RejectedState(count, claims), limits)
      && EndSequence(RejectedState(count, claims)) == Consumed(count, claims)
  {
    hide ValidHistory, RejectedHistory, EncodedBytes, HistoryCost;
    RejectedHistoryValid(limits, count);
    RejectedHistoryCost(count, limits.maxClaimEntriesPerAttempt);
  }

  /** What the ledger merges when the next such attempt ends. */
  function NextTarget(limits: LedgerLimits, count: nat): Result<RestartState>
    requires ValidLimits(limits) && RejectedFits(limits, count)
  {
    var claims := limits.maxClaimEntriesPerAttempt;
    TerminalTarget(RejectedState(count, claims), Consumed(count + 1, claims) + 1, false, limits,
                   RejectedBlock(Consumed(count, claims) + 1, claims))
  }

  lemma NextIsSetting(limits: LedgerLimits, count: nat)
    requires Activated(limits) && RejectedFits(limits, count)
    ensures var claims := limits.maxClaimEntriesPerAttempt;
      && MergeSetting(RejectedState(count, claims), Consumed(count + 1, claims) + 1, false, limits,
                      RejectedBlock(Consumed(count, claims) + 1, claims))
      && MergedHistory(RejectedState(count, claims), Consumed(count + 1, claims),
                       RejectedBlock(Consumed(count, claims) + 1, claims))
         == RejectedHistory(count + 1, claims)
  {
    hide Durable, RejectedFits, RejectedHistory, Records, BlockAt, EncodedBytes, WellFormed;
    var claims := limits.maxClaimEntriesPerAttempt;
    RejectedIsDurable(limits, count);
    AttemptBlockValid(limits, Consumed(count, claims) + 1, CancelFailed, Rejections(claims));
    HistoryGrows(count, claims);
  }

  lemma HistoryGrows(count: nat, claims: nat)
    requires Consumed(count + 1, claims) <= MAX_UINT64
    ensures RejectedHistory(count + 1, claims) == RejectedHistory(count, claims) + RejectedBlock(Consumed(count, claims) + 1, claims)
  {
    hide RejectedBlock;
  }

  /** The newest tombstones of a history that is not complete or too large are too large. */
  lemma NewestRejectedFits(limits: LedgerLimits, count: nat)
    requires Activated(limits) && RejectedFits(limits, count) && !HistoriesFit(limits)
    ensures Consumed(count + 1, limits.maxClaimEntriesPerAttempt) < MAX_UINT64
    ensures AggregateFits(Newest(RejectedHistory(count + 1, limits.maxClaimEntriesPerAttempt), limits.auditTombstoneLimit))
      <==> RejectedFits(limits, count + 1)
  {
    hide RejectedHistory, HistoryCost, LargestCharge;
    var claims, limit := limits.maxClaimEntriesPerAttempt, limits.auditTombstoneLimit;
    if Consumed(count + 1, claims) <= limit {
      RejectedHistoryCost(count + 1, claims);
    } else {
      NewestRejectedCost(count + 1, claims, limit);
      ConsumedIsProduct(count, claims);
      LargestChargeAtMost(limit, claims, count);
    }
  }

  /** The history grows by whole blocks until one exceeds the budget or, beyond a
      limit at which histories can be too large, the newest tombstones do. */
  lemma NextMerge(limits: LedgerLimits, count: nat)
    requires Activated(limits) && RejectedFits(limits, count) && !HistoriesFit(limits)
    ensures NextTarget(limits, count) ==
      if RejectedFits(limits, count + 1) then Ok(RejectedState(count + 1, limits.maxClaimEntriesPerAttempt)) else Err
  {
    hide TerminalTarget, Durable, LiveBlock, MergedHistory, RejectedHistory, RejectedBlock, EncodedBytes, AggregateFits, HistoriesFit;
    var claims, limit := limits.maxClaimEntriesPerAttempt, limits.auditTombstoneLimit;
    var end := Consumed(count + 1, claims);
    NextIsSetting(limits, count);
    TargetIs(RejectedState(count, claims), end + 1, false, limits, RejectedBlock(Consumed(count, claims) + 1, claims));
    NewestRejectedFits(limits, count);
  }

  lemma {:induction false} ConsumedIsProduct(count: nat, claims: nat)
    ensures Consumed(count, claims) == count * (claims + 1)
  {
    if count > 0 {
      ConsumedIsProduct(count - 1, claims);
      assert count * (claims + 1) == (count - 1) * (claims + 1) + (claims + 1);
    }
  }

  // ---- the exact condition ----------------------------------------------------------------------

  ghost predicate MergeAlwaysFits(limits: LedgerLimits)
    requires ValidLimits(limits)
  {
    forall durable, next: uint64, exhausted, records :: MergeSetting(durable, next, exhausted, limits, records) ==>
      (exhausted <==> next == 0) && TerminalTarget(durable, next, exhausted, limits, records).Ok?
  }

  /** The merge of a live block always succeeds if and only if the two limits leave
      no history that exceeds the budget. */
  lemma MergeAlwaysFitsIff(limits: LedgerLimits)
    requires Activated(limits)
    ensures MergeAlwaysFits(limits) <==> HistoriesFit(limits)
  {
    hide MergeSetting, TerminalTarget, HistoriesFit;
    if HistoriesFit(limits) {
      forall durable, next: uint64, exhausted, records | MergeSetting(durable, next, exhausted, limits, records)
        ensures (exhausted <==> next == 0) && TerminalTarget(durable, next, exhausted, limits, records).Ok?
      {
        SettingFits(durable, next, exhausted, limits, records);
      }
    } else {
      var count := MergeCanExceedBudget(limits, 0);
    }
  }

  lemma SettingFits(durable: RestartState, next: uint64, exhausted: bool, limits: LedgerLimits, records: seq<Tombstone>)
    requires MergeSetting(durable, next, exhausted, limits, records) && ValidLimits(limits) && HistoriesFit(limits)
    ensures exhausted <==> next == 0
    ensures TerminalTarget(durable, next, exhausted, limits, records).Ok?
  {
    hide TerminalTarget, ValidHistory, LiveBlock, HistoriesFit;
    TargetNeverFailsWithinBudget(durable, next, exhausted, limits, records);
  }

  /** Otherwise some number of fully rejected attempts, one after the other, leaves a
      durable history behind which the next one cannot be merged. */
  lemma {:induction false} MergeCanExceedBudget(limits: LedgerLimits, from: nat) returns (count: nat)
    requires Activated(limits) && !HistoriesFit(limits) && RejectedFits(limits, from)
    ensures RejectedFits(limits, count) && NextTarget(limits, count).Err?
    ensures var claims := limits.maxClaimEntriesPerAttempt;
      MergeSetting(RejectedState(count, claims), Consumed(count + 1, claims) + 1, false, limits,
                   RejectedBlock(Consumed(count, claims) + 1, claims))
    decreases limits.auditTombstoneLimit - Consumed(from, limits.maxClaimEntriesPerAttempt)
  {
    hide HistoriesFit, NextTarget, MergeSetting, RejectedHistory, RejectedBlock;
    NextMerge(limits, from);
    if RejectedFits(limits, from + 1) {
      count := MergeCanExceedBudget(limits, from + 1);
    } else {
      count := from;
      NextIsSetting(limits, from);
    }
  }
}
