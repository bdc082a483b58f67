/** terminalRestartStateLocked as the source computes it: combine, sort, drop
    duplicates, find the watermark and walk back along the gap-free run. */
module MergeLoop {
  import opened Foundation
  import opened LedgerTypes
  import opened RestartHistory
  import opened TerminalMerge

  predicate Ascending(ts: seq<Tombstone>) {
    forall i, j :: 0 <= i < j < |ts| ==> ts[i].sequence <= ts[j].sequence
  }

  predicate StrictlyAscending(ts: seq<Tombstone>) {
    forall i, j :: 0 <= i < j < |ts| ==> ts[i].sequence < ts[j].sequence
  }

  ghost predicate SameMembers(a: seq<Tombstone>, b: seq<Tombstone>) {
    forall t :: t in a <==> t in b
  }

  lemma InsertionKeepsOrder(sorted: seq<Tombstone>, at: nat, t: Tombstone, longer: seq<Tombstone>)
    requires Ascending(sorted) && at <= |sorted| && longer == sorted[..at] + [t] + sorted[at..]
    requires at > 0 ==> sorted[at - 1].sequence <= t.sequence
    requires at < |sorted| ==> t.sequence <= sorted[at].sequence
    ensures Ascending(longer)
  {
    forall i, j | 0 <= i < j < |longer|
      ensures longer[i].sequence <= longer[j].sequence
    {
      var a, b := if i < at then i else i - 1, if j < at then j else j - 1;
      assert i != at ==> longer[i] == sorted[a];
      assert j != at ==> longer[j] == sorted[b];
    }
  }

  lemma InsertionKeepsMembers(sorted: seq<Tombstone>, at: nat, t: Tombstone, longer: seq<Tombstone>)
    requires at <= |sorted| && longer == sorted[..at] + [t] + sorted[at..]
    ensures multiset(longer) == multiset(sorted) + multiset{t}
  {
    assert sorted == sorted[..at] + sorted[at..];
  }

  lemma OneMoreMember(ts: seq<Tombstone>, i: nat)
    requires i < |ts|
    ensures multiset(ts[..i + 1]) == multiset(ts[..i]) + multiset{ts[i]}
  {
    assert ts[..i + 1] == ts[..i] + [ts[i]];
  }

  /** sort.Slice by terminal sequence; equal sequences may come in any order. */
  method SortBySequence(ts: seq<Tombstone>) returns (sorted: seq<Tombstone>)
    ensures Ascending(sorted)
    ensures multiset(sorted) == multiset(ts)
  {
    sorted := [];
    for i := 0 to |ts|
      invariant Ascending(sorted)
      invariant multiset(sorted) == multiset(ts[..i])
    {
      hide Ascending;
      var at := |sorted|;
      while at > 0 && sorted[at - 1].sequence > ts[i].sequence
        invariant 0 <= at <= |sorted|
        invariant at < |sorted| ==> sorted[at].sequence > ts[i].sequence
      {
        at := at - 1;
      }
      var longer := sorted[..at] + [ts[i]] + sorted[at..];
      InsertionKeepsOrder(sorted, at, ts[i], longer);
      InsertionKeepsMembers(sorted, at, ts[i], longer);
      OneMoreMember(ts, i);
      sorted := longer;
    }
    assert ts[..|ts|] == ts;
  }

  /** Within a sorted prefix that is already free of conflicts, the last kept
      tombstone decides about the next one. */
  lemma NextTombstone(kept: seq<Tombstone>, prefix: seq<Tombstone>, t: Tombstone)
    requires StrictlyAscending(kept) && SameMembers(kept, prefix) && !Conflicting(prefix)
    requires |kept| > 0 ==> kept[|kept| - 1].sequence <= t.sequence
    ensures |kept| > 0 && kept[|kept| - 1].sequence == t.sequence && kept[|kept| - 1] != t ==> Conflicting(prefix + [t])
    ensures |kept| > 0 && kept[|kept| - 1] == t ==> SameMembers(kept, prefix + [t]) && !Conflicting(prefix + [t])
    ensures |kept| > 0 ==> kept[|kept| - 1] in prefix
    ensures (|kept| > 0 ==> kept[|kept| - 1].sequence < t.sequence) ==>
      StrictlyAscending(kept + [t]) && SameMembers(kept + [t], prefix + [t]) && !Conflicting(prefix + [t])
  {
    var longer := prefix + [t];
    assert forall i :: 0 <= i < |prefix| ==> longer[i] == prefix[i] && prefix[i] in kept;
    if |kept| > 0 && kept[|kept| - 1].sequence == t.sequence && kept[|kept| - 1] != t {
      assert kept[|kept| - 1] in prefix;
      var i :| 0 <= i < |prefix| && prefix[i] == kept[|kept| - 1];
      assert longer[i] != longer[|prefix|];
    }
  }

  /** The duplicate scan fails exactly on two different tombstones of one
      sequence; otherwise it keeps one tombstone of every sequence. */
  method DropDuplicates(sorted: seq<Tombstone>) returns (unique: Result<seq<Tombstone>>)
    requires Ascending(sorted)
    ensures unique.Err? <==> Conflicting(sorted)
    ensures unique.Ok? ==> StrictlyAscending(unique.value) && SameMembers(unique.value, sorted)
  {
    var kept: seq<Tombstone> := [];
    for i := 0 to |sorted|
      invariant StrictlyAscending(kept)
      invariant SameMembers(kept, sorted[..i])
      invariant !Conflicting(sorted[..i])
    {
      assert sorted[..i + 1] == sorted[..i] + [sorted[i]];
      assert |kept| > 0 ==> kept[|kept| - 1] in sorted[..i];
      NextTombstone(kept, sorted[..i], sorted[i]);
      if |kept| > 0 && kept[|kept| - 1].sequence == sorted[i].sequence {
        if kept[|kept| - 1] != sorted[i] {
          ConflictsFollowMembers(sorted[..i + 1], sorted);
          return Err;
        }
      } else {
        kept := kept + [sorted[i]];
      }
    }
    assert sorted[..|sorted|] == sorted;
    unique := Ok(kept);
  }

  /** sort.Search for the first tombstone at or above a sequence. */
  method SearchSequence(unique: seq<Tombstone>, end: int) returns (index: nat)
    requires StrictlyAscending(unique)
    ensures index <= |unique|
    ensures forall i :: 0 <= i < index ==> unique[i].sequence < end
    ensures forall i :: index <= i < |unique| ==> unique[i].sequence >= end
  {
    var low, high := 0, |unique|;
    while low < high
      invariant 0 <= low <= high <= |unique|
      invariant forall i :: 0 <= i < low ==> unique[i].sequence < end
      invariant forall i :: high <= i < |unique| ==> unique[i].sequence >= end
    {
      var middle := (low + high) / 2;
      if unique[middle].sequence >= end {
        high := middle;
      } else {
        low := middle + 1;
      }
    }
    index := low;
  }

  /** The walk back from the watermark over consecutive sequences. */
  method WalkBack(unique: seq<Tombstone>, last: nat) returns (first: nat)
    requires StrictlyAscending(unique) && last < |unique|
    ensures first <= last && Dense(unique[first..last + 1], unique[first].sequence - 1)
    ensures !Has(unique, unique[first].sequence - 1)
  {
    first := last;
    while first > 0 && unique[first - 1].sequence != MAX_UINT64 && unique[first - 1].sequence + 1 == unique[first].sequence
      invariant 0 <= first <= last
      invariant Dense(unique[first..last + 1], unique[first].sequence - 1)
    {
      first := first - 1;
    }
  }

  /** One tombstone per sequence: picking by sequence does not depend on how the
      pool is arranged. */
  lemma SamePool(pool: seq<Tombstone>, unique: seq<Tombstone>)
    requires SameMembers(unique, pool)
    ensures forall s :: Has(pool, s) <==> Has(unique, s)
  {
    forall s
      ensures Has(pool, s) <==> Has(unique, s)
    {
      if Has(pool, s) {
        var i :| 0 <= i < |pool| && pool[i].sequence == s;
        assert pool[i] in unique;
      }
      if Has(unique, s) {
        var i :| 0 <= i < |unique| && unique[i].sequence == s;
        assert unique[i] in pool;
      }
    }
  }

  lemma RetainedFromRun(pool: seq<Tombstone>, unique: seq<Tombstone>, first: nat, last: nat, truncated: int, end: int)
    requires !Conflicting(pool) && SameMembers(unique, pool)
    requires first <= last < |unique| && unique[last].sequence == end
    requires Dense(unique[first..last + 1], unique[first].sequence - 1) && !Has(unique, unique[first].sequence - 1)
    ensures Retained(pool, truncated, end) == if unique[first].sequence == truncated + 1 then unique[first..last + 1] else []
  {
    hide Retained, Conflicting, Has;
    SamePool(pool, unique);
    var run := unique[first..last + 1];
    var start: int := unique[first].sequence;
    assert run[last - first] == unique[last];
    assert forall t :: t in run ==> t in unique;
    if start == truncated + 1 {
      RetainedRun(pool, run, truncated);
    } else {
      RunIs(pool, run, start - 1);
      RetainedNothing(pool, truncated, start, end);
    }
  }

  lemma ArrangementKeepsConflicts(pool: seq<Tombstone>, sorted: seq<Tombstone>)
    requires multiset(sorted) == multiset(pool)
    ensures SameMembers(sorted, pool)
    ensures Conflicting(pool) <==> Conflicting(sorted)
  {
    forall t
      ensures t in sorted <==> t in pool
    {
      assert t in multiset(sorted) <==> t in multiset(pool);
    }
    if Conflicting(pool) {
      ConflictsFollowMembers(pool, sorted);
    }
    if Conflicting(sorted) {
      ConflictsFollowMembers(sorted, pool);
    }
  }

  lemma ConflictsFollowMembers(a: seq<Tombstone>, b: seq<Tombstone>)
    requires Conflicting(a) && forall t :: t in a ==> t in b
    ensures Conflicting(b)
  {
    var i, j :| 0 <= i < |a| && 0 <= j < |a| && a[i].sequence == a[j].sequence && a[i] != a[j];
    assert a[i] in b && a[j] in b;
  }

  /** The retained part of the merge, before it is trimmed and validated. */
  method RetainedRecords(history: seq<Tombstone>, records: seq<Tombstone>, truncated: uint64, end: int)
    returns (retained: Result<seq<Tombstone>>)
    ensures retained.Err? <==> Conflicting(history + records)
    ensures retained.Ok? ==> retained.value == Retained(history + records, truncated, end)
    ensures retained.Ok? && retained.value != [] ==>
      Dense(retained.value, truncated) && |retained.value| == end - truncated
  {
    var combined := history + records;
    var sorted := SortBySequence(combined);
    ArrangementKeepsConflicts(combined, sorted);
    var distinct := DropDuplicates(sorted);
    if distinct.Err? {
      return Err;
    }
    var unique := distinct.value;
    var last := SearchSequence(unique, end);
    if last == |unique| || unique[last].sequence != end {
      SamePool(combined, unique);
      RetainedUnreached(combined, truncated, end);
      return Ok([]);
    }
    var first := WalkBack(unique, last);
    RetainedFromRun(combined, unique, first, last, truncated, end);
    if truncated != MAX_UINT64 && unique[first].sequence == truncated + 1 {
      return Ok(unique[first..last + 1]);
    }
    return Ok([]);
  }

  /** The truncation watermark is the sequence before the first that is kept. */
  lemma TrimmedRestart(next: uint64, exhausted: bool, limits: LedgerLimits, pool: seq<Tombstone>, truncated: uint64)
    requires ValidLimits(limits) && (exhausted <==> next == 0)
    requires |Retained(pool, truncated, WatermarkEnd(next, exhausted))| <= WatermarkEnd(next, exhausted)
    ensures var end, ts := WatermarkEnd(next, exhausted), Retained(pool, truncated, WatermarkEnd(next, exhausted));
      var kept := Newest(ts, limits.auditTombstoneLimit);
      && kept == (if |ts| > limits.auditTombstoneLimit then ts[|ts| - limits.auditTombstoneLimit..] else ts)
      && (kept == [] <==> ts == [])
      && RestartAt(next, exhausted, limits, ts) ==
          RestartState(1, next, exhausted, if ts == [] then end else kept[0].sequence - 1, kept)
  {
    hide Retained;
    RetainedIsDense(pool, truncated, WatermarkEnd(next, exhausted));
  }

  lemma RetainedIsDense(pool: seq<Tombstone>, truncated: uint64, end: int)
    ensures Dense(Retained(pool, truncated, end), end - |Retained(pool, truncated, end)|)
  {
  }

  /** terminalRestartStateLocked, in the source's steps, computes exactly the
      specified target. */
  method TerminalRestartState(durable: RestartState, next: uint64, exhausted: bool, limits: LedgerLimits, records: seq<Tombstone>)
    returns (restart: Result<RestartState>)
    requires ValidLimits(limits) && (exhausted <==> next == 0)
    ensures restart == TerminalTarget(durable, next, exhausted, limits, records)
  {
    hide Conflicting, Retained, ValidRestart, RestartAt, Newest;
    var end := if exhausted then MAX_UINT64 else next - 1;
    var merged := RetainedRecords(durable.tombstones, records, durable.truncated, end);
    if merged.Err? {
      return Err;
    }
    RetainedFits(durable.tombstones + records, durable.truncated, end);
    TrimmedRestart(next, exhausted, limits, durable.tombstones + records, durable.truncated);
    var retained, truncated := merged.value, end;
    if |retained| > 0 {
      if |retained| > limits.auditTombstoneLimit {
        retained := retained[|retained| - limits.auditTombstoneLimit..];
      }
      truncated := retained[0].sequence - 1;
    }
    var target := RestartState(1, next, exhausted, truncated, retained);
    var valid := ValidateLedgerRestartState(target, limits);
    return if valid then Ok(target) else Err;
  }
}
