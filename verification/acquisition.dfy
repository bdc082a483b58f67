/** Coherence of one observation: single-response samples and bounded
    multi-response acquisition with its ordinals, orders and exact time skew. */
module Acquisition {
  import opened Foundation
  import opened LogicalViews

  const SECOND: int := 1_000_000_000

  /** Unix seconds of the years 1 to 9999, the range every admitted time has. */
  const FIRST_SECOND: int := -62_135_596_800
  const LAST_SECOND: int := 253_402_300_799

  type UnixSecond = n: int | FIRST_SECOND <= n <= LAST_SECOND witness 0
  type Nanosecond = n: int | 0 <= n < SECOND

  datatype Instant = Instant(seconds: UnixSecond, nanoseconds: Nanosecond)
  {
    function Total(): int { seconds * SECOND + nanoseconds }

    predicate Before(other: Instant) {
      seconds < other.seconds || (seconds == other.seconds && nanoseconds < other.nanoseconds)
    }
  }

  lemma BeforeIsLess(a: Instant, b: Instant)
    ensures a.Before(b) <==> a.Total() < b.Total()
    ensures a == b <==> a.Total() == b.Total()
  {
  }

  // ---- time skew ---------------------------------------------------------------------------

  /** exceedsTimeSkew: the seconds and nanoseconds comparison decides the exact
      difference, though the difference itself does not fit 64 bits; every
      intermediate value does. */
  method ExceedsTimeSkew(minimum: Instant, maximum: Instant, limit: int64) returns (exceeds: bool)
    ensures exceeds <==> limit < 0 || maximum.Total() < minimum.Total() || maximum.Total() - minimum.Total() > limit
  {
    BeforeIsLess(maximum, minimum);
    if limit < 0 || maximum.Before(minimum) {
      return true;
    }
    var seconds: int64 := maximum.seconds - minimum.seconds;
    var nanoseconds: int64 := maximum.nanoseconds - minimum.nanoseconds;
    if nanoseconds < 0 {
      seconds := seconds - 1;
      nanoseconds := nanoseconds + SECOND;
    }
    var limitSeconds: int64 := limit / SECOND;
    var limitNanoseconds: int64 := limit % SECOND;
    return seconds > limitSeconds || (seconds == limitSeconds && nanoseconds > limitNanoseconds);
  }

  // ---- what an observation carries ---------------------------------------------------------------

  /** Guessed: a time claimed unavailable but given; Unknown: any other state. */
  datatype SourceTime = Observed(time: Instant) | Unavailable | Guessed(time: Instant) | Unknown(state: string)

  predicate ValidSourceTime(source: SourceTime) {
    source.Observed? || source.Unavailable?
  }

  datatype Dependency = Dependency(
    view: LogicalView,
    source: SourceTime,
    receipt: Option<Instant>,
    marker: string,
    acquisitionOrdinal: uint32,
    retryOrdinal: uint32)

  datatype Envelope = Envelope(retryOrdinal: uint32, receipt: Option<Instant>, source: SourceTime)

  datatype AcquisitionOrder = DeclarationOrder | SourceTimeAscending | ReceiptTimeAscending | OtherOrder(name: string)
  datatype CoherenceMode = SingleWireResponse | BoundedMultiResponse | OtherMode(name: string)

  datatype Policy = Policy(
    mode: CoherenceMode,
    requireGenerationEquality: bool,
    marker: string,
    order: AcquisitionOrder,
    maximumReceiptSkew: int64,
    maximumSourceSkew: int64)

  /** The chronology one physical response has. */
  datatype Fact = Fact(wire: uint64, ordinal: uint32, source: SourceTime, receipt: Instant, marker: string)

  function FactOf(d: Dependency): Fact
    requires d.receipt.Some?
  {
    Fact(d.view.wireResponseID, d.acquisitionOrdinal, d.source, d.receipt.value, d.marker)
  }

  // ---- the declarative meaning ---------------------------------------------------------------------

  predicate SameOrigin(a: PhysicalIdentity, b: PhysicalIdentity, generation: bool) {
    && a.endpoint == b.endpoint && a.connectionID == b.connectionID
    && a.unitID == b.unitID && a.transport == b.transport
    && (generation ==> a.transportGeneration == b.transportGeneration)
  }

  /** One dependency of a bounded sample, on its own and against the first. */
  predicate Admitted(policy: Policy, envelope: Envelope, first: Dependency, d: Dependency) {
    && ValidSourceTime(d.source) && d.receipt.Some?
    && d.acquisitionOrdinal != 0 && d.retryOrdinal == envelope.retryOrdinal
    && SameOrigin(d.view.identity, first.view.identity, policy.requireGenerationEquality)
    && (policy.marker != "" ==> d.marker == policy.marker)
  }

  predicate AllAdmitted(policy: Policy, envelope: Envelope, deps: seq<Dependency>) {
    forall i :: 0 <= i < |deps| ==> Admitted(policy, envelope, deps[0], deps[i])
  }

  predicate Timed(deps: seq<Dependency>) {
    forall i :: 0 <= i < |deps| ==> deps[i].receipt.Some? && ValidSourceTime(deps[i].source)
  }

  /** Views of one physical response agree about when it was acquired. */
  predicate OneChronology(deps: seq<Dependency>)
    requires Timed(deps)
  {
    forall i, j :: 0 <= i < |deps| && 0 <= j < |deps| && deps[i].view.wireResponseID == deps[j].view.wireResponseID ==>
      FactOf(deps[i]) == FactOf(deps[j])
  }

  /** Acquisition ordinals are 1 to count, one for each physical response. */
  predicate Numbered(deps: seq<Dependency>, count: nat) {
    && (forall i :: 0 <= i < |deps| ==> 1 <= deps[i].acquisitionOrdinal <= count)
    && (forall n :: 1 <= n <= count ==> UsesOrdinal(deps, n))
    && (forall i, j :: 0 <= i < |deps| && 0 <= j < |deps| ==>
        (deps[i].acquisitionOrdinal == deps[j].acquisitionOrdinal <==>
         deps[i].view.wireResponseID == deps[j].view.wireResponseID))
  }

  predicate UsesOrdinal(deps: seq<Dependency>, n: int) {
    exists i :: 0 <= i < |deps| && deps[i].acquisitionOrdinal == n
  }

  predicate NoUnavailable(deps: seq<Dependency>) {
    forall i :: 0 <= i < |deps| ==> deps[i].source.Observed?
  }

  /** The declared order holds between any two dependencies. */
  predicate Ordered(order: AcquisitionOrder, deps: seq<Dependency>)
    requires Timed(deps)
  {
    match order
    case DeclarationOrder =>
      forall i, j :: 0 <= i < j < |deps| ==> deps[i].acquisitionOrdinal <= deps[j].acquisitionOrdinal
    case SourceTimeAscending =>
      NoUnavailable(deps) &&
      forall i, j :: 0 <= i < |deps| && 0 <= j < |deps| && deps[i].acquisitionOrdinal < deps[j].acquisitionOrdinal ==>
        deps[i].source.time.Total() <= deps[j].source.time.Total()
    case ReceiptTimeAscending =>
      forall i, j :: 0 <= i < |deps| && 0 <= j < |deps| && deps[i].acquisitionOrdinal < deps[j].acquisitionOrdinal ==>
        deps[i].receipt.value.Total() <= deps[j].receipt.value.Total()
    case OtherOrder(_) => false
  }

  /** No two receipts, and no two known source times, are further apart than allowed. */
  predicate WithinSkew(policy: Policy, deps: seq<Dependency>)
    requires Timed(deps)
  {
    && policy.maximumReceiptSkew >= 0
    && (forall i, j :: 0 <= i < |deps| && 0 <= j < |deps| ==>
        deps[i].receipt.value.Total() - deps[j].receipt.value.Total() <= policy.maximumReceiptSkew)
    && (NoUnavailable(deps) ==>
        && policy.maximumSourceSkew >= 0
        && forall i, j :: 0 <= i < |deps| && 0 <= j < |deps| ==>
            deps[i].source.time.Total() - deps[j].source.time.Total() <= policy.maximumSourceSkew)
  }

  predicate LatestReceipt(deps: seq<Dependency>, latest: Instant)
    requires Timed(deps)
  {
    && (exists i :: 0 <= i < |deps| && deps[i].receipt.value == latest)
    && (forall i :: 0 <= i < |deps| ==> deps[i].receipt.value.Total() <= latest.Total())
  }

  predicate LatestSource(deps: seq<Dependency>, latest: Instant)
    requires Timed(deps) && NoUnavailable(deps)
  {
    && (exists i :: 0 <= i < |deps| && deps[i].source.time == latest)
    && (forall i :: 0 <= i < |deps| ==> deps[i].source.time.Total() <= latest.Total())
  }

  /** The envelope carries the exact maxima. */
  predicate EnvelopeExact(envelope: Envelope, deps: seq<Dependency>)
    requires Timed(deps)
  {
    && envelope.receipt.Some? && LatestReceipt(deps, envelope.receipt.value)
    && (if NoUnavailable(deps) then envelope.source.Observed? && LatestSource(deps, envelope.source.time)
        else envelope.source.Unavailable?)
  }

  ghost predicate BoundedCoherent(policy: Policy, envelope: Envelope, deps: seq<Dependency>) {
    && envelope.retryOrdinal != 0
    && AllAdmitted(policy, envelope, deps) && Timed(deps) && OneChronology(deps)
    && (exists count: nat :: Numbered(deps, count))
    && Ordered(policy.order, deps)
    && WithinSkew(policy, deps)
    && EnvelopeExact(envelope, deps)
  }

  // ---- collecting one fact per physical response --------------------------------------------------

  /** The facts are those of the dependencies, one for each wire response. */
  predicate Collected(deps: seq<Dependency>, facts: seq<Fact>)
    requires Timed(deps)
  {
    && (forall i :: 0 <= i < |deps| ==> FactOf(deps[i]) in facts)
    && (forall f :: 0 <= f < |facts| ==> Witnessed(deps, facts[f]))
    && DistinctWires(facts)
  }

  predicate Witnessed(deps: seq<Dependency>, fact: Fact)
    requires Timed(deps)
  {
    exists i :: 0 <= i < |deps| && FactOf(deps[i]) == fact
  }

  lemma CollectedExtends(deps: seq<Dependency>, facts: seq<Fact>, d: Dependency, after: seq<Fact>)
    requires Timed(deps) && Collected(deps, facts) && d.receipt.Some? && ValidSourceTime(d.source)
    requires (after == facts && FactOf(d) in facts) ||
      (after == facts + [FactOf(d)] && forall f :: 0 <= f < |facts| ==> facts[f].wire != d.view.wireResponseID)
    ensures Timed(deps + [d]) && Collected(deps + [d], after)
  {
    var longer := deps + [d];
    assert forall i :: 0 <= i < |deps| ==> longer[i] == deps[i];
    assert longer[|deps|] == d;
    forall f | 0 <= f < |after|
      ensures Witnessed(longer, after[f])
    {
      if f < |facts| {
        var i :| 0 <= i < |deps| && FactOf(deps[i]) == facts[f];
        assert FactOf(longer[i]) == after[f];
      } else {
        assert FactOf(longer[|deps|]) == after[f];
      }
    }
    if after != facts {
      assert after[|facts|] == FactOf(d);
    }
  }

  lemma ChronologyExtends(deps: seq<Dependency>, facts: seq<Fact>, n: nat)
    requires n < |deps| && Timed(deps[..n]) && Collected(deps[..n], facts)
    requires deps[n].receipt.Some? && ValidSourceTime(deps[n].source)
    requires exists f :: 0 <= f < |facts| && facts[f].wire == deps[n].view.wireResponseID && facts[f] != FactOf(deps[n])
    ensures !Timed(deps) || !OneChronology(deps)
  {
    var f :| 0 <= f < |facts| && facts[f].wire == deps[n].view.wireResponseID && facts[f] != FactOf(deps[n]);
    var i :| 0 <= i < n && FactOf(deps[..n][i]) == facts[f];
    assert deps[i] == deps[..n][i];
    if Timed(deps) {
      assert FactOf(deps[i]) != FactOf(deps[n]);
    }
  }

  /** The facts of a collected history decide that the dependencies agree. */
  lemma CollectedIsOneChronology(deps: seq<Dependency>, facts: seq<Fact>)
    requires Timed(deps) && Collected(deps, facts)
    ensures OneChronology(deps)
  {
    forall i, j | 0 <= i < |deps| && 0 <= j < |deps| && deps[i].view.wireResponseID == deps[j].view.wireResponseID
      ensures FactOf(deps[i]) == FactOf(deps[j])
    {
      var f :| 0 <= f < |facts| && facts[f] == FactOf(deps[i]);
      var g :| 0 <= g < |facts| && facts[g] == FactOf(deps[j]);
      assert f == g;
    }
  }

  predicate ByWire(facts: seq<Fact>, factByWire: map<uint64, nat>) {
    && (forall w :: w in factByWire ==> factByWire[w] < |facts| && facts[factByWire[w]].wire == w)
    && (forall f :: 0 <= f < |facts| ==> facts[f].wire in factByWire)
  }

  /** One dependency of the first loop: its physical response either has these
      facts already, or none yet. */
  method RetainFact(ghost deps: seq<Dependency>, ghost n: nat, d: Dependency, facts: seq<Fact>, factByWire: map<uint64, nat>)
    returns (ok: bool, after: seq<Fact>, afterByWire: map<uint64, nat>)
    requires n < |deps| && d == deps[n] && d.receipt.Some? && ValidSourceTime(d.source)
    requires Timed(deps[..n]) && Collected(deps[..n], facts) && ByWire(facts, factByWire)
    ensures ok ==> Timed(deps[..n + 1]) && Collected(deps[..n + 1], after) && ByWire(after, afterByWire)
    ensures !ok ==> !Timed(deps) || !OneChronology(deps)
  {
    hide Collected;
    after, afterByWire := facts, factByWire;
    assert deps[..n + 1] == deps[..n] + [d];
    if d.view.wireResponseID in factByWire {
      var fact := facts[factByWire[d.view.wireResponseID]];
      if fact.ordinal != d.acquisitionOrdinal || fact.source != d.source ||
         fact.receipt != d.receipt.value || fact.marker != d.marker
      {
        ChronologyExtends(deps, facts, n);
        return false, facts, factByWire;
      }
    } else {
      afterByWire := factByWire[d.view.wireResponseID := |facts|];
      after := facts + [FactOf(d)];
    }
    CollectedExtends(deps[..n], facts, d, after);
    ok := true;
  }

  /** The first loop: refuses a dependency that is not admitted or contradicts
      the facts its physical response already has. */
  method CollectFacts(policy: Policy, envelope: Envelope, deps: seq<Dependency>) returns (ok: bool, facts: seq<Fact>)
    requires |deps| > 0
    ensures ok <==> AllAdmitted(policy, envelope, deps) && Timed(deps) && OneChronology(deps)
    ensures ok ==> Collected(deps, facts)
  {
    hide Collected, ByWire, SameOrigin, OneChronology, Admitted;
    facts := [];
    var factByWire: map<uint64, nat> := map[];
    ok := true;
    NothingCollected();
    assert deps[..0] == [];
    for n := 0 to |deps|
      invariant Timed(deps[..n]) && Collected(deps[..n], facts) && ByWire(facts, factByWire)
      invariant forall i :: 0 <= i < n ==> Admitted(policy, envelope, deps[0], deps[i])
    {
      var d, id, first := deps[n], deps[n].view.identity, deps[0].view.identity;
      AdmittedIf(policy, envelope, deps[0], d);
      if d.source.Guessed? || d.source.Unknown? || d.receipt.None? || d.acquisitionOrdinal == 0 || d.retryOrdinal != envelope.retryOrdinal {
        return false, facts;
      }
      if id.endpoint != first.endpoint || id.connectionID != first.connectionID || id.unitID != first.unitID ||
         id.transport != first.transport || (policy.requireGenerationEquality && id.transportGeneration != first.transportGeneration)
      {
        return false, facts;
      }
      if policy.marker != "" && d.marker != policy.marker {
        return false, facts;
      }
      ok, facts, factByWire := RetainFact(deps, n, deps[n], facts, factByWire);
      if !ok {
        return;
      }
    }
    assert deps[..|deps|] == deps;
    CollectedIsOneChronology(deps, facts);
    ok := true;
  }

  lemma AdmittedIf(policy: Policy, envelope: Envelope, first: Dependency, d: Dependency)
    ensures var id, origin := d.view.identity, first.view.identity;
      Admitted(policy, envelope, first, d) <==>
        && !(d.source.Guessed? || d.source.Unknown? || d.receipt.None? || d.acquisitionOrdinal == 0 || d.retryOrdinal != envelope.retryOrdinal)
        && !(id.endpoint != origin.endpoint || id.connectionID != origin.connectionID || id.unitID != origin.unitID ||
             id.transport != origin.transport || (policy.requireGenerationEquality && id.transportGeneration != origin.transportGeneration))
        && !(policy.marker != "" && d.marker != policy.marker)
  {
  }

  lemma NothingCollected()
    ensures Timed([]) && Collected([], []) && ByWire([], map[])
  {
  }

  // ---- ranges ------------------------------------------------------------------------------------------

  predicate DistinctOrdinals(facts: seq<Fact>) {
    forall f, g :: 0 <= f < g < |facts| ==> facts[f].ordinal != facts[g].ordinal
  }

  /** latest and earliest are the extreme times of a nonempty list. */
  predicate Extremes(times: seq<Instant>, earliest: Instant, latest: Instant) {
    && earliest in times && latest in times
    && forall i :: 0 <= i < |times| ==> earliest.Total() <= times[i].Total() <= latest.Total()
  }

  function Receipts(facts: seq<Fact>): (times: seq<Instant>)
    ensures |times| == |facts|
    ensures forall i :: 0 <= i < |facts| ==> times[i] == facts[i].receipt
  {
    seq(|facts|, i requires 0 <= i < |facts| => facts[i].receipt)
  }

  function Sources(facts: seq<Fact>): (times: seq<Instant>)
    ensures forall t :: t in times <==> exists f :: 0 <= f < |facts| && facts[f].source == Observed(t)
  {
    if |facts| == 0 then []
    else
      var last := facts[|facts| - 1];
      assert facts == facts[..|facts| - 1] + [last];
      Sources(facts[..|facts| - 1]) + if last.source.Observed? then [last.source.time] else []
  }

  /** Running extremes of one list of times. */
  datatype TimeRange = TimeRange(known: bool, earliest: Instant, latest: Instant)
  {
    ghost predicate Holds(times: seq<Instant>) {
      (known <==> |times| > 0) && (known ==> Extremes(times, earliest, latest))
    }

    function Include(time: Instant): TimeRange {
      TimeRange(true, if !known || time.Before(earliest) then time else earliest,
                if !known || latest.Before(time) then time else latest)
    }
  }

  const EmptyRange := TimeRange(false, Instant(0, 0), Instant(0, 0))

  lemma IncludeHolds(range: TimeRange, times: seq<Instant>, time: Instant)
    requires range.Holds(times)
    ensures range.Include(time).Holds(times + [time])
  {
    BeforeIsLess(time, range.earliest);
    BeforeIsLess(range.latest, time);
    assert (times + [time])[|times|] == time;
  }

  lemma PrefixStep(facts: seq<Fact>, n: nat)
    requires n < |facts|
    ensures Receipts(facts[..n + 1]) == Receipts(facts[..n]) + [facts[n].receipt]
    ensures Sources(facts[..n + 1]) == if facts[n].source.Observed? then Sources(facts[..n]) + [facts[n].source.time] else Sources(facts[..n])
  {
    assert facts[..n + 1][..n] == facts[..n];
  }

  predicate DistinctWires(facts: seq<Fact>) {
    forall f, g :: 0 <= f < g < |facts| ==> facts[f].wire != facts[g].wire
  }

  /** Which response claimed which ordinal. */
  predicate OrdinalMap(facts: seq<Fact>, ordinals: map<uint32, uint64>) {
    && (forall f :: 0 <= f < |facts| ==> facts[f].ordinal in ordinals && ordinals[facts[f].ordinal] == facts[f].wire)
    && (forall o :: o in ordinals ==> exists f :: 0 <= f < |facts| && facts[f].ordinal == o)
  }

  lemma OrdinalMapStep(facts: seq<Fact>, n: nat, ordinals: map<uint32, uint64>)
    requires n < |facts| && DistinctWires(facts) && OrdinalMap(facts[..n], ordinals)
    ensures facts[n].ordinal in ordinals ==> !DistinctOrdinals(facts) && ordinals[facts[n].ordinal] != facts[n].wire
    ensures facts[n].ordinal !in ordinals ==> OrdinalMap(facts[..n + 1], ordinals[facts[n].ordinal := facts[n].wire])
  {
    if facts[n].ordinal in ordinals {
      var f :| 0 <= f < n && facts[..n][f].ordinal == facts[n].ordinal;
      assert facts[f] == facts[..n][f];
    } else {
      var after, longer := ordinals[facts[n].ordinal := facts[n].wire], facts[..n + 1];
      assert forall f :: 0 <= f < n ==> longer[f] == facts[..n][f];
      forall o | o in after
        ensures exists f :: 0 <= f < |longer| && longer[f].ordinal == o
      {
        if o == facts[n].ordinal {
          assert longer[n].ordinal == o;
        } else {
          var f :| 0 <= f < n && facts[..n][f].ordinal == o;
          assert longer[f].ordinal == o;
        }
      }
    }
  }

  lemma OrdinalMapIsDistinct(facts: seq<Fact>, ordinals: map<uint32, uint64>)
    requires DistinctWires(facts) && OrdinalMap(facts, ordinals)
    ensures DistinctOrdinals(facts)
  {
  }

  /** The second loop: ordinals must be distinct; both ranges are exact. */
  method ScanFacts(facts: seq<Fact>) returns (distinct: bool, receipts: TimeRange, sources: TimeRange, unavailable: bool)
    requires forall f :: 0 <= f < |facts| ==> ValidSourceTime(facts[f].source)
    requires DistinctWires(facts)
    ensures distinct <==> DistinctOrdinals(facts)
    ensures distinct ==> receipts.Holds(Receipts(facts)) && sources.Holds(Sources(facts))
    ensures distinct ==> (unavailable <==> exists f :: 0 <= f < |facts| && facts[f].source.Unavailable?)
  {
    hide TimeRange.Holds, TimeRange.Include, Sources, OrdinalMap, DistinctWires, DistinctOrdinals;
    receipts, sources, unavailable := EmptyRange, EmptyRange, false;
    var ordinals: map<uint32, uint64> := map[];
    EmptyRangeHolds(facts);
    for n := 0 to |facts|
      invariant receipts.Holds(Receipts(facts[..n])) && sources.Holds(Sources(facts[..n]))
      invariant unavailable <==> exists f :: 0 <= f < n && facts[f].source.Unavailable?
      invariant OrdinalMap(facts[..n], ordinals)
    {
      var fact := facts[n];
      OrdinalMapStep(facts, n, ordinals);
      if fact.ordinal in ordinals && ordinals[fact.ordinal] != fact.wire {
        return false, receipts, sources, unavailable;
      }
      ordinals := ordinals[fact.ordinal := fact.wire];
      PrefixStep(facts, n);
      IncludeHolds(receipts, Receipts(facts[..n]), fact.receipt);
      receipts := receipts.Include(fact.receipt);
      if fact.source.Unavailable? {
        unavailable := true;
      } else {
        IncludeHolds(sources, Sources(facts[..n]), fact.source.time);
        sources := sources.Include(fact.source.time);
      }
    }
    assert facts[..|facts|] == facts;
    OrdinalMapIsDistinct(facts, ordinals);
    distinct := true;
  }

  lemma EmptyRangeHolds(facts: seq<Fact>)
    ensures EmptyRange.Holds(Receipts(facts[..0])) && EmptyRange.Holds(Sources(facts[..0]))
    ensures OrdinalMap(facts[..0], map[])
  {
  }

  // ---- numbering ------------------------------------------------------------------------------------------

  predicate Ascending(facts: seq<Fact>) {
    forall f, g :: 0 <= f < g < |facts| ==> facts[f].ordinal < facts[g].ordinal
  }

  ghost predicate SameFacts(a: seq<Fact>, b: seq<Fact>) {
    forall t :: t in a <==> t in b
  }

  lemma InsertionKeepsOrder(sorted: seq<Fact>, at: nat, t: Fact, longer: seq<Fact>)
    requires Ascending(sorted) && at <= |sorted| && longer == sorted[..at] + [t] + sorted[at..]
    requires at > 0 ==> sorted[at - 1].ordinal < t.ordinal
    requires at < |sorted| ==> t.ordinal < sorted[at].ordinal
    ensures Ascending(longer)
  {
    forall f, g | 0 <= f < g < |longer|
      ensures longer[f].ordinal < longer[g].ordinal
    {
      var a, b := if f < at then f else f - 1, if g < at then g else g - 1;
      assert f != at ==> longer[f] == sorted[a];
      assert g != at ==> longer[g] == sorted[b];
    }
  }

  lemma InsertionKeepsFacts(sorted: seq<Fact>, at: nat, t: Fact, longer: seq<Fact>)
    requires at <= |sorted| && longer == sorted[..at] + [t] + sorted[at..]
    ensures forall x :: x in longer <==> x in sorted || x == t
  {
    assert sorted == sorted[..at] + sorted[at..];
    assert longer[at] == t;
  }

  /** sort.Slice by distinct ordinals. */
  method SortByOrdinal(facts: seq<Fact>) returns (sorted: seq<Fact>)
    requires DistinctOrdinals(facts)
    ensures Ascending(sorted) && SameFacts(sorted, facts)
  {
    sorted := [];
    for n := 0 to |facts|
      invariant Ascending(sorted) && SameFacts(sorted, facts[..n])
    {
      hide Ascending;
      var at := |sorted|;
      while at > 0 && sorted[at - 1].ordinal > facts[n].ordinal
        invariant 0 <= at <= |sorted|
        invariant at < |sorted| ==> sorted[at].ordinal > facts[n].ordinal
      {
        at := at - 1;
      }
      assert at > 0 ==> sorted[at - 1] in facts[..n];
      var longer := sorted[..at] + [facts[n]] + sorted[at..];
      InsertionKeepsOrder(sorted, at, facts[n], longer);
      InsertionKeepsFacts(sorted, at, facts[n], longer);
      assert facts[..n + 1] == facts[..n] + [facts[n]];
      sorted := longer;
    }
    assert facts[..|facts|] == facts;
  }

  /** The sorted facts carry the ordinals 1, 2, 3 and so on. */
  predicate Consecutive(sorted: seq<Fact>) {
    forall f :: 0 <= f < |sorted| ==> sorted[f].ordinal == f + 1
  }

  lemma {:induction false} AscendingCoverIsConsecutive(sorted: seq<Fact>, count: nat, f: nat)
    requires Ascending(sorted) && f < |sorted|
    requires forall g :: 0 <= g < |sorted| ==> 1 <= sorted[g].ordinal <= count
    requires forall n :: 1 <= n <= count ==> Carries(sorted, n)
    ensures sorted[f].ordinal == f + 1
  {
    if f > 0 {
      AscendingCoverIsConsecutive(sorted, count, f - 1);
    }
    assert Carries(sorted, f + 1) by {
      assert f > 0 ==> sorted[f - 1].ordinal < sorted[f].ordinal;
    }
    var g :| 0 <= g < |sorted| && sorted[g].ordinal == f + 1;
  }

  predicate Carries(sorted: seq<Fact>, n: int) {
    exists f :: 0 <= f < |sorted| && sorted[f].ordinal == n
  }

  /** Whatever numbers the dependencies also numbers their facts. */
  lemma NumberedFacts(deps: seq<Dependency>, facts: seq<Fact>, count: nat)
    requires Timed(deps) && Collected(deps, facts) && Numbered(deps, count)
    ensures DistinctOrdinals(facts)
    ensures forall f :: 0 <= f < |facts| ==> 1 <= facts[f].ordinal <= count
    ensures forall n :: 1 <= n <= count ==> Carries(facts, n)
  {
    forall f | 0 <= f < |facts|
      ensures 1 <= facts[f].ordinal <= count
    {
      assert Witnessed(deps, facts[f]);
      var i :| 0 <= i < |deps| && FactOf(deps[i]) == facts[f];
    }
    forall f, g | 0 <= f < g < |facts|
      ensures facts[f].ordinal != facts[g].ordinal
    {
      assert Witnessed(deps, facts[f]) && Witnessed(deps, facts[g]);
      var i :| 0 <= i < |deps| && FactOf(deps[i]) == facts[f];
      var j :| 0 <= j < |deps| && FactOf(deps[j]) == facts[g];
      assert deps[i].view.wireResponseID != deps[j].view.wireResponseID;
    }
    forall n | 1 <= n <= count
      ensures Carries(facts, n)
    {
      assert UsesOrdinal(deps, n);
      var i :| 0 <= i < |deps| && deps[i].acquisitionOrdinal == n;
      var f :| 0 <= f < |facts| && facts[f] == FactOf(deps[i]);
    }
  }

  /** Gap-free sorted facts number the dependencies, and nothing else does. */
  lemma ConsecutiveDecides(deps: seq<Dependency>, facts: seq<Fact>, sorted: seq<Fact>)
    requires Timed(deps) && Collected(deps, facts) && Ascending(sorted) && SameFacts(sorted, facts)
    ensures Consecutive(sorted) <==> exists count: nat :: Numbered(deps, count)
  {
    hide Numbered;
    if Consecutive(sorted) {
      ConsecutiveNumbers(deps, facts, sorted);
    }
    if count: nat :| Numbered(deps, count) {
      hide Ascending, Collected;
      NumberedFacts(deps, facts, count);
      forall g | 0 <= g < |sorted|
        ensures 1 <= sorted[g].ordinal <= count
      {
        assert sorted[g] in facts;
      }
      forall n | 1 <= n <= count
        ensures Carries(sorted, n)
      {
        assert Carries(facts, n);
        var f :| 0 <= f < |facts| && facts[f].ordinal == n;
        assert facts[f] in sorted;
      }
      forall f | 0 <= f < |sorted|
        ensures sorted[f].ordinal == f + 1
      {
        AscendingCoverIsConsecutive(sorted, count, f);
      }
    }
  }

  lemma FactAt(deps: seq<Dependency>, facts: seq<Fact>, sorted: seq<Fact>, i: nat)
    requires Timed(deps) && Collected(deps, facts) && SameFacts(sorted, facts) && Consecutive(sorted) && i < |deps|
    ensures 1 <= deps[i].acquisitionOrdinal <= |sorted| && sorted[deps[i].acquisitionOrdinal - 1] == FactOf(deps[i])
  {
    assert FactOf(deps[i]) in sorted;
  }

  lemma DependencyAt(deps: seq<Dependency>, facts: seq<Fact>, sorted: seq<Fact>, f: nat) returns (i: nat)
    requires Timed(deps) && Collected(deps, facts) && SameFacts(sorted, facts) && f < |sorted|
    ensures i < |deps| && FactOf(deps[i]) == sorted[f]
  {
    assert sorted[f] in facts;
    var g :| 0 <= g < |facts| && facts[g] == sorted[f];
    assert Witnessed(deps, facts[g]);
    i :| 0 <= i < |deps| && FactOf(deps[i]) == facts[g];
  }

  lemma ConsecutiveNumbers(deps: seq<Dependency>, facts: seq<Fact>, sorted: seq<Fact>)
    requires Timed(deps) && Collected(deps, facts) && SameFacts(sorted, facts) && Consecutive(sorted)
    ensures Numbered(deps, |sorted|)
  {
    hide Collected, SameFacts;
    forall i | 0 <= i < |deps|
      ensures 1 <= deps[i].acquisitionOrdinal <= |sorted| && sorted[deps[i].acquisitionOrdinal - 1] == FactOf(deps[i])
    {
      FactAt(deps, facts, sorted, i);
    }
    CollectedIsOneChronology(deps, facts);
    forall n | 1 <= n <= |sorted|
      ensures UsesOrdinal(deps, n)
    {
      var i := DependencyAt(deps, facts, sorted, n - 1);
    }
  }

  method CheckConsecutive(sorted: seq<Fact>) returns (ok: bool)
    ensures ok <==> Consecutive(sorted)
  {
    for index := 0 to |sorted|
      invariant forall f :: 0 <= f < index ==> sorted[f].ordinal == f + 1
    {
      if sorted[index].ordinal != index + 1 {
        return false;
      }
    }
    ok := true;
  }

  // ---- acquisition order ---------------------------------------------------------------------------------------

  /** The time an order compares, of a fact that has it. */
  function OrderTime(order: AcquisitionOrder, fact: Fact): int {
    if order.SourceTimeAscending? && fact.source.Observed? then fact.source.time.Total() else fact.receipt.Total()
  }

  predicate TimesAscend(order: AcquisitionOrder, sorted: seq<Fact>) {
    forall f, g :: 0 <= f < g < |sorted| ==> OrderTime(order, sorted[f]) <= OrderTime(order, sorted[g])
  }

  /** Neighbours in order are enough for all pairs. */
  method CheckAscending(order: AcquisitionOrder, sorted: seq<Fact>) returns (ok: bool)
    ensures ok <==> TimesAscend(order, sorted)
  {
    if |sorted| == 0 {
      return true;
    }
    for index := 1 to |sorted|
      invariant forall f, g :: 0 <= f < g < index ==> OrderTime(order, sorted[f]) <= OrderTime(order, sorted[g])
    {
      if OrderTime(order, sorted[index]) < OrderTime(order, sorted[index - 1]) {
        return false;
      }
      assert forall f :: 0 <= f < index ==> OrderTime(order, sorted[f]) <= OrderTime(order, sorted[index - 1]);
    }
    ok := true;
  }

  method CheckDeclarationOrder(deps: seq<Dependency>) returns (ok: bool)
    ensures ok <==> forall i, j :: 0 <= i < j < |deps| ==> deps[i].acquisitionOrdinal <= deps[j].acquisitionOrdinal
  {
    var previous: uint32 := 0;
    for index := 0 to |deps|
      invariant forall i, j :: 0 <= i < j < index ==> deps[i].acquisitionOrdinal <= deps[j].acquisitionOrdinal
      invariant index > 0 ==> previous == deps[index - 1].acquisitionOrdinal
      invariant forall i :: 0 <= i < index ==> deps[i].acquisitionOrdinal <= previous
    {
      if index != 0 && deps[index].acquisitionOrdinal < previous {
        return false;
      }
      previous := deps[index].acquisitionOrdinal;
    }
    ok := true;
  }

  lemma AscendDecides(order: AcquisitionOrder, deps: seq<Dependency>, facts: seq<Fact>, sorted: seq<Fact>)
    requires Timed(deps) && Collected(deps, facts) && SameFacts(sorted, facts) && Consecutive(sorted)
    requires order.ReceiptTimeAscending? || (order.SourceTimeAscending? && NoUnavailable(deps))
    ensures TimesAscend(order, sorted) <==> Ordered(order, deps)
  {
    hide Collected, SameFacts;
    forall i | 0 <= i < |deps|
      ensures 1 <= deps[i].acquisitionOrdinal <= |sorted| && sorted[deps[i].acquisitionOrdinal - 1] == FactOf(deps[i])
    {
      FactAt(deps, facts, sorted, i);
    }
    if Ordered(order, deps) {
      forall f, g | 0 <= f < g < |sorted|
        ensures OrderTime(order, sorted[f]) <= OrderTime(order, sorted[g])
      {
        var i := DependencyAt(deps, facts, sorted, f);
        var j := DependencyAt(deps, facts, sorted, g);
        assert deps[i].acquisitionOrdinal < deps[j].acquisitionOrdinal;
      }
    }
  }

  method CheckOrder(order: AcquisitionOrder, deps: seq<Dependency>, sorted: seq<Fact>, unavailable: bool, ghost facts: seq<Fact>)
    returns (ok: bool)
    requires Timed(deps) && Collected(deps, facts) && SameFacts(sorted, facts) && Consecutive(sorted)
    requires unavailable <==> !NoUnavailable(deps)
    ensures ok <==> Ordered(order, deps)
  {
    hide Collected, SameFacts, Consecutive, TimesAscend;
    match order {
      case DeclarationOrder => ok := CheckDeclarationOrder(deps);
      case SourceTimeAscending =>
        if unavailable {
          return false;
        }
        AscendDecides(order, deps, facts, sorted);
        ok := CheckAscending(order, sorted);
      case ReceiptTimeAscending =>
        AscendDecides(order, deps, facts, sorted);
        ok := CheckAscending(order, sorted);
      case OtherOrder(_) => ok := false;
    }
  }

  // ---- skew and envelope -----------------------------------------------------------------------------------------

  /** The extremes of the facts are the extremes of the dependencies. */
  lemma ReceiptExtremes(deps: seq<Dependency>, facts: seq<Fact>, range: TimeRange)
    requires Timed(deps) && Collected(deps, facts) && |deps| > 0 && range.Holds(Receipts(facts))
    ensures range.known && LatestReceipt(deps, range.latest)
    ensures exists i :: 0 <= i < |deps| && deps[i].receipt.value == range.earliest
    ensures forall i :: 0 <= i < |deps| ==> range.earliest.Total() <= deps[i].receipt.value.Total() <= range.latest.Total()
  {
    assert FactOf(deps[0]) in facts;
    var times := Receipts(facts);
    var e :| 0 <= e < |times| && times[e] == range.earliest;
    var l :| 0 <= l < |times| && times[l] == range.latest;
    assert Witnessed(deps, facts[e]) && Witnessed(deps, facts[l]);
    forall i | 0 <= i < |deps|
      ensures range.earliest.Total() <= deps[i].receipt.value.Total() <= range.latest.Total()
    {
      var f :| 0 <= f < |facts| && facts[f] == FactOf(deps[i]);
      assert times[f] == deps[i].receipt.value;
    }
  }

  lemma SourceExtremes(deps: seq<Dependency>, facts: seq<Fact>, range: TimeRange)
    requires Timed(deps) && Collected(deps, facts) && |deps| > 0 && range.Holds(Sources(facts)) && NoUnavailable(deps)
    ensures range.known && LatestSource(deps, range.latest)
    ensures exists i :: 0 <= i < |deps| && deps[i].source.time == range.earliest
    ensures forall i :: 0 <= i < |deps| ==> range.earliest.Total() <= deps[i].source.time.Total() <= range.latest.Total()
  {
    var times := Sources(facts);
    forall i | 0 <= i < |deps|
      ensures deps[i].source.time in times
    {
      var f :| 0 <= f < |facts| && facts[f] == FactOf(deps[i]);
      assert facts[f].source == Observed(deps[i].source.time);
    }
    assert deps[0].source.time in times;
    SourceWitness(deps, facts, range.earliest);
    SourceWitness(deps, facts, range.latest);
    forall i | 0 <= i < |deps|
      ensures range.earliest.Total() <= deps[i].source.time.Total() <= range.latest.Total()
    {
      var k :| 0 <= k < |times| && times[k] == deps[i].source.time;
    }
  }

  lemma SourceWitness(deps: seq<Dependency>, facts: seq<Fact>, time: Instant)
    requires Timed(deps) && Collected(deps, facts) && NoUnavailable(deps) && time in Sources(facts)
    ensures exists i :: 0 <= i < |deps| && deps[i].source.time == time
  {
    var f :| 0 <= f < |facts| && facts[f].source == Observed(time);
    assert Witnessed(deps, facts[f]);
    var i :| 0 <= i < |deps| && FactOf(deps[i]) == facts[f];
  }

  lemma UnavailableFacts(deps: seq<Dependency>, facts: seq<Fact>)
    requires Timed(deps) && Collected(deps, facts)
    ensures NoUnavailable(deps) <==> !exists f :: 0 <= f < |facts| && facts[f].source.Unavailable?
    ensures forall f :: 0 <= f < |facts| ==> ValidSourceTime(facts[f].source)
  {
    forall f | 0 <= f < |facts|
      ensures ValidSourceTime(facts[f].source) && (NoUnavailable(deps) ==> facts[f].source.Observed?)
    {
      assert Witnessed(deps, facts[f]);
    }
    if !NoUnavailable(deps) {
      var i :| 0 <= i < |deps| && !deps[i].source.Observed?;
      var f :| 0 <= f < |facts| && facts[f] == FactOf(deps[i]);
      assert facts[f].source.Unavailable?;
    }
  }

  /** A latest time is unique. */
  lemma LatestIsUnique(deps: seq<Dependency>, a: Instant, b: Instant)
    requires Timed(deps)
    ensures LatestReceipt(deps, a) && LatestReceipt(deps, b) ==> a == b
    ensures NoUnavailable(deps) && LatestSource(deps, a) && LatestSource(deps, b) ==> a == b
  {
    BeforeIsLess(a, b);
  }

  method CheckSkew(policy: Policy, deps: seq<Dependency>, receipts: TimeRange, sources: TimeRange, unavailable: bool,
                   ghost facts: seq<Fact>) returns (ok: bool)
    requires Timed(deps) && Collected(deps, facts) && |deps| > 0
    requires receipts.Holds(Receipts(facts)) && sources.Holds(Sources(facts))
    requires unavailable <==> !NoUnavailable(deps)
    ensures ok <==> WithinSkew(policy, deps)
  {
    hide Collected, TimeRange.Holds, LatestReceipt, LatestSource;
    ReceiptExtremes(deps, facts, receipts);
    var exceeds := ExceedsTimeSkew(receipts.earliest, receipts.latest, policy.maximumReceiptSkew);
    if exceeds {
      return false;
    }
    if unavailable {
      return true;
    }
    SourceExtremes(deps, facts, sources);
    exceeds := ExceedsTimeSkew(sources.earliest, sources.latest, policy.maximumSourceSkew);
    return !exceeds;
  }

  method CheckEnvelope(envelope: Envelope, deps: seq<Dependency>, receipts: TimeRange, sources: TimeRange, unavailable: bool,
                       ghost facts: seq<Fact>) returns (ok: bool)
    requires Timed(deps) && Collected(deps, facts) && |deps| > 0
    requires receipts.Holds(Receipts(facts)) && sources.Holds(Sources(facts))
    requires unavailable <==> !NoUnavailable(deps)
    ensures ok <==> EnvelopeExact(envelope, deps)
  {
    hide Collected, TimeRange.Holds, LatestReceipt, LatestSource;
    ReceiptExtremes(deps, facts, receipts);
    if envelope.receipt.None? {
      return false;
    }
    LatestIsUnique(deps, envelope.receipt.value, receipts.latest);
    if envelope.receipt.value != receipts.latest {
      return false;
    }
    if unavailable {
      return envelope.source.Unavailable?;
    }
    SourceExtremes(deps, facts, sources);
    if !sources.known || !envelope.source.Observed? {
      return false;
    }
    LatestIsUnique(deps, envelope.source.time, sources.latest);
    return envelope.source.time == sources.latest;
  }

  /** Any two dependencies of a coherent sample come from one source and one round of
      retries, and carry the marker the policy asks for. */
  lemma DependenciesAgree(policy: Policy, envelope: Envelope, deps: seq<Dependency>, i: nat, j: nat)
    requires BoundedCoherent(policy, envelope, deps) && i < |deps| && j < |deps|
    ensures var a, b := deps[i].view.identity, deps[j].view.identity;
      && a.endpoint == b.endpoint && a.connectionID == b.connectionID && a.unitID == b.unitID && a.transport == b.transport
      && (policy.requireGenerationEquality ==> a.transportGeneration == b.transportGeneration)
    ensures deps[i].retryOrdinal == deps[j].retryOrdinal == envelope.retryOrdinal != 0 && deps[i].acquisitionOrdinal != 0
    ensures deps[i].receipt.Some? && (deps[i].source.Observed? || deps[i].source.Unavailable?)
    ensures policy.marker != "" ==> deps[i].marker == policy.marker
  {
    hide OneChronology, Numbered, Ordered, WithinSkew, EnvelopeExact;
    assert Admitted(policy, envelope, deps[0], deps[i]) && Admitted(policy, envelope, deps[0], deps[j]);
  }

  // ---- the whole check -----------------------------------------------------------------------------------------------

  /** The bounded multi-response branch of validateObservationCoherence. */
  method ValidateBounded(policy: Policy, envelope: Envelope, deps: seq<Dependency>) returns (ok: bool)
    requires |deps| > 0
    ensures ok <==> BoundedCoherent(policy, envelope, deps)
  {
    hide AllAdmitted, OneChronology, Numbered, Ordered, WithinSkew, EnvelopeExact, Collected, Ascending, Consecutive,
         DistinctOrdinals, SameFacts, DistinctWires, TimeRange.Holds;
    if envelope.retryOrdinal == 0 {
      return false;
    }
    var facts;
    ok, facts := CollectFacts(policy, envelope, deps);
    if !ok {
      return;
    }
    UnavailableFacts(deps, facts);
    CollectedWires(deps, facts);
    var distinct, receipts, sources, unavailable := ScanFacts(facts);
    if !distinct {
      DuplicateIsUnnumbered(deps, facts);
      return false;
    }
    var sorted := SortByOrdinal(facts);
    ConsecutiveDecides(deps, facts, sorted);
    ok := CheckConsecutive(sorted);
    if !ok {
      return;
    }
    ok := CheckOrder(policy.order, deps, sorted, unavailable, facts);
    if !ok {
      return;
    }
    ok := CheckSkew(policy, deps, receipts, sources, unavailable, facts);
    if !ok {
      return;
    }
    ok := CheckEnvelope(envelope, deps, receipts, sources, unavailable, facts);
  }

  lemma CollectedWires(deps: seq<Dependency>, facts: seq<Fact>)
    requires Timed(deps) && Collected(deps, facts)
    ensures DistinctWires(facts)
  {
  }

  lemma DuplicateIsUnnumbered(deps: seq<Dependency>, facts: seq<Fact>)
    requires Timed(deps) && Collected(deps, facts) && !DistinctOrdinals(facts)
    ensures !exists count: nat :: Numbered(deps, count)
  {
    hide Numbered, Collected, DistinctOrdinals;
    if count: nat :| Numbered(deps, count) {
      NumberedFacts(deps, facts, count);
    }
  }

  function Views(deps: seq<Dependency>): (views: seq<LogicalView>)
    ensures |views| == |deps| && forall i :: 0 <= i < |deps| ==> views[i] == deps[i].view
  {
    seq(|deps|, i requires 0 <= i < |deps| => deps[i].view)
  }

  /** A single-response sample: one wire response, no time or retry identity. */
  predicate SingleCoherent(envelope: Envelope, deps: seq<Dependency>)
    requires |deps| > 0
  {
    && (deps[0].view.identity.transport.RTU? ==> |deps| == 1)
    && envelope.retryOrdinal == 0
    && forall i :: 0 <= i < |deps| ==>
        && deps[i].retryOrdinal == 0 && deps[i].acquisitionOrdinal == 0
        && deps[i].source.Unavailable? && deps[i].receipt.None?
        && deps[i].view.wireResponseID == deps[0].view.wireResponseID
  }

  method ValidateSingle(envelope: Envelope, deps: seq<Dependency>) returns (ok: bool)
    requires |deps| > 0
    ensures ok <==> SingleCoherent(envelope, deps)
  {
    if deps[0].view.identity.transport.RTU? && |deps| != 1 {
      return false;
    }
    if envelope.retryOrdinal != 0 {
      return false;
    }
    for index := 0 to |deps|
      invariant forall i :: 0 <= i < index ==>
        && deps[i].retryOrdinal == 0 && deps[i].acquisitionOrdinal == 0
        && deps[i].source.Unavailable? && deps[i].receipt.None?
        && deps[i].view.wireResponseID == deps[0].view.wireResponseID
    {
      var d := deps[index];
      if d.retryOrdinal != 0 || d.acquisitionOrdinal != 0 || !d.source.Unavailable? || d.receipt.Some? {
        return false;
      }
      if index == 0 {
        continue;
      }
      if d.view.wireResponseID != deps[0].view.wireResponseID {
        return false;
      }
    }
    ok := true;
  }

  ghost predicate ObservationCoherent(policy: Policy, envelope: Envelope, deps: seq<Dependency>) {
    && |deps| > 0
    && Coherent(Views(deps))
    && match policy.mode
       case SingleWireResponse => SingleCoherent(envelope, deps)
       case BoundedMultiResponse => BoundedCoherent(policy, envelope, deps)
       case OtherMode(_) => false
  }

  /** validateObservationCoherence. */
  method ValidateObservationCoherence(policy: Policy, envelope: Envelope, deps: seq<Dependency>) returns (ok: bool)
    requires ValidViews(Views(deps))
    ensures ok <==> ObservationCoherent(policy, envelope, deps)
  {
    hide Coherent, ValidViews, SingleCoherent, BoundedCoherent;
    if |deps| == 0 {
      return false;
    }
    ok := ValidateWireResponseGroups(Views(deps));
    if !ok {
      return;
    }
    match policy.mode {
      case SingleWireResponse => ok := ValidateSingle(envelope, deps);
      case BoundedMultiResponse => ok := ValidateBounded(policy, envelope, deps);
      case OtherMode(_) => ok := false;
    }
  }

  // ---- what an accepted sample guarantees ------------------------------------------------------------------------------

  /** The ordinals of an accepted bounded sample count its physical responses. */
  lemma OrdinalsCountResponses(deps: seq<Dependency>, count: nat)
    requires Numbered(deps, count)
    ensures |set d | d in deps :: d.view.wireResponseID| == count
  {
    var wires := set d | d in deps :: d.view.wireResponseID;
    forall w | w in wires
      ensures exists i :: 0 <= i < |deps| && deps[i].view.wireResponseID == w
    {
      var d :| d in deps && d.view.wireResponseID == w;
    }
    CountByOrdinal(deps, count, count);
    assert wires == WiresUpTo(deps, count);
  }

  function WiresUpTo(deps: seq<Dependency>, n: nat): set<uint64> {
    set d | d in deps && d.acquisitionOrdinal <= n :: d.view.wireResponseID
  }

  lemma ResponseOfOrdinal(deps: seq<Dependency>, count: nat, n: nat) returns (i: nat)
    requires Numbered(deps, count) && 1 <= n <= count
    ensures i < |deps| && deps[i].acquisitionOrdinal == n
    ensures forall d :: d in deps ==> (d.view.wireResponseID == deps[i].view.wireResponseID <==> d.acquisitionOrdinal == n)
  {
    assert UsesOrdinal(deps, n);
    i :| 0 <= i < |deps| && deps[i].acquisitionOrdinal == n;
  }

  lemma {:induction false} CountByOrdinal(deps: seq<Dependency>, count: nat, n: nat)
    requires Numbered(deps, count) && n <= count
    ensures |WiresUpTo(deps, n)| == n
  {
    if n == 0 {
      NoneBelowOne(deps, count);
    } else {
      hide Numbered;
      CountByOrdinal(deps, count, n - 1);
      var i := ResponseOfOrdinal(deps, count, n);
      var w := deps[i].view.wireResponseID;
      assert deps[i] in deps;
      assert WiresUpTo(deps, n) == WiresUpTo(deps, n - 1) + {w};
    }
  }

  lemma NoneBelowOne(deps: seq<Dependency>, count: nat)
    requires Numbered(deps, count)
    ensures WiresUpTo(deps, 0) == {}
  {
    forall d | d in deps
      ensures d.acquisitionOrdinal >= 1
    {
      var i :| 0 <= i < |deps| && deps[i] == d;
    }
  }
}
