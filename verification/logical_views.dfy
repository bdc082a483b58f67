/** Logical views of shared physical responses: the one-pass group check with
    in-place word buffers, the pairwise relation it decides, and the physical
    responses whose slices the accepted views are. */
module LogicalViews {
  import opened Foundation

  /** Registers one FC03 or FC04 response can carry. */
  const MAX_READ_REGISTERS: int := 125
  const MAX_WIRE_RESPONSE_EVIDENCE_BYTES: int := 2 * MAX_READ_REGISTERS + 32

  datatype Transport = TCP | RTU | OtherTransport(name: string)
  datatype FunctionCode = ReadHoldingRegisters | ReadInputRegisters | OtherFunction(code: uint8)
  datatype Table = HoldingRegisters | InputRegisters | OtherTable(name: string)

  /** Everything that identifies one physical request and its answer. */
  datatype PhysicalIdentity = PhysicalIdentity(
    physicalRequestID: uint64,
    endpoint: string,
    connectionID: uint64,
    transport: Transport,
    transportGeneration: uint64,
    unitID: uint8,
    requestedFunction: FunctionCode,
    receivedFunction: FunctionCode,
    table: Table,
    physicalOffset: uint16,
    physicalWordCount: uint16,
    authorizationScope: string,
    pollGeneration: uint64,
    deadlineIdentity: uint64)

  datatype RequestKey = RequestKey(
    endpoint: string,
    connectionID: uint64,
    transport: Transport,
    transportGeneration: uint64,
    physicalRequestID: uint64)

  /** LogicalViewRecord; the physical fields are one component. */
  datatype LogicalView = LogicalView(
    identity: PhysicalIdentity,
    logicalViewID: uint64,
    wireResponseID: uint64,
    logicalOffset: uint16,
    logicalWordCount: uint16,
    sliceOffset: uint16,
    sliceWordCount: uint16,
    words: seq<uint16>,
    wireResponseBytes: seq<uint8>)
  {
    function Key(): RequestKey {
      RequestKey(identity.endpoint, identity.connectionID, identity.transport, identity.transportGeneration,
                 identity.physicalRequestID)
    }

    function Start(): int { logicalOffset }

    function End(): int { logicalOffset + logicalWordCount }

    /** Word p of the physical response lies in this view's slice. */
    predicate Covers(p: int) { sliceOffset <= p < sliceOffset + |words| }

    function WordAt(p: int): uint16
      requires Covers(p)
    {
      words[p - sliceOffset]
    }
  }

  // ---- one view --------------------------------------------------------------------

  /** NewLogicalViewSnapshot, without the UTF-8 and length bounds of its strings. */
  predicate ValidView(v: LogicalView) {
    var id := v.identity;
    && 0 < |v.wireResponseBytes| <= MAX_WIRE_RESPONSE_EVIDENCE_BYTES
    && |v.words| <= MAX_READ_REGISTERS
    && v.logicalViewID != 0 && v.wireResponseID != 0 && id.physicalRequestID != 0
    && id.endpoint != "" && id.transportGeneration != 0 && 0 < id.unitID <= 247
    && id.authorizationScope != "" && id.pollGeneration != 0 && id.deadlineIdentity != 0
    && 0 < id.physicalWordCount <= MAX_READ_REGISTERS
    && 0 < v.logicalWordCount <= MAX_READ_REGISTERS && v.sliceWordCount != 0
    && !id.transport.OtherTransport?
    && (id.transport.TCP? ==> id.connectionID != 0)
    && (id.transport.RTU? ==>
        && id.connectionID == 0 && id.physicalOffset == v.logicalOffset
        && id.physicalWordCount == v.logicalWordCount && v.sliceOffset == 0)
    && !id.requestedFunction.OtherFunction? && id.receivedFunction == id.requestedFunction
    && id.table == (if id.requestedFunction.ReadHoldingRegisters? then HoldingRegisters else InputRegisters)
    && id.physicalOffset + id.physicalWordCount <= 65536
    && v.logicalOffset + v.logicalWordCount <= 65536
    && v.sliceOffset + v.sliceWordCount <= id.physicalWordCount
    && v.logicalWordCount == v.sliceWordCount && |v.words| == v.logicalWordCount
    && id.physicalOffset + v.sliceOffset == v.logicalOffset
  }

  predicate ValidViews(views: seq<LogicalView>) {
    forall i :: 0 <= i < |views| ==> ValidView(views[i])
  }

  // ---- the pairwise relation ---------------------------------------------------------

  ghost predicate WordsAgree(a: LogicalView, b: LogicalView) {
    forall p :: a.Covers(p) && b.Covers(p) ==> a.WordAt(p) == b.WordAt(p)
  }

  predicate Intersect(a: LogicalView, b: LogicalView) {
    a.Start() < b.End() && b.Start() < a.End()
  }

  /** What two views of one physical response owe each other. */
  ghost predicate ShareResponse(a: LogicalView, b: LogicalView) {
    && a.wireResponseID == b.wireResponseID
    && a.wireResponseBytes == b.wireResponseBytes
    && a.logicalViewID != b.logicalViewID
    && WordsAgree(a, b)
    && (a.identity.transport.TCP? ==> Intersect(a, b))
  }

  ghost predicate Compatible(a: LogicalView, b: LogicalView) {
    && (a.identity.transport.RTU? && b.identity.transport.RTU? ==> a.wireResponseID != b.wireResponseID)
    && (a.Key() == b.Key() ==> a.identity == b.identity)
    && (a.wireResponseID == b.wireResponseID ==> a.identity == b.identity)
    && (a.identity == b.identity ==> ShareResponse(a, b))
  }

  lemma CompatibleSymmetric(a: LogicalView, b: LogicalView)
    ensures Compatible(a, b) <==> Compatible(b, a)
  {
  }

  ghost predicate Coherent(views: seq<LogicalView>) {
    forall i, j :: 0 <= i < j < |views| ==> Compatible(views[i], views[j])
  }

  // ---- coherence does not depend on the order of the dependencies ------------------------

  /** Coherence says something about the collection only: no view twice, and any
      two different views compatible. */
  lemma CoherentAsCollection(views: seq<LogicalView>)
    ensures Coherent(views) <==>
      && (forall v :: v in views ==> multiset(views)[v] == 1)
      && (forall v, w :: v in views && w in views && v != w ==> Compatible(v, w))
  {
    if Coherent(views) {
      forall v | v in views
        ensures multiset(views)[v] == 1
      {
        var i :| 0 <= i < |views| && views[i] == v;
        OccursOnce(views, i);
      }
      forall v, w | v in views && w in views && v != w
        ensures Compatible(v, w)
      {
        var i :| 0 <= i < |views| && views[i] == v;
        var j :| 0 <= j < |views| && views[j] == w;
        CompatibleSymmetric(v, w);
      }
    } else {
      var i, j :| 0 <= i < j < |views| && !Compatible(views[i], views[j]);
      if views[i] == views[j] {
        OccursTwice(views, i, j);
      }
    }
  }

  lemma OccursOnce(views: seq<LogicalView>, i: nat)
    requires i < |views| && Coherent(views)
    ensures multiset(views)[views[i]] == 1
  {
    var v, before, after := views[i], views[..i], views[i + 1..];
    assert views == before + [v] + after;
    forall k | 0 <= k < |before|
      ensures before[k] != v
    {
      assert Compatible(views[k], views[i]);
    }
    forall k | 0 <= k < |after|
      ensures after[k] != v
    {
      assert Compatible(views[i], views[i + 1 + k]);
    }
    assert v !in before && v !in after;
  }

  lemma OccursTwice(views: seq<LogicalView>, i: nat, j: nat)
    requires i < j < |views| && views[i] == views[j]
    ensures multiset(views)[views[i]] >= 2
  {
    assert views == views[..i] + [views[i]] + views[i + 1..j] + [views[j]] + views[j + 1..];
  }

  /** The verdict is invariant under permuting the dependencies. */
  lemma CoherentUnderPermutation(views: seq<LogicalView>, permuted: seq<LogicalView>)
    requires multiset(views) == multiset(permuted)
    ensures Coherent(views) <==> Coherent(permuted)
  {
    hide Compatible, Coherent;
    CoherentAsCollection(views);
    CoherentAsCollection(permuted);
    forall v
      ensures v in views <==> v in permuted
    {
      assert v in multiset(views) <==> v in multiset(permuted);
    }
  }

  // ---- coherence means shared physical responses --------------------------------------------

  /** One physical response: its wire identity, its exact bytes, its words, and
      an address inside every view taken of it over TCP. */
  datatype PhysicalResponse = PhysicalResponse(wireResponseID: uint64, wireResponseBytes: seq<uint8>, words: seq<uint16>, address: int)

  /** v is exactly the slice of response r that it claims to be. */
  predicate SliceOf(v: LogicalView, r: PhysicalResponse) {
    && v.wireResponseID == r.wireResponseID
    && v.wireResponseBytes == r.wireResponseBytes
    && |r.words| == v.identity.physicalWordCount
    && v.sliceOffset + |v.words| <= |r.words|
    && v.words == r.words[v.sliceOffset..v.sliceOffset + |v.words|]
    && (v.identity.transport.TCP? ==> v.Start() <= r.address < v.End())
  }

  /** One identity per wire response and per request key, view identities
      distinct within a response, and RTU responses unshared. */
  predicate SameOrigin(a: LogicalView, b: LogicalView) {
    && (a.wireResponseID == b.wireResponseID ==> a.identity == b.identity)
    && (a.Key() == b.Key() ==> a.identity == b.identity)
    && (a.identity == b.identity ==> a.logicalViewID != b.logicalViewID && !a.identity.transport.RTU?)
  }

  /** The views come from physical responses: one response per identity, every
      view a slice of its response. */
  predicate Explained(views: seq<LogicalView>, responses: map<PhysicalIdentity, PhysicalResponse>) {
    && (forall i :: 0 <= i < |views| ==>
        views[i].identity in responses && SliceOf(views[i], responses[views[i].identity]))
    && (forall i, j :: 0 <= i < j < |views| ==> SameOrigin(views[i], views[j]))
  }

  lemma ExplainedIsCoherent(views: seq<LogicalView>, responses: map<PhysicalIdentity, PhysicalResponse>)
    requires ValidViews(views) && Explained(views, responses)
    ensures Coherent(views)
  {
    forall i, j | 0 <= i < j < |views|
      ensures Compatible(views[i], views[j])
    {
      var a, b := views[i], views[j];
      if a.identity == b.identity {
        var r := responses[a.identity];
        assert SliceOf(a, r) && SliceOf(b, r);
        forall p | a.Covers(p) && b.Covers(p)
          ensures a.WordAt(p) == b.WordAt(p)
        {
          assert a.WordAt(p) == r.words[p] == b.WordAt(p);
        }
      }
    }
  }

  /** The views of one identity, in order. */
  function Members(views: seq<LogicalView>, id: PhysicalIdentity): (members: seq<LogicalView>)
    ensures forall v :: v in members <==> v in views && v.identity == id
  {
    if |views| == 0 then []
    else
      var last := views[|views| - 1];
      assert views == views[..|views| - 1] + [last];
      Extended(Members(views[..|views| - 1], id), last, id)
  }

  function Extended(members: seq<LogicalView>, v: LogicalView, id: PhysicalIdentity): seq<LogicalView> {
    if v.identity == id then members + [v] else members
  }

  predicate CoveredBy(members: seq<LogicalView>, p: int) {
    exists i :: 0 <= i < |members| && members[i].Covers(p)
  }

  ghost function BufferedWord(members: seq<LogicalView>, p: int): uint16 {
    if CoveredBy(members, p) then
      var i :| 0 <= i < |members| && members[i].Covers(p);
      members[i].WordAt(p)
    else 0
  }

  /** The largest of the logical starts; a common address of pairwise
      intersecting ranges. */
  function LatestStart(members: seq<LogicalView>): (start: int)
    requires |members| > 0
    ensures forall v :: v in members ==> v.Start() <= start
    ensures exists v :: v in members && v.Start() == start
  {
    if |members| == 1 then
      assert members[0] in members;
      members[0].Start()
    else
      var last := members[|members| - 1];
      var rest := members[..|members| - 1];
      assert members == rest + [last];
      assert last in members;
      assert forall v :: v in rest ==> v in members;
      if LatestStart(rest) >= last.Start() then LatestStart(rest) else last.Start()
  }

  ghost function SharedResponse(members: seq<LogicalView>): PhysicalResponse
    requires |members| > 0
  {
    PhysicalResponse(members[0].wireResponseID, members[0].wireResponseBytes,
      seq(members[0].identity.physicalWordCount, p => BufferedWord(members, p)), LatestStart(members))
  }

  /** Views that pairwise share one response. */
  ghost predicate OneResponse(members: seq<LogicalView>) {
    forall a, b :: a in members && b in members && a != b ==> a.identity == b.identity && ShareResponse(a, b)
  }

  lemma BufferedWordIs(members: seq<LogicalView>, v: LogicalView, p: int)
    requires v in members && v.Covers(p) && OneResponse(members)
    ensures BufferedWord(members, p) == v.WordAt(p)
  {
    var k :| 0 <= k < |members| && members[k] == v;
    assert CoveredBy(members, p);
    var i :| 0 <= i < |members| && members[i].Covers(p) && BufferedWord(members, p) == members[i].WordAt(p);
    assert members[i] in members;
  }

  lemma LatestStartIsCommon(members: seq<LogicalView>, v: LogicalView)
    requires v in members && ValidView(v) && OneResponse(members) && v.identity.transport.TCP?
    ensures v.Start() <= LatestStart(members) < v.End()
  {
    var latest :| latest in members && latest.Start() == LatestStart(members);
  }

  lemma MemberIsSlice(members: seq<LogicalView>, v: LogicalView)
    requires v in members && ValidView(v) && OneResponse(members)
    ensures SliceOf(v, SharedResponse(members))
  {
    hide LatestStart, BufferedWord, CoveredBy, Intersect, WordsAgree;
    var r := SharedResponse(members);
    var from, count := v.sliceOffset, |v.words|;
    assert members[0] in members;
    forall k | 0 <= k < count
      ensures v.words[k] == r.words[from..from + count][k]
    {
      BufferedWordIs(members, v, from + k);
    }
    if v.identity.transport.TCP? {
      LatestStartIsCommon(members, v);
    }
  }

  /** Coherent views are exactly those that some physical responses explain. */
  lemma CoherentIsExplained(views: seq<LogicalView>)
    requires ValidViews(views)
    ensures Coherent(views) <==> exists responses :: Explained(views, responses)
  {
    hide Coherent, Explained;
    if Coherent(views) {
      var responses := CoherentHasResponses(views);
    }
    if responses :| Explained(views, responses) {
      ExplainedIsCoherent(views, responses);
    }
  }

  lemma MembersShareOneResponse(views: seq<LogicalView>, id: PhysicalIdentity)
    requires Coherent(views)
    ensures OneResponse(Members(views, id))
  {
    hide Coherent, ShareResponse, Members;
    CoherentAsCollection(views);
    forall a, b | a in Members(views, id) && b in Members(views, id) && a != b
      ensures a.identity == b.identity && ShareResponse(a, b)
    {
      assert Compatible(a, b);
    }
  }

  lemma CoherentHasResponses(views: seq<LogicalView>) returns (responses: map<PhysicalIdentity, PhysicalResponse>)
    requires ValidViews(views) && Coherent(views)
    ensures Explained(views, responses)
  {
    hide ValidView, ShareResponse, SliceOf, Members, SharedResponse, OneResponse;
    var identities := set v | v in views :: v.identity;
    responses := map id | id in identities && |Members(views, id)| > 0 :: SharedResponse(Members(views, id));
    forall i | 0 <= i < |views|
      ensures views[i].identity in responses && SliceOf(views[i], responses[views[i].identity])
    {
      var v := views[i];
      assert v in views && v in Members(views, v.identity);
      MembersShareOneResponse(views, v.identity);
      MemberIsSlice(Members(views, v.identity), v);
    }
    forall i, j | 0 <= i < j < |views|
      ensures SameOrigin(views[i], views[j])
    {
      assert Compatible(views[i], views[j]);
      CompatibleOrigin(views[i], views[j]);
    }
  }

  lemma CompatibleOrigin(a: LogicalView, b: LogicalView)
    requires Compatible(a, b)
    ensures SameOrigin(a, b)
  {
  }

  // ---- one physical group, in place -----------------------------------------------------------

  /** The word buffer of a group: which words are known, and to which value. */
  ghost predicate BufferHolds(known: seq<bool>, words: seq<uint16>, members: seq<LogicalView>) {
    && |known| == |words|
    && (forall i :: 0 <= i < |members| ==> members[i].sliceOffset + |members[i].words| <= |words|)
    && (forall p :: 0 <= p < |known| ==> (known[p] <==> CoveredBy(members, p)))
    && (forall i, p :: 0 <= i < |members| && members[i].Covers(p) ==> words[p] == members[i].WordAt(p))
  }

  /** The running bounds over the logical ranges of the members. */
  predicate BoundsHold(latestStart: int, earliestEnd: int, members: seq<LogicalView>) {
    && (forall i :: 0 <= i < |members| ==> members[i].Start() <= latestStart && earliestEnd <= members[i].End())
    && (|members| > 0 ==> exists i :: 0 <= i < |members| && members[i].Start() == latestStart)
    && (|members| > 0 ==> exists i :: 0 <= i < |members| && members[i].End() == earliestEnd)
  }

  lemma BoundsExtend(latestStart: int, earliestEnd: int, members: seq<LogicalView>, v: LogicalView)
    requires BoundsHold(latestStart, earliestEnd, members)
    requires |members| == 0 ==> latestStart == v.Start() && earliestEnd == v.End()
    ensures BoundsHold(if v.Start() > latestStart then v.Start() else latestStart,
                       if v.End() < earliestEnd then v.End() else earliestEnd, members + [v])
  {
    var longer := members + [v];
    assert longer[|members|] == v;
    assert forall i :: 0 <= i < |members| ==> longer[i] == members[i];
    if |members| > 0 {
      var i :| 0 <= i < |members| && members[i].Start() == latestStart;
      var j :| 0 <= j < |members| && members[j].End() == earliestEnd;
      assert longer[i].Start() == latestStart && longer[j].End() == earliestEnd;
    }
  }

  lemma BufferExtends(known: seq<bool>, words: seq<uint16>, members: seq<LogicalView>, v: LogicalView,
                      known': seq<bool>, words': seq<uint16>)
    requires BufferHolds(known, words, members) && v.sliceOffset + |v.words| <= |words|
    requires |known'| == |words'| == |words|
    requires forall p :: 0 <= p < |words| ==> (known'[p] <==> known[p] || v.Covers(p))
    requires forall p :: 0 <= p < |words| ==> words'[p] == if v.Covers(p) then v.WordAt(p) else words[p]
    requires forall p :: 0 <= p < |words| && v.Covers(p) && known[p] ==> words[p] == v.WordAt(p)
    ensures BufferHolds(known', words', members + [v])
  {
    var longer := members + [v];
    assert longer[|members|] == v;
    assert forall i :: 0 <= i < |members| ==> longer[i] == members[i];
    forall p | 0 <= p < |known'|
      ensures known'[p] <==> CoveredBy(longer, p)
    {
      if known[p] {
        var i :| 0 <= i < |members| && members[i].Covers(p);
        assert longer[i].Covers(p);
      } else if v.Covers(p) {
        assert longer[|members|].Covers(p);
      }
    }
    forall i, p | 0 <= i < |longer| && longer[i].Covers(p)
      ensures words'[p] == longer[i].WordAt(p)
    {
      if i < |members| {
        assert members[i].Covers(p) && known[p];
      }
    }
  }

  /** The buffer decides agreement with every member at once. */
  lemma BufferDecides(known: seq<bool>, words: seq<uint16>, members: seq<LogicalView>, v: LogicalView)
    requires BufferHolds(known, words, members) && v.sliceOffset + |v.words| <= |words|
    ensures (forall p :: 0 <= p < |words| && v.Covers(p) && known[p] ==> words[p] == v.WordAt(p))
      <==> (forall i :: 0 <= i < |members| ==> WordsAgree(v, members[i]))
  {
    if forall p :: 0 <= p < |words| && v.Covers(p) && known[p] ==> words[p] == v.WordAt(p) {
      forall i, p | 0 <= i < |members| && v.Covers(p) && members[i].Covers(p)
        ensures v.WordAt(p) == members[i].WordAt(p)
      {
        assert CoveredBy(members, p);
      }
    } else {
      var p :| 0 <= p < |words| && v.Covers(p) && known[p] && words[p] != v.WordAt(p);
      var i :| 0 <= i < |members| && members[i].Covers(p);
      assert !WordsAgree(v, members[i]);
    }
  }

  /** physicalGroup: one response and the buffers the views fill in place. */
  class PhysicalGroup {
    const wireResponseID: uint64
    const responseBytes: seq<uint8>
    const words: array<uint16>
    const known: array<bool>
    var logicalViewIDs: set<uint64>
    var maxLogicalStart: int
    var minLogicalEnd: int
    var viewCount: nat

    ghost function Repr(): set<object> { {this, words, known} }

    ghost predicate Holds(members: seq<LogicalView>)
      reads this, words, known
    {
      && BufferHolds(known[..], words[..], members)
      && BoundsHold(maxLogicalStart, minLogicalEnd, members)
      && logicalViewIDs == (set v | v in members :: v.logicalViewID)
      && viewCount == |members|
    }

    constructor (v: LogicalView)
      ensures Holds([]) && fresh(Repr())
      ensures words.Length == v.identity.physicalWordCount
      ensures wireResponseID == v.wireResponseID && responseBytes == v.wireResponseBytes
      ensures maxLogicalStart == v.Start() && minLogicalEnd == v.End()
    {
      wireResponseID := v.wireResponseID;
      responseBytes := v.wireResponseBytes;
      words := new uint16[v.identity.physicalWordCount](_ => 0);
      known := new bool[v.identity.physicalWordCount](_ => false);
      logicalViewIDs := {};
      maxLogicalStart := v.Start();
      minLogicalEnd := v.End();
      viewCount := 0;
    }

    /** The in-place word copy: refuses the first contradiction. */
    method CopyWords(v: LogicalView) returns (ok: bool)
      requires words.Length == known.Length && v.sliceOffset + |v.words| <= words.Length
      modifies words, known
      ensures ok <==> forall p :: 0 <= p < words.Length && v.Covers(p) && old(known[p]) ==> old(words[p]) == v.WordAt(p)
      ensures ok ==> forall p :: 0 <= p < words.Length ==>
        && (known[p] <==> old(known[p]) || v.Covers(p))
        && words[p] == if v.Covers(p) then v.WordAt(p) else old(words[p])
    {
      for k := 0 to |v.words|
        invariant forall p :: 0 <= p < words.Length && !(v.sliceOffset <= p < v.sliceOffset + k) ==>
          known[p] == old(known[p]) && words[p] == old(words[p])
        invariant forall p :: v.sliceOffset <= p < v.sliceOffset + k ==>
          && known[p] && words[p] == v.WordAt(p)
          && (old(known[p]) ==> old(words[p]) == v.WordAt(p))
      {
        var position := v.sliceOffset + k;
        if known[position] && words[position] != v.words[k] {
          assert v.Covers(position);
          return false;
        }
        words[position] := v.words[k];
        known[position] := true;
      }
      return true;
    }

    /** One view of an existing or new group. */
    method Add(v: LogicalView, ghost members: seq<LogicalView>) returns (ok: bool)
      requires Holds(members) && v.sliceOffset + |v.words| <= words.Length
      requires |members| == 0 ==> maxLogicalStart == v.Start() && minLogicalEnd == v.End()
      modifies this, words, known
      ensures ok <==> forall i :: 0 <= i < |members| ==> members[i].logicalViewID != v.logicalViewID && WordsAgree(v, members[i])
      ensures ok ==> Holds(members + [v])
    {
      hide BufferHolds, BoundsHold, WordsAgree;
      BoundsExtend(maxLogicalStart, minLogicalEnd, members, v);
      BufferDecides(known[..], words[..], members, v);
      BufferShape(known[..], words[..], members);
      if v.Start() > maxLogicalStart {
        maxLogicalStart := v.Start();
      }
      if v.End() < minLogicalEnd {
        minLogicalEnd := v.End();
      }
      viewCount := viewCount + 1;
      if v.logicalViewID in logicalViewIDs {
        return false;
      }
      logicalViewIDs := logicalViewIDs + {v.logicalViewID};
      ok := CopyWords(v);
      if ok {
        BufferExtends(old(known[..]), old(words[..]), members, v, known[..], words[..]);
      }
    }
  }

  lemma BufferShape(known: seq<bool>, words: seq<uint16>, members: seq<LogicalView>)
    requires BufferHolds(known, words, members)
    ensures |known| == |words|
  {
  }

  /** One-dimensional Helly: the running bounds cross exactly when two members
      fail to intersect. */
  lemma BoundsDecide(latestStart: int, earliestEnd: int, members: seq<LogicalView>)
    requires BoundsHold(latestStart, earliestEnd, members) && |members| > 0
    ensures latestStart < earliestEnd <==> forall a, b :: a in members && b in members ==> Intersect(a, b)
  {
    if latestStart >= earliestEnd {
      var i :| 0 <= i < |members| && members[i].Start() == latestStart;
      var j :| 0 <= j < |members| && members[j].End() == earliestEnd;
      assert members[i] in members && members[j] in members && !Intersect(members[i], members[j]);
    }
  }

  // ---- the one-pass check ------------------------------------------------------------------------

  /** What the three identity maps check. */
  predicate OriginAgrees(a: LogicalView, b: LogicalView) {
    && (a.identity.transport.RTU? && b.identity.transport.RTU? ==> a.wireResponseID != b.wireResponseID)
    && (a.Key() == b.Key() ==> a.identity == b.identity)
    && (a.wireResponseID == b.wireResponseID ==> a.identity == b.identity)
  }

  /** What one view owes a view already in its group. */
  ghost predicate Fits(v: LogicalView, placed: LogicalView) {
    && v.wireResponseID == placed.wireResponseID && v.wireResponseBytes == placed.wireResponseBytes
    && v.logicalViewID != placed.logicalViewID && WordsAgree(v, placed)
  }

  /** Compatible, up to the intersection test the source defers to the end. */
  ghost predicate Admissible(a: LogicalView, b: LogicalView) {
    OriginAgrees(a, b) && (a.identity == b.identity ==> Fits(b, a))
  }

  ghost predicate AllAdmissible(views: seq<LogicalView>) {
    forall i, j :: 0 <= i < j < |views| ==> Admissible(views[i], views[j])
  }

  lemma AdmissibleExtends(views: seq<LogicalView>, v: LogicalView)
    requires AllAdmissible(views) && forall u :: u in views ==> Admissible(u, v)
    ensures AllAdmissible(views + [v])
  {
  }

  lemma AdmissibleFails(views: seq<LogicalView>, n: nat, u: LogicalView)
    requires n < |views| && u in views[..n] && !Admissible(u, views[n])
    ensures !Coherent(views)
  {
    var i :| 0 <= i < n && views[..n][i] == u;
    assert !Compatible(views[i], views[n]);
  }

  /** Over TCP, the views of one identity all intersect. */
  predicate AllIntersect(views: seq<LogicalView>) {
    forall a, b :: a in views && b in views && a.identity == b.identity && a.identity.transport.TCP? ==> Intersect(a, b)
  }

  lemma PairDecides(a: LogicalView, b: LogicalView)
    ensures Compatible(a, b) <==>
      (Admissible(a, b) && (a.identity == b.identity && a.identity.transport.TCP? ==> Intersect(a, b)))
  {
    assert WordsAgree(a, b) <==> WordsAgree(b, a);
  }

  lemma CoherentIsAdmissible(views: seq<LogicalView>)
    requires ValidViews(views)
    ensures Coherent(views) <==> AllAdmissible(views) && AllIntersect(views)
  {
    hide ValidView, Intersect, Compatible, Admissible;
    forall i, j | 0 <= i < j < |views|
      ensures Compatible(views[i], views[j]) <==>
        (Admissible(views[i], views[j]) &&
         (views[i].identity == views[j].identity && views[i].identity.transport.TCP? ==> Intersect(views[i], views[j])))
    {
      PairDecides(views[i], views[j]);
    }
    if Coherent(views) {
      forall a, b | a in views && b in views && a.identity == b.identity && a.identity.transport.TCP?
        ensures Intersect(a, b)
      {
        var i :| 0 <= i < |views| && views[i] == a;
        var j :| 0 <= j < |views| && views[j] == b;
        IntersectItself(a);
        IntersectSymmetric(a, b);
        assert i < j ==> Compatible(views[i], views[j]);
        assert j < i ==> Compatible(views[j], views[i]);
      }
    }
  }

  lemma IntersectItself(v: LogicalView)
    requires ValidView(v)
    ensures Intersect(v, v)
  {
  }

  lemma IntersectSymmetric(a: LogicalView, b: LogicalView)
    ensures Intersect(a, b) <==> Intersect(b, a)
  {
  }

  function KeyOf(v: LogicalView): RequestKey { v.Key() }

  function WireOf(v: LogicalView): uint64 { v.wireResponseID }

  /** An identity map of the pass, over the views already placed. */
  ghost predicate Indexes<K(!new)>(views: seq<LogicalView>, index: map<K, PhysicalIdentity>, key: LogicalView -> K) {
    && (forall i :: 0 <= i < |views| ==> key(views[i]) in index && index[key(views[i])] == views[i].identity)
    && (forall k :: k in index ==> exists i :: 0 <= i < |views| && key(views[i]) == k)
  }

  lemma IndexExtends<K(!new)>(views: seq<LogicalView>, index: map<K, PhysicalIdentity>, key: LogicalView -> K, v: LogicalView)
    requires Indexes(views, index, key) && (key(v) in index ==> index[key(v)] == v.identity)
    ensures Indexes(views + [v], index[key(v) := v.identity], key)
  {
    var longer, after := views + [v], index[key(v) := v.identity];
    assert longer[|views|] == v;
    assert forall i :: 0 <= i < |views| ==> longer[i] == views[i];
    forall k | k in after
      ensures exists i :: 0 <= i < |longer| && key(longer[i]) == k
    {
      if k != key(v) {
        var i :| 0 <= i < |views| && key(views[i]) == k;
        assert key(longer[i]) == k;
      }
    }
  }

  /** The RTU responses already placed. */
  ghost predicate SerialResponses(views: seq<LogicalView>, rtu: set<uint64>) {
    forall w :: w in rtu <==> exists i :: 0 <= i < |views| && views[i].identity.transport.RTU? && views[i].wireResponseID == w
  }

  lemma SerialExtends(views: seq<LogicalView>, rtu: set<uint64>, v: LogicalView)
    requires SerialResponses(views, rtu)
    ensures SerialResponses(views + [v], if v.identity.transport.RTU? then rtu + {v.wireResponseID} else rtu)
  {
    var longer := views + [v];
    assert longer[|views|] == v;
    assert forall i :: 0 <= i < |views| ==> longer[i] == views[i];
    forall w
      ensures (exists i :: 0 <= i < |longer| && longer[i].identity.transport.RTU? && longer[i].wireResponseID == w) <==>
        w in rtu || (v.identity.transport.RTU? && v.wireResponseID == w)
    {
      if w in rtu {
        var i :| 0 <= i < |views| && views[i].identity.transport.RTU? && views[i].wireResponseID == w;
        assert longer[i].identity.transport.RTU?;
      }
    }
  }

  type GroupTable = map<PhysicalIdentity, PhysicalGroup>

  /** Every object a table of groups owns. */
  ghost function Footprint(groups: GroupTable): set<object> {
    (set id | id in groups :: groups[id] as object) + (set id | id in groups :: groups[id].words as object)
    + (set id | id in groups :: groups[id].known as object)
  }

  lemma OwnsGroup(groups: GroupTable, id: PhysicalIdentity)
    requires id in groups
    ensures groups[id].Repr() <= Footprint(groups)
  {
  }

  /** Groups never share a buffer. */
  ghost predicate Separate(groups: GroupTable) {
    forall a, b :: a in groups && b in groups && a != b ==> groups[a].Repr() !! groups[b].Repr()
  }

  /** The group of one identity accounts for exactly the placed views of it. */
  ghost predicate GroupHolds(group: PhysicalGroup, id: PhysicalIdentity, views: seq<LogicalView>)
    reads group.Repr()
  {
    && group.Holds(Members(views, id))
    && group.words.Length == id.physicalWordCount
    && forall v :: v in views && v.identity == id ==>
        v.wireResponseID == group.wireResponseID && v.wireResponseBytes == group.responseBytes
  }

  ghost predicate TableHolds(groups: GroupTable, views: seq<LogicalView>)
    reads Footprint(groups)
  {
    && Separate(groups)
    && (forall v :: v in views ==> v.identity in groups)
    && (forall id :: id in groups ==> Members(views, id) != [])
    && (forall id :: id in groups ==> (OwnsGroup(groups, id); GroupHolds(groups[id], id, views)))
  }

  lemma FootprintExtends(groups: GroupTable, id: PhysicalIdentity, group: PhysicalGroup)
    ensures Footprint(groups[id := group]) <= Footprint(groups) + group.Repr()
  {
  }

  /** The group of a view, created on first use, as the source's map does. */
  method FindGroup(groups: GroupTable, v: LogicalView, ghost views: seq<LogicalView>)
    returns (group: PhysicalGroup, after: GroupTable)
    requires TableHolds(groups, views)
    ensures after == groups[v.identity := group]
    ensures v.identity in groups ==> group == groups[v.identity]
    ensures v.identity !in groups ==>
      && fresh(group.Repr()) && group.maxLogicalStart == v.Start() && group.minLogicalEnd == v.End()
      && group.wireResponseID == v.wireResponseID && group.responseBytes == v.wireResponseBytes
    ensures Separate(after) && GroupHolds(group, v.identity, views)
    ensures group.Repr() <= Footprint(after) && fresh(Footprint(after) - Footprint(groups))
  {
    hide Members, PhysicalGroup.Holds, Footprint;
    if v.identity in groups {
      OwnsGroup(groups, v.identity);
      return groups[v.identity], groups;
    }
    NoMembers(views, v.identity);
    group := new PhysicalGroup(v);
    after := groups[v.identity := group];
    FootprintExtends(groups, v.identity, group);
    OwnsGroup(after, v.identity);
    forall id | id in groups
      ensures groups[id].Repr() !! group.Repr()
    {
      OwnsGroup(groups, id);
    }
  }

  lemma NoMembers(views: seq<LogicalView>, id: PhysicalIdentity)
    requires forall v :: v in views ==> v.identity != id
    ensures Members(views, id) == []
  {
    if Members(views, id) != [] {
      assert Members(views, id)[0] in Members(views, id);
    }
  }

  lemma MembersExtend(views: seq<LogicalView>, v: LogicalView, id: PhysicalIdentity)
    ensures Members(views + [v], id) == Extended(Members(views, id), v, id)
  {
    var longer := views + [v];
    assert longer[..|longer| - 1] == views && longer[|longer| - 1] == v;
  }

  /** A group is not affected by a view of another identity. */
  lemma OtherGroupHolds(group: PhysicalGroup, id: PhysicalIdentity, views: seq<LogicalView>, v: LogicalView)
    requires GroupHolds(group, id, views) && v.identity != id
    ensures GroupHolds(group, id, views + [v])
  {
    hide PhysicalGroup.Holds, Members;
    MembersExtend(views, v, id);
  }

  lemma OwnGroupHolds(group: PhysicalGroup, views: seq<LogicalView>, v: LogicalView)
    requires group.Holds(Members(views, v.identity) + [v]) && group.words.Length == v.identity.physicalWordCount
    requires forall u :: u in views && u.identity == v.identity ==>
      u.wireResponseID == group.wireResponseID && u.wireResponseBytes == group.responseBytes
    requires v.wireResponseID == group.wireResponseID && v.wireResponseBytes == group.responseBytes
    ensures GroupHolds(group, v.identity, views + [v])
  {
    hide PhysicalGroup.Holds, Members;
    MembersExtend(views, v, v.identity);
  }

  lemma TableAccepts(groups: GroupTable, after: GroupTable, views: seq<LogicalView>, v: LogicalView)
    requires Separate(after) && v.identity in after && after.Keys == groups.Keys + {v.identity}
    requires forall u :: u in views ==> u.identity in groups
    requires forall id :: id in groups ==> Members(views, id) != []
    requires forall id :: id in after && id != v.identity ==> GroupHolds(after[id], id, views)
    requires GroupHolds(after[v.identity], v.identity, views + [v])
    ensures TableHolds(after, views + [v])
  {
    hide GroupHolds, Members;
    forall id | id in after
      ensures GroupHolds(after[id], id, views + [v]) && Members(views + [v], id) != []
    {
      MembersExtend(views, v, id);
      if id != v.identity {
        OtherGroupHolds(after[id], id, views, v);
      }
    }
  }

  /** The consistency checks and the buffer update of one view's own group. */
  method AddToGroup(group: PhysicalGroup, v: LogicalView, ghost views: seq<LogicalView>) returns (ok: bool)
    requires GroupHolds(group, v.identity, views) && ValidView(v)
    requires Members(views, v.identity) == [] ==>
      && group.maxLogicalStart == v.Start() && group.minLogicalEnd == v.End()
      && group.wireResponseID == v.wireResponseID && group.responseBytes == v.wireResponseBytes
    modifies group.Repr()
    ensures ok <==> forall u :: u in views && u.identity == v.identity ==> Fits(v, u)
    ensures ok ==> GroupHolds(group, v.identity, views + [v])
  {
    hide PhysicalGroup.Holds, WordsAgree;
    ghost var members := Members(views, v.identity);
    if group.wireResponseID != v.wireResponseID || group.responseBytes != v.wireResponseBytes {
      assert members[0] in members;
      return false;
    }
    assert forall u :: u in views && u.identity == v.identity <==> u in members;
    ok := group.Add(v, members);
    if ok {
      OwnGroupHolds(group, views, v);
    }
  }

  /** Places one view in the table of groups. */
  method PlaceView(groups: GroupTable, v: LogicalView, ghost views: seq<LogicalView>) returns (ok: bool, after: GroupTable)
    requires TableHolds(groups, views) && ValidView(v)
    modifies Footprint(groups)
    ensures ok <==> forall u :: u in views && u.identity == v.identity ==> Fits(v, u)
    ensures ok ==> TableHolds(after, views + [v]) && fresh(Footprint(after) - Footprint(groups))
  {
    hide Members, PhysicalGroup.Holds, Fits, ValidView, GroupHolds, Footprint;
    var group;
    group, after := FindGroup(groups, v, views);
    ok := AddToGroup(group, v, views);
    if ok {
      forall id | id in after && id != v.identity
        ensures GroupHolds(after[id], id, views)
      {
        OwnsGroup(groups, id);
      }
      TableAccepts(groups, after, views, v);
    }
  }

  /** One lookup decides a whole prefix. */
  lemma IndexDecides<K(!new)>(views: seq<LogicalView>, index: map<K, PhysicalIdentity>, key: LogicalView -> K, v: LogicalView)
    requires Indexes(views, index, key)
    ensures (key(v) in index ==> index[key(v)] == v.identity) <==>
      (forall i :: 0 <= i < |views| && key(views[i]) == key(v) ==> views[i].identity == v.identity)
  {
  }

  /** The three map lookups decide the origin of a view against all placed ones. */
  lemma LookupsDecide(views: seq<LogicalView>, requests: map<RequestKey, PhysicalIdentity>,
                      wires: map<uint64, PhysicalIdentity>, rtu: set<uint64>, v: LogicalView)
    requires Indexes(views, requests, KeyOf) && Indexes(views, wires, WireOf) && SerialResponses(views, rtu)
    ensures Admitted(requests, wires, rtu, v) <==> forall i :: 0 <= i < |views| ==> OriginAgrees(views[i], v)
  {
    hide Indexes;
    IndexDecides(views, requests, KeyOf, v);
    IndexDecides(views, wires, WireOf, v);
    assert forall i :: 0 <= i < |views| ==> KeyOf(views[i]) == views[i].Key() && WireOf(views[i]) == views[i].wireResponseID;
  }

  predicate Admitted(requests: map<RequestKey, PhysicalIdentity>, wires: map<uint64, PhysicalIdentity>,
                     rtu: set<uint64>, v: LogicalView)
  {
    && !(v.identity.transport.RTU? && v.wireResponseID in rtu)
    && (KeyOf(v) in requests ==> requests[KeyOf(v)] == v.identity)
    && (WireOf(v) in wires ==> wires[WireOf(v)] == v.identity)
  }

  lemma TableGroup(groups: GroupTable, views: seq<LogicalView>, id: PhysicalIdentity)
    requires TableHolds(groups, views) && id in groups
    ensures GroupHolds(groups[id], id, views) && Members(views, id) != []
  {
    hide GroupHolds, Members, Separate, Footprint;
  }

  lemma TableCovers(groups: GroupTable, views: seq<LogicalView>)
    requires TableHolds(groups, views)
    ensures forall v :: v in views ==> v.identity in groups
  {
    hide GroupHolds, Members, Separate, Footprint;
  }

  /** The final scan over the groups, in any order. */
  method GroupsIntersect(groups: GroupTable, ghost views: seq<LogicalView>) returns (ok: bool)
    requires TableHolds(groups, views) && ValidViews(views)
    ensures ok <==> AllIntersect(views)
  {
    hide GroupHolds, Members, Intersect, Separate, Footprint, ValidView, TableHolds;
    TableCovers(groups, views);
    var rest := groups.Keys;
    while rest != {}
      invariant rest <= groups.Keys && TableHolds(groups, views)
      invariant forall id :: id in groups && id !in rest && id.transport.TCP? ==> MembersIntersect(views, id)
      decreases |rest|
    {
      var id :| id in rest;
      TableGroup(groups, views, id);
      GroupDecides(groups[id], id, views);
      if id.transport.TCP? && groups[id].viewCount > 1 && groups[id].maxLogicalStart >= groups[id].minLogicalEnd {
        return false;
      }
      rest := rest - {id};
    }
    ok := true;
  }

  predicate MembersIntersect(views: seq<LogicalView>, id: PhysicalIdentity) {
    forall a, b :: a in views && b in views && a.identity == id && b.identity == id ==> Intersect(a, b)
  }

  lemma GroupDecides(group: PhysicalGroup, id: PhysicalIdentity, views: seq<LogicalView>)
    requires GroupHolds(group, id, views) && ValidViews(views) && Members(views, id) != []
    ensures MembersIntersect(views, id) <==> !(group.viewCount > 1 && group.maxLogicalStart >= group.minLogicalEnd)
  {
    hide BufferHolds, BoundsHold, Intersect, ValidView;
    var members := Members(views, id);
    BoundsDecide(group.maxLogicalStart, group.minLogicalEnd, members);
    if group.viewCount == 1 {
      assert members == [members[0]];
      assert members[0] in members;
      var i :| 0 <= i < |views| && views[i] == members[0];
      IntersectItself(members[0]);
    }
  }

  /** validateWireResponseGroups accepts exactly the coherent collections. */
  method ValidateWireResponseGroups(views: seq<LogicalView>) returns (ok: bool)
    requires ValidViews(views)
    ensures ok <==> Coherent(views)
  {
    hide ValidView, Coherent, Admissible, AllIntersect, TableHolds, Footprint, Indexes, SerialResponses;
    var groups: GroupTable := map[];
    var requests: map<RequestKey, PhysicalIdentity> := map[];
    var wires: map<uint64, PhysicalIdentity> := map[];
    var rtu: set<uint64> := {};
    EmptyPass();
    assert views[..0] == [];
    for n := 0 to |views|
      invariant TableHolds(groups, views[..n]) && fresh(Footprint(groups))
      invariant Indexes(views[..n], requests, KeyOf) && Indexes(views[..n], wires, WireOf)
      invariant SerialResponses(views[..n], rtu)
      invariant AllAdmissible(views[..n])
    {
      var v := views[n];
      ghost var placed := views[..n];
      assert views[..n + 1] == placed + [v];
      LookupsDecide(placed, requests, wires, rtu, v);
      AdmissionDecides(views, n);
      if v.identity.transport.RTU? && v.wireResponseID in rtu {
        return false;
      }
      if v.Key() in requests && requests[v.Key()] != v.identity {
        return false;
      }
      if v.wireResponseID in wires && wires[v.wireResponseID] != v.identity {
        return false;
      }
      IndexExtends(placed, requests, KeyOf, v);
      IndexExtends(placed, wires, WireOf, v);
      SerialExtends(placed, rtu, v);
      requests := requests[v.Key() := v.identity];
      wires := wires[v.wireResponseID := v.identity];
      if v.identity.transport.RTU? {
        rtu := rtu + {v.wireResponseID};
      }
      var fits, after := PlaceView(groups, v, placed);
      if !fits {
        return false;
      }
      groups := after;
    }
    assert views[..|views|] == views;
    ok := GroupsIntersect(groups, views);
    CoherentIsAdmissible(views);
  }

  lemma EmptyPass()
    ensures TableHolds(map[], []) && Footprint(map[]) == {}
    ensures Indexes([], map[], KeyOf) && Indexes([], map[], WireOf) && SerialResponses([], {})
    ensures AllAdmissible([])
  {
  }

  /** A view is admitted exactly when origin and fit hold against every placed view. */
  lemma AdmissionDecides(views: seq<LogicalView>, n: nat)
    requires n < |views| && AllAdmissible(views[..n])
    ensures OriginHolds(views, n) && FitHolds(views, n) ==> AllAdmissible(views[..n] + [views[n]])
    ensures !(OriginHolds(views, n) && FitHolds(views, n)) ==> !Coherent(views)
  {
    hide OriginAgrees, Fits, Coherent;
    assert forall i :: 0 <= i < n ==> views[..n][i] in views[..n];
    if forall u :: u in views[..n] ==> Admissible(u, views[n]) {
      AdmissibleExtends(views[..n], views[n]);
    } else {
      var u :| u in views[..n] && !Admissible(u, views[n]);
      AdmissibleFails(views, n, u);
    }
  }

  predicate OriginHolds(views: seq<LogicalView>, n: nat)
    requires n < |views|
  {
    forall i :: 0 <= i < |views[..n]| ==> OriginAgrees(views[..n][i], views[n])
  }

  ghost predicate FitHolds(views: seq<LogicalView>, n: nat)
    requires n < |views|
  {
    forall u :: u in views[..n] && u.identity == views[n].identity ==> Fits(views[n], u)
  }
}
