/** The detector: candidates in canonical order, the serial probe reads, the
    evaluation of every candidate, and the decision built from them. */
module Detector {
  import opened Foundation
  import opened ProfileDetection

  datatype Limits = Limits(maxWordsPerRead: int, maxTotalWords: int, maxIdentityBytes: int, maxEvidenceIDBytes: int)

  datatype Declaration = Declaration(field: IdentityField, wordCount: uint16)

  datatype ReadStatus = Succeeded | Exception | OtherStatus(name: string)

  datatype ProbeResult = ProbeResult(status: ReadStatus, words: seq<uint16>, evidenceID: string, exceptionCode: uint8)

  /** What NewProbeReadResult constructs; a reader may also return the zero value. */
  predicate Constructed(r: ProbeResult) {
    && ValidEvidenceID(r.evidenceID, MAX_EVIDENCE_ID_BYTES)
    && match r.status
       case Succeeded => 0 < |r.words| <= MAX_RAW_WORDS && r.exceptionCode == 0
       case Exception => |r.words| == 0 && r.exceptionCode != 0
       case OtherStatus(_) => false
  }

  const ZeroResult := ProbeResult(OtherStatus(""), [], "", 0)

  /** One step of the reader and the context around it. */
  datatype Reply = Reply(cancelledBefore: bool, cancelledAfter: bool, failed: bool, result: ProbeResult)

  predicate PossibleReply(r: Reply) {
    r.result == ZeroResult || Constructed(r.result)
  }

  datatype Detected = Detected(value: string, evidenceID: string)

  type Identities = map<IdentityField, Detected>

  /** A detector: the catalog-bound candidates, the plan, the limits and the
      grammar of firmware version texts. */
  datatype Spec = Spec(candidates: seq<Candidate>, plan: seq<Declaration>, limits: Limits, parseVersion: string -> Option<Version>)

  predicate ValidCandidate(c: Candidate) {
    ValidIdentity(c.profileID) && c.score != 0
  }

  predicate CandidatesInOrder(candidates: seq<Candidate>) {
    forall i, j :: 0 <= i < j < |candidates| ==> Less(candidates[i].profileID, candidates[j].profileID)
  }

  predicate ValidPlan(plan: seq<Declaration>) {
    && (forall i, j :: 0 <= i < j < |plan| ==> plan[i].field != plan[j].field)
    && Produces(plan, Manufacturer) && Produces(plan, Model) && Produces(plan, Firmware)
  }

  predicate Produces(plan: seq<Declaration>, field: IdentityField) {
    exists i :: 0 <= i < |plan| && plan[i].field == field
  }

  /** What NewProfileDetector guarantees of a detector. */
  predicate ValidSpec(spec: Spec) {
    && 0 < |spec.candidates| <= MAX_PROFILE_DEPENDENCIES
    && (forall i :: 0 <= i < |spec.candidates| ==>
        ValidCandidate(spec.candidates[i]) && spec.candidates[i].detectorVersion == spec.candidates[0].detectorVersion)
    && CandidatesInOrder(spec.candidates)
    && ValidPlan(spec.plan)
  }

  // ---- canonical order ------------------------------------------------------------------------

  predicate DistinctProfiles(candidates: seq<Candidate>) {
    forall i, j :: 0 <= i < j < |candidates| ==> candidates[i].profileID != candidates[j].profileID
  }

  lemma OrderedAround(sorted: seq<Candidate>, at: nat, c: Candidate)
    requires CandidatesInOrder(sorted) && at <= |sorted|
    requires at > 0 ==> Less(sorted[at - 1].profileID, c.profileID)
    requires at < |sorted| ==> Less(c.profileID, sorted[at].profileID)
    ensures forall i :: 0 <= i < at ==> Less(sorted[i].profileID, c.profileID)
    ensures forall i :: at <= i < |sorted| ==> Less(c.profileID, sorted[i].profileID)
  {
    hide Less;
    forall i | 0 <= i < at - 1
      ensures Less(sorted[i].profileID, c.profileID)
    {
      LessIsTransitive(sorted[i].profileID, sorted[at - 1].profileID, c.profileID);
    }
    forall i | at < i < |sorted|
      ensures Less(c.profileID, sorted[i].profileID)
    {
      LessIsTransitive(c.profileID, sorted[at].profileID, sorted[i].profileID);
    }
  }

  lemma InsertKeepsOrder(sorted: seq<Candidate>, at: nat, c: Candidate, longer: seq<Candidate>)
    requires CandidatesInOrder(sorted) && at <= |sorted| && longer == sorted[..at] + [c] + sorted[at..]
    requires forall i :: 0 <= i < at ==> Less(sorted[i].profileID, c.profileID)
    requires forall i :: at <= i < |sorted| ==> Less(c.profileID, sorted[i].profileID)
    ensures CandidatesInOrder(longer)
  {
    hide Less;
    forall i, j | 0 <= i < j < |longer|
      ensures Less(longer[i].profileID, longer[j].profileID)
    {
      var a, b := if i < at then i else i - 1, if j < at then j else j - 1;
      assert i != at ==> longer[i] == sorted[a];
      assert j != at ==> longer[j] == sorted[b];
    }
  }

  lemma InsertKeepsCandidates(sorted: seq<Candidate>, at: nat, c: Candidate, longer: seq<Candidate>)
    requires at <= |sorted| && longer == sorted[..at] + [c] + sorted[at..]
    ensures multiset(longer) == multiset(sorted) + multiset{c}
  {
    assert sorted == sorted[..at] + sorted[at..];
  }

  lemma Unlike(candidates: seq<Candidate>, n: nat, sorted: seq<Candidate>, i: nat)
    requires DistinctProfiles(candidates) && n < |candidates| && multiset(sorted) == multiset(candidates[..n]) && i < |sorted|
    ensures Less(sorted[i].profileID, candidates[n].profileID) || Less(candidates[n].profileID, sorted[i].profileID)
  {
    hide Less;
    assert sorted[i] in multiset(candidates[..n]);
    var k :| 0 <= k < n && candidates[..n][k] == sorted[i];
    LessIsTotal(sorted[i].profileID, candidates[n].profileID);
  }

  /** The sort of NewProfileDetector; profile identities are distinct there. */
  method SortCandidates(candidates: seq<Candidate>) returns (sorted: seq<Candidate>)
    requires DistinctProfiles(candidates)
    ensures CandidatesInOrder(sorted) && multiset(sorted) == multiset(candidates)
  {
    sorted := [];
    for n := 0 to |candidates|
      invariant CandidatesInOrder(sorted) && multiset(sorted) == multiset(candidates[..n])
    {
      hide Less, CandidatesInOrder, DistinctProfiles;
      var c, at := candidates[n], |sorted|;
      while at > 0 && Less(c.profileID, sorted[at - 1].profileID)
        invariant 0 <= at <= |sorted|
        invariant at < |sorted| ==> Less(c.profileID, sorted[at].profileID)
      {
        at := at - 1;
      }
      if at > 0 {
        Unlike(candidates, n, sorted, at - 1);
      }
      var longer := sorted[..at] + [c] + sorted[at..];
      OrderedAround(sorted, at, c);
      InsertKeepsOrder(sorted, at, c, longer);
      InsertKeepsCandidates(sorted, at, c, longer);
      assert candidates[..n + 1] == candidates[..n] + [c];
      sorted := longer;
    }
    assert candidates[..|candidates|] == candidates;
  }

  /** Two orderings of the same candidates are the same sequence, so nothing a
      detector does depends on the order of declaration. */
  lemma {:induction false} OrderIsCanonical(a: seq<Candidate>, b: seq<Candidate>)
    requires CandidatesInOrder(a) && CandidatesInOrder(b) && multiset(a) == multiset(b)
    ensures a == b
    decreases |a|
  {
    hide CandidatesInOrder;
    assert |a| == |multiset(a)| && |b| == |multiset(b)|;
    if |a| > 0 {
      FirstIsLeast(a, b);
      Tail(a);
      Tail(b);
      OrderIsCanonical(a[1..], b[1..]);
    }
  }

  lemma Tail(a: seq<Candidate>)
    requires |a| > 0 && CandidatesInOrder(a)
    ensures a == [a[0]] + a[1..] && CandidatesInOrder(a[1..])
    ensures multiset(a[1..]) == multiset(a) - multiset{a[0]}
  {
    hide Less;
    assert a == [a[0]] + a[1..];
  }

  lemma FirstIsLeast(a: seq<Candidate>, b: seq<Candidate>)
    requires CandidatesInOrder(a) && CandidatesInOrder(b) && multiset(a) == multiset(b) && |a| > 0 && |b| > 0
    ensures a[0] == b[0]
  {
    hide Less;
    assert a[0] in multiset(b) && b[0] in multiset(a);
    var i :| 0 <= i < |b| && b[i] == a[0];
    var j :| 0 <= j < |a| && a[j] == b[0];
    LessIsTotal(a[0].profileID, b[0].profileID);
  }

  // ---- the probe reads -------------------------------------------------------------------------------

  function Characters(words: seq<uint16>): string {
    if |words| == 0 then "" else Characters(words[..|words| - 1]) + [(words[|words| - 1] / 0x100) as char, (words[|words| - 1] % 0x100) as char]
  }

  function TrimNul(s: string): (t: string)
    ensures t <= s
  {
    if |s| > 0 && s[|s| - 1] == 0 as char then TrimNul(s[..|s| - 1]) else s
  }

  predicate PrintableText(s: string) {
    forall i :: 0 <= i < |s| ==> 0x20 as char <= s[i] <= 0x7e as char
  }

  /** decodeProbeASCII. */
  function DecodeProbe(words: seq<uint16>, maximum: int): Option<string> {
    var text := TrimNul(Characters(words));
    if |words| == 0 || maximum <= 0 || |text| == 0 || |text| > maximum || !PrintableText(text) then None else Some(text)
  }

  predicate ValidWithin(r: ProbeResult, limits: Limits) {
    && ValidEvidenceID(r.evidenceID, limits.maxEvidenceIDBytes)
    && match r.status
       case Succeeded => 0 < |r.words| <= limits.maxWordsPerRead && r.exceptionCode == 0
       case Exception => |r.words| == 0 && r.exceptionCode != 0
       case OtherStatus(_) => false
  }

  datatype Readings = Read(identities: Identities) | Stopped(reason: Reason)

  /** A reason a read can stop detection with. */
  predicate StopReason(reason: Reason) {
    reason.ContextCancelled? || reason.ReadError? || reason.InvalidProbeResult? || reason.ProbeException?
    || reason.IncompleteProbe? || reason.InvalidIdentity?
  }

  /** Identities read from the first n declarations, each with its own evidence. */
  predicate IdentitiesHold(plan: seq<Declaration>, n: nat, identities: Identities)
    requires n <= |plan|
  {
    && (forall i :: 0 <= i < n ==> plan[i].field in identities)
    && (forall f :: f in identities ==> ValidEvidenceID(identities[f].evidenceID, MAX_EVIDENCE_ID_BYTES))
    && (forall f, g :: f in identities && g in identities && f != g ==> identities[f].evidenceID != identities[g].evidenceID)
    && (forall f :: f in identities ==> exists i :: 0 <= i < n && plan[i].field == f)
  }

  lemma NothingRead(spec: Spec)
    ensures IdentitiesHold(spec.plan, 0, map[]) && UsedEvidence(map[], {})
  {
    assert UsedEvidence(map[], {});
  }

  predicate UsedEvidence(identities: Identities, evidenceIDs: set<string>) {
    evidenceIDs == set f | f in identities :: identities[f].evidenceID
  }

  lemma IdentityStep(plan: seq<Declaration>, n: nat, identities: Identities, evidenceIDs: set<string>, d: Detected)
    requires n < |plan| && ValidPlan(plan) && IdentitiesHold(plan, n, identities) && UsedEvidence(identities, evidenceIDs)
    requires d.evidenceID !in evidenceIDs && ValidEvidenceID(d.evidenceID, MAX_EVIDENCE_ID_BYTES)
    ensures IdentitiesHold(plan, n + 1, identities[plan[n].field := d])
    ensures UsedEvidence(identities[plan[n].field := d], evidenceIDs + {d.evidenceID})
    ensures forall i :: 0 <= i < n ==> plan[i].field in identities && plan[i].field != plan[n].field
  {
    hide ValidEvidenceID, Produces;
    var after, field := identities[plan[n].field := d], plan[n].field;
    assert field !in identities;
    forall x | x in evidenceIDs + {d.evidenceID}
      ensures exists f :: f in after && after[f].evidenceID == x
    {
      if x in evidenceIDs {
        var f :| f in identities && identities[f].evidenceID == x;
        assert after[f].evidenceID == x;
      } else {
        assert after[field].evidenceID == x;
      }
    }
    forall f | f in after
      ensures exists i :: 0 <= i < n + 1 && plan[i].field == f
    {
      if f in identities {
        var i :| 0 <= i < n && plan[i].field == f;
      }
    }
  }

  // ---- what a reader's replies amount to -------------------------------------------------------------

  /** Words accepted from the first n replies. */
  function WordsRead(replies: seq<Reply>, n: nat): nat
    requires n <= |replies|
  {
    if n == 0 then 0 else WordsRead(replies, n - 1) + |replies[n - 1].result.words|
  }

  /** The evidence identities of the first n replies. */
  function EvidenceRead(replies: seq<Reply>, n: nat): set<string>
    requires n <= |replies|
  {
    set i | 0 <= i < n :: replies[i].result.evidenceID
  }

  /** Why a reply stops detection, given what was accepted before it: the context
      first, then the reader, then the result, its length, its budget, its
      evidence and its text. */
  function StopOf(limits: Limits, declaration: Declaration, reply: Reply, totalWords: int, evidenceIDs: set<string>): (stop: Option<Reason>)
    ensures stop.Some? ==> StopReason(stop.value)
  {
    var result := reply.result;
    if reply.cancelledBefore || reply.cancelledAfter then Some(ContextCancelled)
    else if reply.failed then Some(ReadError)
    else if !ValidWithin(result, limits) then Some(InvalidProbeResult)
    else if result.status.Exception? then Some(ProbeException)
    else if |result.words| != declaration.wordCount then Some(IncompleteProbe)
    else if totalWords + |result.words| > limits.maxTotalWords || result.evidenceID in evidenceIDs then Some(InvalidProbeResult)
    else if DecodeProbe(result.words, limits.maxIdentityBytes).None? then Some(InvalidIdentity)
    else None
  }

  /** Why the n-th read stops detection, told from the replies alone. */
  function StopAt(spec: Spec, replies: seq<Reply>, n: nat): Option<Reason>
    requires n < |spec.plan| && n < |replies|
  {
    StopOf(spec.limits, spec.plan[n], replies[n], WordsRead(replies, n), EvidenceRead(replies, n))
  }

  /** What the first n replies say about the identities. */
  function IdentitiesRead(spec: Spec, replies: seq<Reply>, n: nat): Identities
    requires n <= |spec.plan| && n <= |replies|
  {
    if n == 0 then map[]
    else
      var text := DecodeProbe(replies[n - 1].result.words, spec.limits.maxIdentityBytes);
      IdentitiesRead(spec, replies, n - 1)[spec.plan[n - 1].field :=
        Detected(if text.Some? then text.value else "", replies[n - 1].result.evidenceID)]
  }

  /** The first read that stops decides; without one every identity is read. */
  function ReadingsOf(spec: Spec, replies: seq<Reply>, n: nat := 0): Readings
    requires n <= |spec.plan| <= |replies|
    decreases |spec.plan| - n
  {
    if n == |spec.plan| then Read(IdentitiesRead(spec, replies, n))
    else if StopAt(spec, replies, n).Some? then Stopped(StopAt(spec, replies, n).value)
    else ReadingsOf(spec, replies, n + 1)
  }

  /** Nothing is stopped exactly when no read stops. */
  lemma {:induction false} ReadIffNothingStops(spec: Spec, replies: seq<Reply>, n: nat)
    requires n <= |spec.plan| <= |replies|
    ensures ReadingsOf(spec, replies, n).Read? <==> forall i :: n <= i < |spec.plan| ==> StopAt(spec, replies, i).None?
    ensures ReadingsOf(spec, replies, n).Read? ==> ReadingsOf(spec, replies, n) == Read(IdentitiesRead(spec, replies, |spec.plan|))
    ensures ReadingsOf(spec, replies, n).Stopped? ==> StopReason(ReadingsOf(spec, replies, n).reason)
    decreases |spec.plan| - n
  {
    hide StopAt, StopReason;
    if n < |spec.plan| {
      assert StopAt(spec, replies, n).Some? ==> StopReason(StopAt(spec, replies, n).value) by { StopIsAReason(spec, replies, n); }
      ReadIffNothingStops(spec, replies, n + 1);
    }
  }

  lemma StopIsAReason(spec: Spec, replies: seq<Reply>, n: nat)
    requires n < |spec.plan| <= |replies|
    ensures StopAt(spec, replies, n).Some? ==> StopReason(StopAt(spec, replies, n).value)
  {
    hide ValidWithin, DecodeProbe, StopReason;
  }

  /** Replies that do not stop leave an identity per declaration, each under an
      evidence identity of its own. */
  lemma {:induction false} ReadIsSound(spec: Spec, replies: seq<Reply>, n: nat)
    requires ValidPlan(spec.plan) && n <= |spec.plan| <= |replies|
    requires forall i :: 0 <= i < n ==> StopAt(spec, replies, i).None? && PossibleReply(replies[i])
    ensures IdentitiesHold(spec.plan, n, IdentitiesRead(spec, replies, n))
    ensures UsedEvidence(IdentitiesRead(spec, replies, n), EvidenceRead(replies, n))
    decreases n
  {
    hide DecodeProbe, ValidEvidenceID, IdentitiesHold, UsedEvidence, PossibleReply, ValidWithin;
    if n == 0 {
      NothingRead(spec);
      assert EvidenceRead(replies, 0) == {};
    } else {
      var before := IdentitiesRead(spec, replies, n - 1);
      ReadIsSound(spec, replies, n - 1);
      ReplyEvidence(replies[n - 1], spec.limits);
      var d := IdentitiesRead(spec, replies, n)[spec.plan[n - 1].field];
      IdentityStep(spec.plan, n - 1, before, EvidenceRead(replies, n - 1), d);
      assert EvidenceRead(replies, n) == EvidenceRead(replies, n - 1) + {d.evidenceID};
    }
  }

  // ---- the read loop ---------------------------------------------------------------------------------

  /** The checks on one reply, in the source's order. */
  method CheckReply(limits: Limits, declaration: Declaration, reply: Reply, totalWords: int, evidenceIDs: set<string>)
    returns (stop: Option<Reason>, value: string)
    ensures stop == StopOf(limits, declaration, reply, totalWords, evidenceIDs)
    ensures stop.None? ==> DecodeProbe(reply.result.words, limits.maxIdentityBytes) == Some(value)
  {
    hide DecodeProbe, ValidEvidenceID;
    value := "";
    if reply.cancelledBefore || reply.cancelledAfter {
      return Some(ContextCancelled), value;
    }
    if reply.failed {
      return Some(ReadError), value;
    }
    var result := reply.result;
    if !ValidWithin(result, limits) {
      return Some(InvalidProbeResult), value;
    }
    if result.status.Exception? {
      return Some(ProbeException), value;
    }
    if |result.words| != declaration.wordCount {
      return Some(IncompleteProbe), value;
    }
    if totalWords > limits.maxTotalWords - |result.words| {
      return Some(InvalidProbeResult), value;
    }
    if result.evidenceID in evidenceIDs {
      return Some(InvalidProbeResult), value;
    }
    var identity := DecodeProbe(result.words, limits.maxIdentityBytes);
    if identity.None? {
      return Some(InvalidIdentity), value;
    }
    return None, identity.value;
  }

  /** The read loop of Detect, serial and in declaration order. */
  method ReadIdentities(spec: Spec, replies: seq<Reply>) returns (readings: Readings)
    requires |replies| >= |spec.plan|
    ensures readings == ReadingsOf(spec, replies)
  {
    hide DecodeProbe, ValidWithin;
    var identities: Identities := map[];
    var evidenceIDs: set<string> := {};
    var totalWords := 0;
    for n := 0 to |spec.plan|
      invariant identities == IdentitiesRead(spec, replies, n)
      invariant evidenceIDs == EvidenceRead(replies, n) && totalWords == WordsRead(replies, n)
      invariant ReadingsOf(spec, replies) == ReadingsOf(spec, replies, n)
    {
      var stop, value := CheckReply(spec.limits, spec.plan[n], replies[n], totalWords, evidenceIDs);
      if stop.Some? {
        return Stopped(stop.value);
      }
      totalWords := totalWords + |replies[n].result.words|;
      evidenceIDs := evidenceIDs + {replies[n].result.evidenceID};
      identities := identities[spec.plan[n].field := Detected(value, replies[n].result.evidenceID)];
    }
    readings := Read(identities);
  }

  /** An accepted result carries an evidence identity within the default bound,
      whatever bound the detector was given. */
  lemma ReplyEvidence(reply: Reply, limits: Limits)
    requires PossibleReply(reply)
    ensures ValidWithin(reply.result, limits) ==> ValidEvidenceID(reply.result.evidenceID, MAX_EVIDENCE_ID_BYTES)
  {
  }

  // ---- candidates ------------------------------------------------------------------------------------------

  /** candidateEligibilityReason; None when the candidate may be matched. */
  function Ineligible(c: Candidate, allowFixtureOnly: bool): Option<Reason> {
    if c.state.Revoked? then Some(ProfileRevoked)
    else if c.state.Superseded? then Some(ProfileSuperseded)
    else if c.state.OtherState? then Some(InvalidIdentity)
    else if !c.qualified then Some(ProfileUnqualified)
    else if !c.defaultEnabled then Some(ProfileDefaultOff)
    else if !c.enabled then Some(CandidateDisabled)
    else if c.fixtureOnly && !allowFixtureOnly then Some(FixtureOptInRequired)
    else None
  }

  predicate InInterval(v: Version, c: Candidate) {
    !VersionLess(v, c.minimumFirmware) && VersionLess(v, c.maximumFirmware)
  }

  predicate Complete(identities: Identities) {
    Manufacturer in identities && Model in identities && Firmware in identities
  }

  /** A candidate passes every gate. */
  predicate Passes(spec: Spec, c: Candidate, identities: Identities, allowFixtureOnly: bool)
    requires Complete(identities)
  {
    && Ineligible(c, allowFixtureOnly).None?
    && identities[Manufacturer].value == c.manufacturer
    && identities[Model].value == c.model
    && spec.parseVersion(identities[Firmware].value).Some?
    && InInterval(spec.parseVersion(identities[Firmware].value).value, c)
  }

  function Bare(c: Candidate, reason: Reason): Evidence {
    Evidence(c.profileID, c.profileVersion, c.score, reason, [], [], c.detectorVersion, c.qualificationVersion)
  }

  /** evaluateCandidate: gates in order, each with the evidence that passed it. */
  method EvaluateCandidate(spec: Spec, c: Candidate, identities: Identities, allowFixtureOnly: bool) returns (e: Evidence)
    requires Complete(identities)
    ensures e == Evaluated(spec, c, identities, allowFixtureOnly)
  {
    e := Bare(c, Selected);
    var ineligible := Ineligible(c, allowFixtureOnly);
    if ineligible.Some? {
      return e.(reason := ineligible.value);
    }
    var manufacturer := identities[Manufacturer];
    if manufacturer.value != c.manufacturer {
      return e.(reason := IdentityMismatch);
    }
    e := e.(gates := e.gates + [Manufacturer], evidenceIDs := e.evidenceIDs + [manufacturer.evidenceID]);
    var model := identities[Model];
    if model.value != c.model {
      return e.(reason := IdentityMismatch);
    }
    e := e.(gates := e.gates + [Model], evidenceIDs := e.evidenceIDs + [model.evidenceID]);
    var firmware := identities[Firmware];
    var version := spec.parseVersion(firmware.value);
    if version.None? {
      return e.(reason := InvalidIdentity);
    }
    if VersionLess(version.value, c.minimumFirmware) || !VersionLess(version.value, c.maximumFirmware) {
      return e.(reason := FirmwareMismatch);
    }
    e := e.(gates := e.gates + [Firmware], evidenceIDs := e.evidenceIDs + [firmware.evidenceID]);
  }

  function Evaluated(spec: Spec, c: Candidate, identities: Identities, allowFixtureOnly: bool): Evidence
    requires Complete(identities)
  {
    var m, d, f := identities[Manufacturer], identities[Model], identities[Firmware];
    var version := spec.parseVersion(f.value);
    if Ineligible(c, allowFixtureOnly).Some? then Bare(c, Ineligible(c, allowFixtureOnly).value)
    else if m.value != c.manufacturer then Bare(c, IdentityMismatch)
    else if d.value != c.model then Bare(c, IdentityMismatch).(gates := [Manufacturer], evidenceIDs := [m.evidenceID])
    else if version.None? then
      Bare(c, InvalidIdentity).(gates := [Manufacturer, Model], evidenceIDs := [m.evidenceID, d.evidenceID])
    else if !InInterval(version.value, c) then
      Bare(c, FirmwareMismatch).(gates := [Manufacturer, Model], evidenceIDs := [m.evidenceID, d.evidenceID])
    else
      Bare(c, Selected).(gates := [Manufacturer, Model, Firmware], evidenceIDs := [m.evidenceID, d.evidenceID, f.evidenceID])
  }

  /** What a successful probe leaves behind: all three identities under distinct
      evidence, and a firmware text that parses. */
  predicate Usable(spec: Spec, identities: Identities) {
    && Complete(identities)
    && (forall f :: f in identities ==> ValidEvidenceID(identities[f].evidenceID, MAX_EVIDENCE_ID_BYTES))
    && (forall f, g :: f in identities && g in identities && f != g ==> identities[f].evidenceID != identities[g].evidenceID)
    && spec.parseVersion(identities[Firmware].value).Some?
  }

  /** The reasons an unmatched candidate can have. */
  predicate Unmatched(reason: Reason) {
    reason.InvalidIdentity? || reason.IdentityMismatch? || reason.FirmwareMismatch? || reason.FixtureOptInRequired?
    || reason.ProfileRevoked? || reason.ProfileSuperseded? || reason.ProfileUnqualified? || reason.ProfileDefaultOff?
    || reason.CandidateDisabled?
  }

  lemma EvaluatedIsValid(spec: Spec, c: Candidate, identities: Identities, allowFixtureOnly: bool)
    requires ValidCandidate(c) && Usable(spec, identities)
    ensures var e := Evaluated(spec, c, identities, allowFixtureOnly);
      && ValidEvidence(e) && e.profileID == c.profileID && e.detectorVersion == c.detectorVersion
      && e.profileVersion == c.profileVersion
      && (e.reason.Selected? <==> Passes(spec, c, identities, allowFixtureOnly))
      && (!e.reason.Selected? ==> Unmatched(e.reason))
      && (e.reason.Selected? ==> ValidEvidence(e.(reason := MultipleMatches)))
  {
    hide ValidEvidenceID, ValidIdentity;
  }

  // ---- decisions -------------------------------------------------------------------------------------------

  function Priorities(): seq<Reason> {
    [InvalidIdentity, IdentityMismatch, FirmwareMismatch, FixtureOptInRequired, ProfileRevoked, ProfileSuperseded,
     ProfileUnqualified, ProfileDefaultOff, CandidateDisabled]
  }

  predicate HasReason(evidence: seq<Evidence>, reason: Reason) {
    exists i :: 0 <= i < |evidence| && evidence[i].reason == reason
  }

  /** The first priority from p on that some candidate has. */
  function FirstPriority(evidence: seq<Evidence>, p: nat := 0): Reason
    requires p <= |Priorities()|
    decreases |Priorities()| - p
  {
    if p == |Priorities()| then InvalidIdentity
    else if HasReason(evidence, Priorities()[p]) then Priorities()[p]
    else FirstPriority(evidence, p + 1)
  }

  /** noMatchReason. */
  method NoMatchReason(evidence: seq<Evidence>) returns (reason: Reason)
    ensures reason == FirstPriority(evidence)
  {
    var priorities := Priorities();
    for p := 0 to |priorities|
      invariant FirstPriority(evidence) == FirstPriority(evidence, p)
    {
      for i := 0 to |evidence|
        invariant forall k :: 0 <= k < i ==> evidence[k].reason != priorities[p]
      {
        if evidence[i].reason == priorities[p] {
          return priorities[p];
        }
      }
    }
    reason := InvalidIdentity;
  }

  /** For unmatched candidates the chosen reason is always one of their own. */
  lemma {:induction false} PriorityIsPresent(evidence: seq<Evidence>, p: nat)
    requires |evidence| > 0 && p <= |Priorities()|
    requires forall i :: 0 <= i < |evidence| ==> Unmatched(evidence[i].reason)
    requires forall q :: 0 <= q < p ==> evidence[0].reason != Priorities()[q]
    ensures HasReason(evidence, FirstPriority(evidence, p)) && Unmatched(FirstPriority(evidence, p))
    decreases |Priorities()| - p
  {
    if p == |Priorities()| {
      PrioritiesCover(evidence[0].reason);
    } else if !HasReason(evidence, Priorities()[p]) {
      PriorityIsPresent(evidence, p + 1);
    } else {
      var i :| 0 <= i < |evidence| && evidence[i].reason == Priorities()[p];
    }
  }

  lemma PrioritiesCover(reason: Reason)
    requires Unmatched(reason)
    ensures exists p :: 0 <= p < |Priorities()| && Priorities()[p] == reason
  {
    var p := match reason
      case InvalidIdentity => 0
      case IdentityMismatch => 1
      case FirmwareMismatch => 2
      case FixtureOptInRequired => 3
      case ProfileRevoked => 4
      case ProfileSuperseded => 5
      case ProfileUnqualified => 6
      case ProfileDefaultOff => 7
      case _ => 8;
    assert Priorities()[p] == reason;
  }

  function Bares(spec: Spec, reason: Reason): (evidence: seq<Evidence>)
    ensures |evidence| == |spec.candidates|
    ensures forall i :: 0 <= i < |evidence| ==> evidence[i] == Bare(spec.candidates[i], reason)
  {
    seq(|spec.candidates|, i requires 0 <= i < |spec.candidates| => Bare(spec.candidates[i], reason))
  }

  function Evaluations(spec: Spec, identities: Identities, allowFixtureOnly: bool): (evidence: seq<Evidence>)
    requires Complete(identities)
    ensures |evidence| == |spec.candidates|
    ensures forall i :: 0 <= i < |evidence| ==> evidence[i] == Evaluated(spec, spec.candidates[i], identities, allowFixtureOnly)
  {
    seq(|spec.candidates|, i requires 0 <= i < |spec.candidates| => Evaluated(spec, spec.candidates[i], identities, allowFixtureOnly))
  }

  function Relabelled(evidence: seq<Evidence>): (relabelled: seq<Evidence>)
    ensures |relabelled| == |evidence|
    ensures forall i :: 0 <= i < |evidence| ==>
      relabelled[i] == if evidence[i].reason.Selected? then evidence[i].(reason := MultipleMatches) else evidence[i]
  {
    seq(|evidence|, i requires 0 <= i < |evidence| =>
      if evidence[i].reason.Selected? then evidence[i].(reason := MultipleMatches) else evidence[i])
  }

  /** The position of the only selected candidate. */
  function FirstSelected(evidence: seq<Evidence>): (i: nat)
    requires Count(evidence, Selected) > 0
    ensures i < |evidence| && evidence[i].reason.Selected?
  {
    var last := |evidence| - 1;
    if Count(evidence[..last], Selected) > 0 then FirstSelected(evidence[..last]) else last
  }

  /** failureDecision. */
  function Failure(spec: Spec, reason: Reason): Decision {
    Decision(NoMatch, reason, "", None, Bares(spec, reason))
  }

  /** The decision over evaluated candidates. */
  function Ranking(evidence: seq<Evidence>): Decision
    requires |evidence| > 0
  {
    var matched := Count(evidence, Selected);
    if matched == 0 then Decision(NoMatch, FirstPriority(evidence), "", None, evidence)
    else if matched > 1 then Decision(Ambiguous, MultipleMatches, "", None, Relabelled(evidence))
    else
      var selected := evidence[FirstSelected(evidence)];
      Decision(Matched, Selected, selected.profileID, Some(selected.profileVersion), evidence)
  }

  /** Detect, as a function of what was read. */
  function Decided(spec: Spec, readings: Readings, allowFixtureOnly: bool): Decision
    requires |spec.candidates| > 0 && (readings.Read? ==> Complete(readings.identities))
  {
    if readings.Stopped? then Failure(spec, readings.reason)
    else if spec.parseVersion(readings.identities[Firmware].value).None? then Failure(spec, InvalidIdentity)
    else Ranking(Evaluations(spec, readings.identities, allowFixtureOnly))
  }

  /** The positions matched lists, in order, are the selected ones. */
  predicate Lists(matched: seq<nat>, evidence: seq<Evidence>) {
    && |matched| == Count(evidence, Selected)
    && (|matched| > 0 ==> matched[0] == FirstSelected(evidence))
    && forall i :: 0 <= i < |evidence| ==> (evidence[i].reason.Selected? <==> i in matched)
  }

  lemma ListsExtend(matched: seq<nat>, evidence: seq<Evidence>, e: Evidence)
    requires Lists(matched, evidence) && forall k :: 0 <= k < |matched| ==> matched[k] < |evidence|
    ensures e.reason.Selected? ==> Lists(matched + [|evidence|], evidence + [e])
    ensures !e.reason.Selected? ==> Lists(matched, evidence + [e])
  {
    var longer, more := evidence + [e], matched + [|evidence|];
    assert longer[..|longer| - 1] == evidence;
    assert forall i :: 0 <= i < |evidence| ==> longer[i] == evidence[i];
    assert more[|matched|] == |evidence|;
    assert forall x :: x in more <==> x in matched || x == |evidence|;
  }

  /** The loop of Detect over the candidates. */
  method EvaluateAll(spec: Spec, identities: Identities, allowFixtureOnly: bool) returns (evidence: seq<Evidence>, matched: seq<nat>)
    requires Complete(identities)
    ensures evidence == Evaluations(spec, identities, allowFixtureOnly) && Lists(matched, evidence)
  {
    hide Evaluated, Lists;
    evidence, matched := [], [];
    assert Lists([], []) by { NothingListed(); }
    for index := 0 to |spec.candidates|
      invariant evidence == Evaluations(spec, identities, allowFixtureOnly)[..index]
      invariant Lists(matched, evidence) && forall k :: 0 <= k < |matched| ==> matched[k] < index
    {
      var e := EvaluateCandidate(spec, spec.candidates[index], identities, allowFixtureOnly);
      ListsExtend(matched, evidence, e);
      if e.reason.Selected? {
        matched := matched + [index];
      }
      evidence := evidence + [e];
    }
  }

  lemma NothingListed()
    ensures Lists([], [])
  {
  }

  /** A detector and one reply for each of its declarations. */
  predicate Readable(spec: Spec, replies: seq<Reply>) {
    ValidSpec(spec) && |replies| >= |spec.plan| && forall i :: 0 <= i < |replies| ==> PossibleReply(replies[i])
  }

  lemma ReadingsAreSound(spec: Spec, replies: seq<Reply>)
    requires Readable(spec, replies)
    ensures var readings := ReadingsOf(spec, replies);
      && (readings.Stopped? ==> StopReason(readings.reason))
      && (readings.Read? ==> IdentitiesHold(spec.plan, |spec.plan|, readings.identities) && Complete(readings.identities))
  {
    hide StopAt, PossibleReply, StopReason, IdentitiesHold, UsedEvidence, CandidatesInOrder, ReadingsOf, Produces;
    ReadIffNothingStops(spec, replies, 0);
    if ReadingsOf(spec, replies).Read? {
      ReadIsSound(spec, replies, |spec.plan|);
      PlanIsComplete(spec.plan, IdentitiesRead(spec, replies, |spec.plan|));
    }
  }

  /** The decision on a reader's replies. */
  function DecisionOn(spec: Spec, replies: seq<Reply>, allowFixtureOnly: bool): Decision
    requires Readable(spec, replies)
  {
    ReadingsAreSound(spec, replies);
    Decided(spec, ReadingsOf(spec, replies), allowFixtureOnly)
  }

  /** Detect: reads, evaluates and decides; the decision always passes the checks
      for storing it. */
  method Detect(spec: Spec, replies: seq<Reply>, allowFixtureOnly: bool) returns (decision: Decision)
    requires Readable(spec, replies)
    ensures decision == DecisionOn(spec, replies, allowFixtureOnly)
    ensures ValidDecision(decision)
  {
    hide IdentitiesHold, CandidatesInOrder, ValidDecision, Evaluated, DecodeProbe, ReadingsOf, StopReason;
    var read := ReadIdentities(spec, replies);
    ReadingsAreSound(spec, replies);
    if read.Stopped? {
      FailureIsValid(spec, read.reason);
      return Failure(spec, read.reason);
    }
    if spec.parseVersion(read.identities[Firmware].value).None? {
      assert StopReason(InvalidIdentity) by { InvalidIdentityStops(); }
      FailureIsValid(spec, InvalidIdentity);
      return Failure(spec, InvalidIdentity);
    }
    var evidence, matched := EvaluateAll(spec, read.identities, allowFixtureOnly);
    UsableIdentities(spec, read.identities);
    RankingIsValid(spec, read.identities, allowFixtureOnly);
    decision := Decide(evidence, matched);
  }

  lemma InvalidIdentityStops()
    ensures StopReason(InvalidIdentity)
  {
  }

  /** The end of Detect: relabels in place when several candidates matched. */
  method Decide(evidence: seq<Evidence>, matched: seq<nat>) returns (decision: Decision)
    requires |evidence| > 0 && Lists(matched, evidence)
    ensures decision == Ranking(evidence)
  {
    if |matched| == 0 {
      var reason := NoMatchReason(evidence);
      return Decision(NoMatch, reason, "", None, evidence);
    }
    if |matched| > 1 {
      var relabelled := evidence;
      for k := 0 to |matched|
        invariant |relabelled| == |evidence|
        invariant forall i :: 0 <= i < |evidence| ==>
          relabelled[i] == if i in matched[..k] then evidence[i].(reason := MultipleMatches) else evidence[i]
      {
        if matched[k] < |evidence| {
          relabelled := relabelled[matched[k] := relabelled[matched[k]].(reason := MultipleMatches)];
        }
        assert matched[..k + 1] == matched[..k] + [matched[k]];
      }
      assert matched[..|matched|] == matched;
      assert relabelled == Relabelled(evidence);
      return Decision(Ambiguous, MultipleMatches, "", None, relabelled);
    }
    var selected := evidence[matched[0]];
    return Decision(Matched, Selected, selected.profileID, Some(selected.profileVersion), evidence);
  }

  lemma PlanIsComplete(plan: seq<Declaration>, identities: Identities)
    requires ValidPlan(plan) && IdentitiesHold(plan, |plan|, identities)
    ensures Complete(identities)
  {
    hide ValidEvidenceID;
  }

  lemma UsableIdentities(spec: Spec, identities: Identities)
    requires IdentitiesHold(spec.plan, |spec.plan|, identities) && Complete(identities)
    requires spec.parseVersion(identities[Firmware].value).Some?
    ensures Usable(spec, identities)
  {
    hide ValidEvidenceID;
  }

  // ---- every decision is valid ------------------------------------------------------------------------------

  /** Evidence of the detector's candidates, in their order. */
  predicate OfCandidates(spec: Spec, evidence: seq<Evidence>) {
    && |evidence| == |spec.candidates|
    && forall i :: 0 <= i < |evidence| ==>
        && ValidEvidence(evidence[i]) && evidence[i].profileID == spec.candidates[i].profileID
        && evidence[i].detectorVersion == spec.candidates[i].detectorVersion
  }

  lemma CandidateEvidenceIsOrdered(spec: Spec, evidence: seq<Evidence>)
    requires ValidSpec(spec) && OfCandidates(spec, evidence)
    ensures 0 < |evidence| <= MAX_PROFILE_DEPENDENCIES && Ordered(evidence)
    ensures forall i :: 0 <= i < |evidence| ==> ValidEvidence(evidence[i]) && evidence[i].detectorVersion == evidence[0].detectorVersion
  {
    hide ValidEvidence, Less;
  }

  lemma NoneCounted(evidence: seq<Evidence>, reason: Reason)
    requires forall i :: 0 <= i < |evidence| ==> evidence[i].reason != reason
    ensures Count(evidence, reason) == 0
  {
  }

  lemma FailureIsValid(spec: Spec, reason: Reason)
    requires ValidSpec(spec) && StopReason(reason)
    ensures ValidDecision(Failure(spec, reason))
  {
    hide OutcomeFits, ValidEvidence, Ordered;
    var d := Failure(spec, reason);
    BaresAreEvidence(spec, reason);
    CandidateEvidenceIsOrdered(spec, d.evidence);
    FailureOutcome(d.evidence, reason);
  }

  lemma BaresAreEvidence(spec: Spec, reason: Reason)
    requires ValidSpec(spec) && StopReason(reason)
    ensures OfCandidates(spec, Bares(spec, reason))
    ensures forall i :: 0 <= i < |spec.candidates| ==> Bares(spec, reason)[i].reason == reason
  {
    hide Less, ValidIdentity;
    forall i | 0 <= i < |spec.candidates|
      ensures ValidEvidence(Bares(spec, reason)[i])
    {
      assert ValidCandidate(spec.candidates[i]);
    }
  }

  lemma FailureOutcome(evidence: seq<Evidence>, reason: Reason)
    requires |evidence| > 0 && StopReason(reason) && forall i :: 0 <= i < |evidence| ==> evidence[i].reason == reason
    ensures OutcomeFits(Decision(NoMatch, reason, "", None, evidence)) && EqualScores(evidence)
  {
    NoneCounted(evidence, Selected);
    NoneCounted(evidence, EqualBest);
    NoneCounted(evidence, MultipleMatches);
    NoneCounted(evidence, LowerScore);
    assert evidence[0].reason == reason;
  }

  lemma EvaluationsOfCandidates(spec: Spec, identities: Identities, allowFixtureOnly: bool)
    requires ValidSpec(spec) && Complete(identities) && Usable(spec, identities)
    ensures var evidence := Evaluations(spec, identities, allowFixtureOnly);
      && OfCandidates(spec, evidence) && OfCandidates(spec, Relabelled(evidence))
      && forall i :: 0 <= i < |evidence| ==> evidence[i].reason.Selected? || Unmatched(evidence[i].reason)
  {
    hide Evaluated, ValidEvidence, Usable;
    forall i | 0 <= i < |spec.candidates|
      ensures var e := Evaluated(spec, spec.candidates[i], identities, allowFixtureOnly);
        && ValidEvidence(e) && e.profileID == spec.candidates[i].profileID && e.detectorVersion == spec.candidates[i].detectorVersion
        && (!e.reason.Selected? ==> Unmatched(e.reason)) && (e.reason.Selected? ==> ValidEvidence(e.(reason := MultipleMatches)))
    {
      EvaluatedIsValid(spec, spec.candidates[i], identities, allowFixtureOnly);
    }
  }

  lemma {:induction false} RelabelledCounts(evidence: seq<Evidence>)
    requires forall i :: 0 <= i < |evidence| ==> !evidence[i].reason.MultipleMatches?
    ensures Count(Relabelled(evidence), MultipleMatches) == Count(evidence, Selected)
    ensures Count(Relabelled(evidence), Selected) == 0
  {
    NoneCounted(Relabelled(evidence), Selected);
    if |evidence| > 0 {
      hide Unmatched;
      var last := |evidence| - 1;
      RelabelledCounts(evidence[..last]);
      RelabelledFront(evidence);
      assert evidence[..last] == evidence[..|evidence| - 1];
    }
  }

  lemma RelabelledFront(evidence: seq<Evidence>)
    requires |evidence| > 0
    ensures Relabelled(evidence)[..|evidence| - 1] == Relabelled(evidence[..|evidence| - 1])
  {
  }

  lemma RankingIsValid(spec: Spec, identities: Identities, allowFixtureOnly: bool)
    requires ValidSpec(spec) && Complete(identities) && Usable(spec, identities)
    ensures ValidDecision(Ranking(Evaluations(spec, identities, allowFixtureOnly)))
  {
    hide ValidSpec, Usable, OfCandidates;
    var evidence := Evaluations(spec, identities, allowFixtureOnly);
    EvaluationsOfCandidates(spec, identities, allowFixtureOnly);
    CandidateEvidenceIsOrdered(spec, evidence);
    CandidateEvidenceIsOrdered(spec, Relabelled(evidence));
    RankedOutcome(evidence);
  }

  /** Evidence as evaluation leaves it: selected, or unmatched for a reason. */
  predicate Evaluable(evidence: seq<Evidence>) {
    forall i :: 0 <= i < |evidence| ==>
      ValidIdentity(evidence[i].profileID) && (evidence[i].reason.Selected? || Unmatched(evidence[i].reason))
  }

  lemma NoOtherRanks(evidence: seq<Evidence>)
    requires Evaluable(evidence)
    ensures Count(evidence, EqualBest) == 0 && Count(evidence, MultipleMatches) == 0 && Count(evidence, LowerScore) == 0
    ensures forall i :: 0 <= i < |evidence| ==> !evidence[i].reason.EqualBest? && !evidence[i].reason.MultipleMatches? && !evidence[i].reason.LowerScore?
    ensures Count(evidence, Selected) == 0 ==> forall i :: 0 <= i < |evidence| ==> Unmatched(evidence[i].reason)
  {
    hide ValidIdentity;
    NoneCounted(evidence, EqualBest);
    NoneCounted(evidence, MultipleMatches);
    NoneCounted(evidence, LowerScore);
  }

  lemma NothingMatched(evidence: seq<Evidence>)
    requires |evidence| > 0 && Evaluable(evidence) && Count(evidence, Selected) == 0
    ensures OutcomeFits(Decision(NoMatch, FirstPriority(evidence), "", None, evidence))
  {
    hide Evaluable, FirstPriority;
    NoOtherRanks(evidence);
    PriorityIsPresent(evidence, 0);
  }

  lemma SeveralMatched(evidence: seq<Evidence>)
    requires Evaluable(evidence) && Count(evidence, Selected) > 1
    ensures OutcomeFits(Decision(Ambiguous, MultipleMatches, "", None, Relabelled(evidence)))
  {
    hide Evaluable, LowerThan, Unmatched;
    NoOtherRanks(evidence);
    RelabelledCounts(evidence);
    NoneCounted(Relabelled(evidence), EqualBest);
    NoneCounted(Relabelled(evidence), LowerScore);
  }

  lemma OneMatched(evidence: seq<Evidence>)
    requires Evaluable(evidence) && Count(evidence, Selected) == 1
    ensures var selected := evidence[FirstSelected(evidence)];
      OutcomeFits(Decision(Matched, Selected, selected.profileID, Some(selected.profileVersion), evidence))
  {
    hide Evaluable, Count, ValidIdentity, Unmatched, FirstSelected;
    NoOtherRanks(evidence);
    var at := OneSelected(evidence);
    assert FirstSelected(evidence) == at;
    IdentityAt(evidence, at);
  }

  lemma IdentityAt(evidence: seq<Evidence>, i: nat)
    requires Evaluable(evidence) && i < |evidence|
    ensures ValidIdentity(evidence[i].profileID)
  {
    hide ValidIdentity;
  }

  lemma RankedOutcome(evidence: seq<Evidence>)
    requires |evidence| > 0 && Evaluable(evidence)
    ensures OutcomeFits(Ranking(evidence)) && EqualScores(Ranking(evidence).evidence)
  {
    hide OutcomeFits, Evaluable, Count, FirstPriority, Unmatched;
    NoOtherRanks(evidence);
    if Count(evidence, Selected) == 0 {
      NothingMatched(evidence);
    } else if Count(evidence, Selected) > 1 {
      SeveralMatched(evidence);
    } else {
      OneMatched(evidence);
    }
  }

  // ---- when a profile is selected --------------------------------------------------------------------------------

  predicate PassesAt(spec: Spec, identities: Identities, allowFixtureOnly: bool, i: nat)
    requires Complete(identities) && i < |spec.candidates|
  {
    Passes(spec, spec.candidates[i], identities, allowFixtureOnly)
  }

  /** Candidate i passes every gate, and no other does. */
  predicate OnlyPasses(spec: Spec, identities: Identities, allowFixtureOnly: bool, i: nat)
    requires Complete(identities) && i < |spec.candidates|
  {
    && PassesAt(spec, identities, allowFixtureOnly, i)
    && forall j: nat :: j < |spec.candidates| && PassesAt(spec, identities, allowFixtureOnly, j) ==> j == i
  }

  /** Detection matches exactly when one candidate passes every gate, and then
      selects that one; it finds nothing exactly when none does. */
  lemma MatchesExactlyWhenOnePasses(spec: Spec, identities: Identities, allowFixtureOnly: bool)
    requires ValidSpec(spec) && Complete(identities) && Usable(spec, identities)
    ensures var d := Decided(spec, Read(identities), allowFixtureOnly);
      && (d.outcome.Matched? <==> exists i: nat :: i < |spec.candidates| && OnlyPasses(spec, identities, allowFixtureOnly, i))
      && (forall i: nat :: i < |spec.candidates| && d.outcome.Matched? && PassesAt(spec, identities, allowFixtureOnly, i) ==>
            d.selectedProfileID == spec.candidates[i].profileID && d.selectedVersion == Some(spec.candidates[i].profileVersion))
      && (d.outcome.NoMatch? <==> forall i: nat :: i < |spec.candidates| ==> !PassesAt(spec, identities, allowFixtureOnly, i))
  {
    hide Evaluated, Passes, ValidEvidence, FirstPriority, ValidSpec;
    var evidence := Evaluations(spec, identities, allowFixtureOnly);
    SelectedIsPassing(spec, identities, allowFixtureOnly);
    if Count(evidence, Selected) == 1 {
      var at := OneSelected(evidence);
      assert OnlyPasses(spec, identities, allowFixtureOnly, at);
    }
    if i: nat :| i < |spec.candidates| && OnlyPasses(spec, identities, allowFixtureOnly, i) {
      OnlyOneCounted(evidence, i);
    }
  }

  lemma SelectedIsPassing(spec: Spec, identities: Identities, allowFixtureOnly: bool)
    requires ValidSpec(spec) && Complete(identities) && Usable(spec, identities)
    ensures var evidence := Evaluations(spec, identities, allowFixtureOnly);
      forall i: nat :: i < |spec.candidates| ==>
        (evidence[i].reason.Selected? <==> PassesAt(spec, identities, allowFixtureOnly, i)) &&
        evidence[i].profileID == spec.candidates[i].profileID && evidence[i].profileVersion == spec.candidates[i].profileVersion
  {
    hide Evaluated, Usable, Passes, ValidEvidence;
    forall i: nat | i < |spec.candidates|
      ensures var e := Evaluated(spec, spec.candidates[i], identities, allowFixtureOnly);
        (e.reason.Selected? <==> PassesAt(spec, identities, allowFixtureOnly, i)) &&
        e.profileID == spec.candidates[i].profileID && e.profileVersion == spec.candidates[i].profileVersion
    {
      EvaluatedIsValid(spec, spec.candidates[i], identities, allowFixtureOnly);
    }
  }

  lemma {:induction false} OnlyOneCounted(evidence: seq<Evidence>, i: nat)
    requires i < |evidence| && evidence[i].reason.Selected?
    requires forall j :: 0 <= j < |evidence| && evidence[j].reason.Selected? ==> j == i
    ensures Count(evidence, Selected) == 1
    decreases |evidence|
  {
    var last := |evidence| - 1;
    if i < last {
      OnlyOneCounted(evidence[..last], i);
    } else {
      NoneCounted(evidence[..last], Selected);
    }
  }

  /** Every read is accepted, the firmware text is a version, and candidate i alone
      passes every gate on what was read. */
  predicate Identifies(spec: Spec, replies: seq<Reply>, allowFixtureOnly: bool, i: nat)
    requires Readable(spec, replies) && i < |spec.candidates|
  {
    ReadingsAreSound(spec, replies);
    var readings := ReadingsOf(spec, replies);
    && readings.Read?
    && spec.parseVersion(readings.identities[Firmware].value).Some?
    && OnlyPasses(spec, readings.identities, allowFixtureOnly, i)
  }

  /** Some candidate passes every gate on what was read. */
  predicate SomePasses(spec: Spec, replies: seq<Reply>, allowFixtureOnly: bool)
    requires Readable(spec, replies)
  {
    ReadingsAreSound(spec, replies);
    var readings := ReadingsOf(spec, replies);
    && readings.Read?
    && exists i: nat :: i < |spec.candidates| && PassesAt(spec, readings.identities, allowFixtureOnly, i)
  }

  /** On any reader: detection matches exactly when the replies identify one
      candidate, and then selects that one; it finds nothing exactly when no
      candidate passes, be it for a read that stopped. */
  lemma DetectionMatchesExactly(spec: Spec, replies: seq<Reply>, allowFixtureOnly: bool)
    requires Readable(spec, replies)
    ensures var d := DecisionOn(spec, replies, allowFixtureOnly);
      && (d.outcome.Matched? <==> exists i: nat :: i < |spec.candidates| && Identifies(spec, replies, allowFixtureOnly, i))
      && (forall i: nat :: i < |spec.candidates| && Identifies(spec, replies, allowFixtureOnly, i) ==>
            d.selectedProfileID == spec.candidates[i].profileID && d.selectedVersion == Some(spec.candidates[i].profileVersion))
      && (d.outcome.NoMatch? <==> !SomePasses(spec, replies, allowFixtureOnly))
  {
    hide ReadingsOf, OnlyPasses, IdentitiesHold, Evaluations, Ranking, Failure, ValidSpec, PossibleReply;
    ReadingsAreSound(spec, replies);
    var readings := ReadingsOf(spec, replies);
    if readings.Read? && spec.parseVersion(readings.identities[Firmware].value).Some? {
      UsableIdentities(spec, readings.identities);
      MatchesExactlyWhenOnePasses(spec, readings.identities, allowFixtureOnly);
      forall i: nat | i < |spec.candidates|
        ensures Identifies(spec, replies, allowFixtureOnly, i) <==> OnlyPasses(spec, readings.identities, allowFixtureOnly, i)
        ensures OnlyPasses(spec, readings.identities, allowFixtureOnly, i) ==> PassesAt(spec, readings.identities, allowFixtureOnly, i)
      {
        OnlyPassesPasses(spec, readings.identities, allowFixtureOnly, i);
      }
    } else {
      assert DecisionOn(spec, replies, allowFixtureOnly).outcome.NoMatch? by { FailureFindsNothing(spec); }
      assert forall i: nat :: i < |spec.candidates| ==> !Identifies(spec, replies, allowFixtureOnly, i);
    }
  }

  lemma OnlyPassesPasses(spec: Spec, identities: Identities, allowFixtureOnly: bool, i: nat)
    requires Complete(identities) && i < |spec.candidates|
    ensures OnlyPasses(spec, identities, allowFixtureOnly, i) ==> PassesAt(spec, identities, allowFixtureOnly, i)
  {
  }

  lemma FailureFindsNothing(spec: Spec)
    ensures forall reason :: Failure(spec, reason).outcome.NoMatch?
  {
  }
}
