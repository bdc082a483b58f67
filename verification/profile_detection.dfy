/** Profile detection: the decisions Detect can build on any reader behaviour,
    and the checks a decision must pass before it is stored. */
module ProfileDetection {
  import opened Foundation

  const MAX_CONTRACT_STRING_BYTES: int := 4096
  const MAX_PROFILE_DEPENDENCIES: int := 4096
  /** The default bound on evidence identities, which every constructed result meets. */
  const MAX_EVIDENCE_ID_BYTES: int := 256
  const MAX_RAW_WORDS: int := 125
  const MAX_GATES: int := 3

  /** A version text is canonical, so its three numbers stand for it. */
  datatype Version = Version(major: nat, minor: nat, patch: nat)

  predicate VersionLess(a: Version, b: Version) {
    || a.major < b.major
    || (a.major == b.major && a.minor < b.minor)
    || (a.major == b.major && a.minor == b.minor && a.patch < b.patch)
  }

  datatype IdentityField = Manufacturer | Model | Firmware

  datatype Reason =
    | Selected | EqualBest | MultipleMatches | LowerScore
    | IdentityMismatch | FirmwareMismatch | InvalidIdentity
    | FixtureOptInRequired | CandidateDisabled | ProfileDefaultOff | ProfileRevoked | ProfileSuperseded | ProfileUnqualified
    | ReadError | ProbeException | IncompleteProbe | InvalidProbeResult | ContextCancelled

  datatype Outcome = Matched | NoMatch | Ambiguous

  datatype ProfileState = Active | Revoked | Superseded | OtherState(name: string)

  /** A declared candidate bound to its catalog profile. */
  datatype Candidate = Candidate(
    profileID: string, profileVersion: Version, detectorVersion: Version, qualificationVersion: Version,
    state: ProfileState, qualified: bool, defaultEnabled: bool,
    score: uint32, enabled: bool, fixtureOnly: bool,
    manufacturer: string, model: string, minimumFirmware: Version, maximumFirmware: Version)

  datatype Evidence = Evidence(
    profileID: string, profileVersion: Version, score: uint32, reason: Reason,
    gates: seq<IdentityField>, evidenceIDs: seq<string>, detectorVersion: Version, qualificationVersion: Version)

  datatype Decision = Decision(
    outcome: Outcome, reason: Reason, selectedProfileID: string, selectedVersion: Option<Version>, evidence: seq<Evidence>)

  // ---- text ------------------------------------------------------------------------------

  predicate IdentityCharacter(c: char) {
    'a' <= c <= 'z' || 'A' <= c <= 'Z' || '0' <= c <= '9' || c == '.' || c == '-' || c == '_' || c == ':'
  }

  predicate ValidIdentity(s: string) {
    0 < |s| <= MAX_CONTRACT_STRING_BYTES && forall i :: 0 <= i < |s| ==> IdentityCharacter(s[i])
  }

  predicate ValidEvidenceID(s: string, maximum: int) {
    s != "" && |s| <= maximum && ValidIdentity(s)
  }

  /** Byte-wise string order. */
  predicate Less(a: string, b: string) {
    |b| > 0 && (|a| == 0 || a[0] < b[0] || (a[0] == b[0] && Less(a[1..], b[1..])))
  }

  lemma {:induction false} LessIsTotal(a: string, b: string)
    ensures !(Less(a, b) && Less(b, a))
    ensures a != b ==> Less(a, b) || Less(b, a)
    decreases |a|
  {
    if |a| > 0 && |b| > 0 {
      LessIsTotal(a[1..], b[1..]);
      assert a == [a[0]] + a[1..] && b == [b[0]] + b[1..];
    }
  }

  lemma {:induction false} LessIsTransitive(a: string, b: string, c: string)
    requires Less(a, b) && Less(b, c)
    ensures Less(a, c)
    decreases |a|
  {
    if |a| > 0 && a[0] == b[0] && b[0] == c[0] {
      LessIsTransitive(a[1..], b[1..], c[1..]);
    }
  }

  // ---- what a stored decision must satisfy --------------------------------------------------------

  function Rank(field: IdentityField): int {
    match field
    case Manufacturer => 0
    case Model => 1
    case Firmware => 2
  }

  /** Which number of passed gates a reason can come with. */
  predicate GatesFit(reason: Reason, gates: int) {
    match reason
    case Selected => gates == 3
    case EqualBest => gates == 3
    case MultipleMatches => gates == 3
    case LowerScore => gates == 3
    case IdentityMismatch => gates <= 1
    case FirmwareMismatch => gates == 2
    case _ => gates == 0
  }

  predicate ValidEvidence(e: Evidence) {
    && ValidIdentity(e.profileID) && e.score != 0
    && |e.gates| <= MAX_GATES && |e.evidenceIDs| == |e.gates|
    && (forall i, j :: 0 <= i < j < |e.gates| ==> Rank(e.gates[i]) < Rank(e.gates[j]))
    && (forall i :: 0 <= i < |e.evidenceIDs| ==> ValidEvidenceID(e.evidenceIDs[i], MAX_EVIDENCE_ID_BYTES))
    && (forall i, j :: 0 <= i < j < |e.evidenceIDs| ==> e.evidenceIDs[i] != e.evidenceIDs[j])
    && GatesFit(e.reason, |e.gates|)
  }

  predicate Ordered(evidence: seq<Evidence>) {
    forall i :: 1 <= i < |evidence| ==> InOrder(evidence, i)
  }

  predicate InOrder(evidence: seq<Evidence>, i: nat)
    requires 1 <= i < |evidence|
  {
    Less(evidence[i - 1].profileID, evidence[i].profileID)
  }

  /** Neighbours in order leave no profile twice. */
  lemma OrderedIsDistinct(evidence: seq<Evidence>)
    requires Ordered(evidence)
    ensures forall i, j :: 0 <= i < j < |evidence| ==> evidence[i].profileID != evidence[j].profileID
  {
    hide Less;
    forall i, j | 0 <= i < j < |evidence|
      ensures evidence[i].profileID != evidence[j].profileID
    {
      OrderedAcross(evidence, i, j);
      LessIsTotal(evidence[i].profileID, evidence[j].profileID);
    }
  }

  lemma {:induction false} OrderedAcross(evidence: seq<Evidence>, i: nat, j: nat)
    requires Ordered(evidence) && i < j < |evidence|
    ensures Less(evidence[i].profileID, evidence[j].profileID)
    decreases j
  {
    hide Less;
    assert InOrder(evidence, j);
    if i < j - 1 {
      OrderedAcross(evidence, i, j - 1);
      LessIsTransitive(evidence[i].profileID, evidence[j - 1].profileID, evidence[j].profileID);
    }
  }

  function Count(evidence: seq<Evidence>, reason: Reason): (n: nat)
    ensures n <= |evidence|
    ensures n == 0 <==> forall i :: 0 <= i < |evidence| ==> evidence[i].reason != reason
  {
    if |evidence| == 0 then 0
    else Count(evidence[..|evidence| - 1], reason) + if evidence[|evidence| - 1].reason == reason then 1 else 0
  }

  predicate Ranked(reason: Reason) {
    reason.Selected? || reason.EqualBest? || reason.MultipleMatches? || reason.LowerScore?
  }

  predicate EqualScores(evidence: seq<Evidence>) {
    forall i, j :: 0 <= i < |evidence| && 0 <= j < |evidence| && evidence[i].reason.EqualBest? && evidence[j].reason.EqualBest? ==>
      evidence[i].score == evidence[j].score
  }

  /** Every lower-scored item scores below every item of the reason. */
  predicate LowerThan(evidence: seq<Evidence>, reason: Reason) {
    forall i, j :: 0 <= i < |evidence| && 0 <= j < |evidence| && evidence[i].reason.LowerScore? && evidence[j].reason == reason ==>
      evidence[i].score < evidence[j].score
  }

  /** The outcome agrees with the evidence. */
  predicate OutcomeFits(d: Decision) {
    var selected, equal := Count(d.evidence, Selected), Count(d.evidence, EqualBest);
    var multiple, lower := Count(d.evidence, MultipleMatches), Count(d.evidence, LowerScore);
    match d.outcome
    case Matched =>
      && d.reason.Selected? && ValidIdentity(d.selectedProfileID) && d.selectedVersion.Some?
      && selected == 1 && equal == 0 && multiple == 0
      && (forall i :: 0 <= i < |d.evidence| && d.evidence[i].reason.Selected? ==>
          d.evidence[i].profileID == d.selectedProfileID && Some(d.evidence[i].profileVersion) == d.selectedVersion)
      && LowerThan(d.evidence, Selected)
    case Ambiguous =>
      && d.selectedProfileID == "" && d.selectedVersion.None? && selected == 0
      && (if d.reason.EqualBest? then equal >= 2 && multiple == 0 && LowerThan(d.evidence, EqualBest)
          else d.reason.MultipleMatches? && multiple >= 2 && equal == 0 && lower == 0)
    case NoMatch =>
      && !Ranked(d.reason) && d.selectedProfileID == "" && d.selectedVersion.None?
      && selected == 0 && equal == 0 && multiple == 0 && lower == 0
      && Count(d.evidence, d.reason) > 0
  }

  predicate ValidDecision(d: Decision) {
    && 0 < |d.evidence| <= MAX_PROFILE_DEPENDENCIES
    && Ordered(d.evidence)
    && (forall i :: 0 <= i < |d.evidence| ==> ValidEvidence(d.evidence[i]) && d.evidence[i].detectorVersion == d.evidence[0].detectorVersion)
    && EqualScores(d.evidence)
    && OutcomeFits(d)
  }

  /** The loop of validateDetectionEvidence over gates and evidence identities. */
  method ValidateEvidence(e: Evidence) returns (ok: bool)
    ensures ok <==> ValidEvidence(e)
  {
    if !ValidIdentity(e.profileID) || e.score == 0 || |e.gates| > MAX_GATES || |e.evidenceIDs| != |e.gates| {
      return false;
    }
    var previousRank := -1;
    var seen: set<string> := {};
    for index := 0 to |e.gates|
      invariant forall i, j :: 0 <= i < j < index ==> Rank(e.gates[i]) < Rank(e.gates[j])
      invariant if index == 0 then previousRank == -1 else previousRank == Rank(e.gates[index - 1])
      invariant forall i :: 0 <= i < index ==> ValidEvidenceID(e.evidenceIDs[i], MAX_EVIDENCE_ID_BYTES)
      invariant forall i, j :: 0 <= i < j < index ==> e.evidenceIDs[i] != e.evidenceIDs[j]
      invariant forall x :: x in seen <==> exists i :: 0 <= i < index && e.evidenceIDs[i] == x
    {
      hide ValidEvidenceID, Rank;
      RankIsNatural(e.gates[index]);
      var rank := Rank(e.gates[index]);
      if rank <= previousRank {
        return false;
      }
      previousRank := rank;
      if !ValidEvidenceID(e.evidenceIDs[index], MAX_EVIDENCE_ID_BYTES) || e.evidenceIDs[index] in seen {
        return false;
      }
      seen := seen + {e.evidenceIDs[index]};
    }
    return GatesFit(e.reason, |e.gates|);
  }

  lemma RankIsNatural(field: IdentityField)
    ensures Rank(field) >= 0
  {
  }

  /** The counters of validateDetectionDecision. */
  datatype Tally = Tally(selected: nat, equal: nat, multiple: nat, lower: nat, equalScore: uint32, selectedScore: uint32, present: bool)

  predicate CountsHold(t: Tally, evidence: seq<Evidence>, reason: Reason) {
    && t.selected == Count(evidence, Selected) && t.equal == Count(evidence, EqualBest)
    && t.multiple == Count(evidence, MultipleMatches) && t.lower == Count(evidence, LowerScore)
    && (t.present <==> Count(evidence, reason) > 0)
  }

  predicate ScoresHold(t: Tally, evidence: seq<Evidence>) {
    && (forall i :: 0 <= i < |evidence| && evidence[i].reason.EqualBest? ==> evidence[i].score == t.equalScore)
    && (t.selected == 1 ==> forall i :: 0 <= i < |evidence| && evidence[i].reason.Selected? ==> evidence[i].score == t.selectedScore)
  }

  predicate TallyHolds(t: Tally, evidence: seq<Evidence>, reason: Reason) {
    CountsHold(t, evidence, reason) && ScoresHold(t, evidence)
  }

  function One(condition: bool): nat { if condition then 1 else 0 }

  lemma CountStep(evidence: seq<Evidence>, n: nat, reason: Reason)
    requires n < |evidence|
    ensures Count(evidence[..n + 1], reason) == Count(evidence[..n], reason) + (if evidence[n].reason == reason then 1 else 0)
  {
    assert evidence[..n + 1][..n] == evidence[..n];
  }

  lemma CountsStep(t: Tally, evidence: seq<Evidence>, n: nat, reason: Reason, after: Tally)
    requires n < |evidence| && CountsHold(t, evidence[..n], reason)
    requires after.selected == t.selected + One(evidence[n].reason.Selected?)
    requires after.equal == t.equal + One(evidence[n].reason.EqualBest?)
    requires after.multiple == t.multiple + One(evidence[n].reason.MultipleMatches?)
    requires after.lower == t.lower + One(evidence[n].reason.LowerScore?)
    requires after.present == (t.present || evidence[n].reason == reason)
    ensures CountsHold(after, evidence[..n + 1], reason)
  {
    hide Count;
    CountStep(evidence, n, Selected);
    CountStep(evidence, n, EqualBest);
    CountStep(evidence, n, MultipleMatches);
    CountStep(evidence, n, LowerScore);
    CountStep(evidence, n, reason);
  }

  lemma ScoresStep(t: Tally, evidence: seq<Evidence>, n: nat, reason: Reason, after: Tally)
    requires n < |evidence| && TallyHolds(t, evidence[..n], reason)
    requires after.selected == t.selected + One(evidence[n].reason.Selected?)
    requires after.selectedScore == if evidence[n].reason.Selected? then evidence[n].score else t.selectedScore
    requires if evidence[n].reason.EqualBest? && t.equal == 0 then after.equalScore == evidence[n].score
      else after.equalScore == t.equalScore && (evidence[n].reason.EqualBest? ==> evidence[n].score == t.equalScore)
    ensures ScoresHold(after, evidence[..n + 1])
  {
    assert forall i :: 0 <= i < n ==> evidence[..n + 1][i] == evidence[..n][i];
  }

  lemma UnequalBest(t: Tally, evidence: seq<Evidence>, n: nat, reason: Reason)
    requires n < |evidence| && TallyHolds(t, evidence[..n], reason) && t.equal > 0
    requires evidence[n].reason.EqualBest? && evidence[n].score != t.equalScore
    ensures !EqualScores(evidence)
  {
    var i :| 0 <= i < n && evidence[..n][i].reason.EqualBest?;
    assert evidence[i] == evidence[..n][i];
  }

  method AddToTally(t: Tally, evidence: seq<Evidence>, n: nat, reason: Reason) returns (ok: bool, after: Tally)
    requires n < |evidence| && TallyHolds(t, evidence[..n], reason)
    ensures ok ==> TallyHolds(after, evidence[..n + 1], reason)
    ensures !ok ==> !EqualScores(evidence)
  {
    hide CountsHold, ScoresHold, EqualScores;
    var e := evidence[n];
    after := t.(present := t.present || e.reason == reason);
    match e.reason {
      case Selected => after := after.(selected := t.selected + 1, selectedScore := e.score);
      case EqualBest =>
        if t.equal == 0 {
          after := after.(equalScore := e.score);
        } else if e.score != t.equalScore {
          UnequalBest(t, evidence, n, reason);
          return false, after;
        }
        after := after.(equal := t.equal + 1);
      case MultipleMatches => after := after.(multiple := t.multiple + 1);
      case LowerScore => after := after.(lower := t.lower + 1);
      case _ =>
    }
    CountsStep(t, evidence, n, reason, after);
    ScoresStep(t, evidence, n, reason, after);
    ok := true;
  }

  method LowerScoresBelow(evidence: seq<Evidence>, score: uint32, ghost reason: Reason) returns (ok: bool)
    requires forall i :: 0 <= i < |evidence| && evidence[i].reason == reason ==> evidence[i].score == score
    requires exists i :: 0 <= i < |evidence| && evidence[i].reason == reason
    ensures ok <==> LowerThan(evidence, reason)
  {
    for i := 0 to |evidence|
      invariant forall k :: 0 <= k < i && evidence[k].reason.LowerScore? ==> evidence[k].score < score
    {
      if evidence[i].reason.LowerScore? && evidence[i].score >= score {
        return false;
      }
    }
    ok := true;
  }

  method SelectedIsNamed(d: Decision) returns (ok: bool)
    requires Count(d.evidence, Selected) == 1
    ensures ok <==> forall i :: 0 <= i < |d.evidence| && d.evidence[i].reason.Selected? ==>
      d.evidence[i].profileID == d.selectedProfileID && Some(d.evidence[i].profileVersion) == d.selectedVersion
  {
    ok := false;
    ghost var at := OneSelected(d.evidence);
    for i := 0 to |d.evidence|
      invariant ok <==> at < i && d.evidence[at].profileID == d.selectedProfileID && Some(d.evidence[at].profileVersion) == d.selectedVersion
    {
      if d.evidence[i].reason.Selected? {
        ok := d.evidence[i].profileID == d.selectedProfileID && Some(d.evidence[i].profileVersion) == d.selectedVersion;
      }
    }
  }

  lemma {:induction false} OneSelected(evidence: seq<Evidence>) returns (at: nat)
    requires Count(evidence, Selected) == 1
    ensures at < |evidence| && evidence[at].reason.Selected?
    ensures forall i :: 0 <= i < |evidence| && evidence[i].reason.Selected? ==> i == at
    decreases |evidence|
  {
    var front := evidence[..|evidence| - 1];
    assert forall i :: 0 <= i < |front| ==> front[i] == evidence[i];
    if evidence[|evidence| - 1].reason.Selected? {
      at := |evidence| - 1;
    } else {
      at := OneSelected(front);
    }
  }

  /** validateDetectionDecision decides exactly the declared meaning. */
  method ValidateDecision(d: Decision) returns (ok: bool)
    ensures ok <==> ValidDecision(d)
  {
    hide ValidEvidence, TallyHolds, LowerThan, EqualScores, Less;
    if |d.evidence| == 0 || |d.evidence| > MAX_PROFILE_DEPENDENCIES {
      return false;
    }
    for index := 1 to |d.evidence|
      invariant forall i :: 1 <= i < index ==> InOrder(d.evidence, i)
    {
      if !Less(d.evidence[index - 1].profileID, d.evidence[index].profileID) {
        assert !InOrder(d.evidence, index);
        return false;
      }
    }
    var tally := Tally(0, 0, 0, 0, 0, 0, false);
    EmptyTally(d.evidence, d.reason);
    for index := 0 to |d.evidence|
      invariant TallyHolds(tally, d.evidence[..index], d.reason)
      invariant forall i :: 0 <= i < index ==> ValidEvidence(d.evidence[i]) && d.evidence[i].detectorVersion == d.evidence[0].detectorVersion
    {
      var valid := ValidateEvidence(d.evidence[index]);
      if !valid || d.evidence[index].detectorVersion != d.evidence[0].detectorVersion {
        return false;
      }
      ok, tally := AddToTally(tally, d.evidence, index, d.reason);
      if !ok {
        return;
      }
    }
    assert d.evidence[..|d.evidence|] == d.evidence;
    ok := CheckOutcome(d, tally);
  }

  lemma EmptyTally(evidence: seq<Evidence>, reason: Reason)
    ensures TallyHolds(Tally(0, 0, 0, 0, 0, 0, false), evidence[..0], reason)
  {
  }

  /** The switch over the outcome. */
  method CheckOutcome(d: Decision, t: Tally) returns (ok: bool)
    requires TallyHolds(t, d.evidence, d.reason)
    ensures ok <==> OutcomeFits(d)
    ensures EqualScores(d.evidence)
  {
    hide LowerThan;
    match d.outcome {
      case Matched =>
        if !d.reason.Selected? || !ValidIdentity(d.selectedProfileID) || d.selectedVersion.None? ||
           t.selected != 1 || t.equal != 0 || t.multiple != 0
        {
          return false;
        }
        ok := SelectedIsNamed(d);
        if ok {
          ok := LowerScoresBelow(d.evidence, t.selectedScore, Selected);
        }
      case Ambiguous =>
        if d.selectedProfileID != "" || d.selectedVersion.Some? || t.selected != 0 {
          return false;
        }
        if d.reason.EqualBest? {
          if t.equal < 2 || t.multiple != 0 {
            return false;
          }
          ok := LowerScoresBelow(d.evidence, t.equalScore, EqualBest);
        } else {
          ok := d.reason.MultipleMatches? && t.multiple >= 2 && t.equal == 0 && t.lower == 0;
        }
      case NoMatch =>
        ok := !Ranked(d.reason) && d.selectedProfileID == "" && d.selectedVersion.None? &&
          t.selected == 0 && t.equal == 0 && t.multiple == 0 && t.lower == 0 && t.present;
    }
  }
}
