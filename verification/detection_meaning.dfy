/** What detection decides, told from the replies and the candidates' own fields:
    when a reader's replies are read, what they say, and which candidate that selects. */
module DetectionMeaning {
  import opened Foundation
  import opened ProfileDetection
  import opened Detector

  // ---- the text of a reply ---------------------------------------------------------------------

  /** Byte j of the words, high byte first. */
  function ByteAt(words: seq<uint16>, j: nat): int
    requires j < 2 * |words|
  {
    if j % 2 == 0 then words[j / 2] / 0x100 else words[j / 2] % 0x100
  }

  /** The words carry the text and are filled up with NUL. */
  predicate Spells(words: seq<uint16>, text: string) {
    && |text| <= 2 * |words|
    && (forall j :: 0 <= j < |text| ==> text[j] as int == ByteAt(words, j))
    && (forall j :: |text| <= j < 2 * |words| ==> ByteAt(words, j) == 0)
  }

  predicate IdentityText(text: string, maximum: int) {
    0 < |text| <= maximum && forall j :: 0 <= j < |text| ==> 0x20 <= text[j] as int <= 0x7e
  }

  lemma {:induction false} CharactersAt(words: seq<uint16>)
    ensures |Characters(words)| == 2 * |words|
    ensures forall j :: 0 <= j < 2 * |words| ==> Characters(words)[j] as int == ByteAt(words, j)
    decreases |words|
  {
    if |words| > 0 {
      var front := words[..|words| - 1];
      CharactersAt(front);
      forall j | 0 <= j < 2 * |words|
        ensures Characters(words)[j] as int == ByteAt(words, j)
      {
        if j < 2 * |front| {
          assert front[j / 2] == words[j / 2];
        } else {
          assert j / 2 == |front|;
        }
      }
    }
  }

  lemma {:induction false} TrimmedTail(s: string)
    ensures forall j :: |TrimNul(s)| <= j < |s| ==> s[j] == 0 as char
    ensures |TrimNul(s)| > 0 ==> TrimNul(s)[|TrimNul(s)| - 1] != 0 as char
    decreases |s|
  {
    if |s| > 0 && s[|s| - 1] == 0 as char {
      TrimmedTail(s[..|s| - 1]);
    }
  }

  /** A reply decodes exactly to the printable text within bounds that its words spell. */
  lemma DecodedIsSpelled(words: seq<uint16>, maximum: int, text: string)
    ensures DecodeProbe(words, maximum) == Some(text) <==> Spells(words, text) && IdentityText(text, maximum)
  {
    var all := Characters(words);
    CharactersAt(words);
    TrimmedTail(all);
    var trimmed := TrimNul(all);
    if Spells(words, text) && IdentityText(text, maximum) {
      assert forall j :: |text| <= j < |all| ==> all[j] == 0 as char;
      assert |trimmed| > 0 ==> all[|trimmed| - 1] != 0 as char;
      assert |text| > 0 && all[|text| - 1] != 0 as char;
      assert text == trimmed;
    }
  }

  // ---- which replies are read --------------------------------------------------------------------

  predicate SpellsIdentity(words: seq<uint16>, maximum: int, text: string) {
    Spells(words, text) && IdentityText(text, maximum)
  }

  /** A reply that carries the identity its declaration asks for. */
  ghost predicate CleanReply(limits: Limits, declaration: Declaration, r: Reply) {
    && !r.cancelledBefore && !r.cancelledAfter && !r.failed
    && r.result.status.Succeeded? && r.result.exceptionCode == 0
    && |r.result.words| == declaration.wordCount && 0 < |r.result.words| <= limits.maxWordsPerRead
    && ValidEvidenceID(r.result.evidenceID, limits.maxEvidenceIDBytes)
    && exists text :: SpellsIdentity(r.result.words, limits.maxIdentityBytes, text)
  }

  function TotalWords(replies: seq<Reply>): nat {
    if |replies| == 0 then 0 else TotalWords(replies[..|replies| - 1]) + |replies[|replies| - 1].result.words|
  }

  /** Every reply is clean, under an evidence identity of its own, and together they
      are within the budget. */
  ghost predicate CleanReplies(spec: Spec, replies: seq<Reply>)
    requires |replies| >= |spec.plan|
  {
    && (forall i :: 0 <= i < |spec.plan| ==> CleanReply(spec.limits, spec.plan[i], replies[i]))
    && (forall i, j :: 0 <= i < j < |spec.plan| ==> replies[i].result.evidenceID != replies[j].result.evidenceID)
    && TotalWords(replies[..|spec.plan|]) <= spec.limits.maxTotalWords
  }

  lemma {:induction false} WordsAreTotal(replies: seq<Reply>, n: nat)
    requires n <= |replies|
    ensures WordsRead(replies, n) == TotalWords(replies[..n])
    decreases n
  {
    if n > 0 {
      WordsAreTotal(replies, n - 1);
      assert replies[..n][..n - 1] == replies[..n - 1];
    }
  }

  lemma {:induction false} TotalGrows(replies: seq<Reply>, n: nat, m: nat)
    requires n <= m <= |replies|
    ensures TotalWords(replies[..n]) <= TotalWords(replies[..m])
    decreases m
  {
    if n < m {
      TotalGrows(replies, n, m - 1);
      assert replies[..m][..m - 1] == replies[..m - 1];
    }
  }

  lemma StopIsUnclean(spec: Spec, replies: seq<Reply>, n: nat)
    requires n < |spec.plan| <= |replies|
    ensures StopAt(spec, replies, n).None? <==>
      && CleanReply(spec.limits, spec.plan[n], replies[n])
      && (forall i :: 0 <= i < n ==> replies[i].result.evidenceID != replies[n].result.evidenceID)
      && TotalWords(replies[..n + 1]) <= spec.limits.maxTotalWords
  {
    hide DecodeProbe, Spells, IdentityText, ValidEvidenceID;
    WordsAreTotal(replies, n);
    assert replies[..n + 1][..n] == replies[..n];
    var words, maximum := replies[n].result.words, spec.limits.maxIdentityBytes;
    forall text
      ensures DecodeProbe(words, maximum) == Some(text) <==> SpellsIdentity(words, maximum, text)
    {
      DecodedIsSpelled(words, maximum, text);
    }
    if DecodeProbe(words, maximum).Some? {
      assert SpellsIdentity(words, maximum, DecodeProbe(words, maximum).value);
    }
  }

  predicate BudgetLeft(spec: Spec, replies: seq<Reply>, n: nat)
    requires n <= |replies|
  {
    TotalWords(replies[..n]) <= spec.limits.maxTotalWords
  }

  /** The identities are read exactly from clean replies. */
  lemma ReadIffClean(spec: Spec, replies: seq<Reply>)
    requires |replies| >= |spec.plan| > 0
    ensures ReadingsOf(spec, replies).Read? <==> CleanReplies(spec, replies)
  {
    hide StopAt, CleanReply, ReadingsOf;
    ReadIffNothingStops(spec, replies, 0);
    forall n | 0 <= n < |spec.plan|
      ensures StopAt(spec, replies, n).None? <==>
        && CleanReply(spec.limits, spec.plan[n], replies[n])
        && (forall i :: 0 <= i < n ==> replies[i].result.evidenceID != replies[n].result.evidenceID)
        && BudgetLeft(spec, replies, n + 1)
    {
      StopIsUnclean(spec, replies, n);
    }
    if TotalWords(replies[..|spec.plan|]) <= spec.limits.maxTotalWords {
      forall n | 0 <= n <= |spec.plan|
        ensures BudgetLeft(spec, replies, n)
      {
        TotalGrows(replies, n, |spec.plan|);
      }
    }
  }

  /** The replies say that a field has a text. */
  ghost predicate Says(spec: Spec, replies: seq<Reply>, field: IdentityField, text: string)
    requires |replies| >= |spec.plan|
  {
    exists i :: 0 <= i < |spec.plan| && spec.plan[i].field == field
      && SpellsIdentity(replies[i].result.words, spec.limits.maxIdentityBytes, text)
  }

  lemma {:induction false} ReadAt(spec: Spec, replies: seq<Reply>, n: nat, i: nat)
    requires ValidPlan(spec.plan) && i < n <= |spec.plan| <= |replies|
    requires CleanReply(spec.limits, spec.plan[i], replies[i])
    ensures var identities := IdentitiesRead(spec, replies, n);
      && spec.plan[i].field in identities
      && identities[spec.plan[i].field].evidenceID == replies[i].result.evidenceID
      && SpellsIdentity(replies[i].result.words, spec.limits.maxIdentityBytes, identities[spec.plan[i].field].value)
    decreases n
  {
    hide Spells, IdentityText, DecodeProbe, ValidEvidenceID;
    if i < n - 1 {
      ReadAt(spec, replies, n - 1, i);
    } else {
      var words, maximum := replies[i].result.words, spec.limits.maxIdentityBytes;
      var text :| SpellsIdentity(words, maximum, text);
      DecodedIsSpelled(words, maximum, text);
    }
  }

  lemma SpellsOneText(words: seq<uint16>, maximum: int, a: string, b: string)
    requires SpellsIdentity(words, maximum, a) && SpellsIdentity(words, maximum, b)
    ensures a == b
  {
    hide Spells, IdentityText;
    DecodedIsSpelled(words, maximum, a);
    DecodedIsSpelled(words, maximum, b);
  }

  /** What was read is what the replies say. */
  lemma IdentitiesSay(spec: Spec, replies: seq<Reply>, field: IdentityField, text: string)
    requires Readable(spec, replies) && CleanReplies(spec, replies)
    ensures var identities := IdentitiesRead(spec, replies, |spec.plan|);
      field in identities && (identities[field].value == text <==> Says(spec, replies, field, text))
  {
    hide SpellsIdentity, CleanReply, PossibleReply, CandidatesInOrder, IdentitiesRead;
    var i := Declared(spec.plan, field);
    ReadAt(spec, replies, |spec.plan|, i);
    var value := IdentitiesRead(spec, replies, |spec.plan|)[field].value;
    if Says(spec, replies, field, text) {
      var j :| 0 <= j < |spec.plan| && spec.plan[j].field == field
        && SpellsIdentity(replies[j].result.words, spec.limits.maxIdentityBytes, text);
      assert i == j;
      SpellsOneText(replies[i].result.words, spec.limits.maxIdentityBytes, value, text);
    }
  }

  lemma Declared(plan: seq<Declaration>, field: IdentityField) returns (i: nat)
    requires ValidPlan(plan)
    ensures i < |plan| && plan[i].field == field
  {
    assert Produces(plan, field);
    i :| i < |plan| && plan[i].field == field;
  }

  // ---- eligibility ----------------------------------------------------------------------------------

  /** The candidate may be selected at all. */
  predicate Eligible(c: Candidate, allowFixtureOnly: bool) {
    c.state.Active? && c.qualified && c.defaultEnabled && c.enabled && (c.fixtureOnly ==> allowFixtureOnly)
  }

  /** A candidate is refused for the first of its fields that stands against it, and an
      eligible one for none. */
  lemma RefusedForFirstField(c: Candidate, allowFixtureOnly: bool)
    ensures var refused := Ineligible(c, allowFixtureOnly);
      && (refused == None <==> Eligible(c, allowFixtureOnly))
      && (refused == Some(ProfileRevoked) <==> c.state.Revoked?)
      && (refused == Some(ProfileSuperseded) <==> c.state.Superseded?)
      && (refused == Some(InvalidIdentity) <==> c.state.OtherState?)
      && (refused == Some(ProfileUnqualified) <==> c.state.Active? && !c.qualified)
      && (refused == Some(ProfileDefaultOff) <==> c.state.Active? && c.qualified && !c.defaultEnabled)
      && (refused == Some(CandidateDisabled) <==> c.state.Active? && c.qualified && c.defaultEnabled && !c.enabled)
      && (refused == Some(FixtureOptInRequired) <==>
          c.state.Active? && c.qualified && c.defaultEnabled && c.enabled && c.fixtureOnly && !allowFixtureOnly)
      && refused != Some(Selected) && refused != Some(MultipleMatches)
      && refused != Some(IdentityMismatch) && refused != Some(FirmwareMismatch)
  {
  }

  predicate AtLeast(v: Version, least: Version) {
    v.major > least.major ||
    (v.major == least.major && (v.minor > least.minor || (v.minor == least.minor && v.patch >= least.patch)))
  }

  /** The firmware text is a version from the candidate's minimum up, below its maximum. */
  ghost predicate FirmwareFits(spec: Spec, replies: seq<Reply>, c: Candidate)
    requires |replies| >= |spec.plan|
  {
    exists text :: FirmwareIs(spec, replies, c, text)
  }

  ghost predicate FirmwareIs(spec: Spec, replies: seq<Reply>, c: Candidate, text: string)
    requires |replies| >= |spec.plan|
  {
    && Says(spec, replies, Firmware, text) && spec.parseVersion(text).Some?
    && var v := spec.parseVersion(text).value;
       AtLeast(v, c.minimumFirmware) && !AtLeast(v, c.maximumFirmware)
  }

  /** The replies say what the candidate expects, and it is eligible. */
  ghost predicate Meets(spec: Spec, replies: seq<Reply>, allowFixtureOnly: bool, c: Candidate)
    requires |replies| >= |spec.plan|
  {
    && Eligible(c, allowFixtureOnly)
    && Says(spec, replies, Manufacturer, c.manufacturer) && Says(spec, replies, Model, c.model)
    && FirmwareFits(spec, replies, c)
  }

  ghost predicate MeetsAt(spec: Spec, replies: seq<Reply>, allowFixtureOnly: bool, i: nat)
    requires |replies| >= |spec.plan| && i < |spec.candidates|
  {
    Meets(spec, replies, allowFixtureOnly, spec.candidates[i])
  }

  lemma IntervalIsLexicographic(v: Version, c: Candidate)
    ensures InInterval(v, c) <==> AtLeast(v, c.minimumFirmware) && !AtLeast(v, c.maximumFirmware)
  {
  }

  lemma PassesIffMeets(spec: Spec, replies: seq<Reply>, allowFixtureOnly: bool, c: Candidate)
    requires Readable(spec, replies) && CleanReplies(spec, replies)
    ensures var identities := IdentitiesRead(spec, replies, |spec.plan|);
      && Complete(identities)
      && (spec.parseVersion(identities[Firmware].value).Some? ==>
          (Passes(spec, c, identities, allowFixtureOnly) <==> Meets(spec, replies, allowFixtureOnly, c)))
      && (spec.parseVersion(identities[Firmware].value).None? ==> !Meets(spec, replies, allowFixtureOnly, c))
  {
    hide ValidSpec, PossibleReply, CleanReplies, Says, IdentitiesRead, Ineligible, Eligible, InInterval, AtLeast;
    var identities := IdentitiesRead(spec, replies, |spec.plan|);
    IdentitiesSay(spec, replies, Manufacturer, c.manufacturer);
    IdentitiesSay(spec, replies, Model, c.model);
    IdentitiesSay(spec, replies, Firmware, "");
    forall text
      ensures Firmware in identities && (identities[Firmware].value == text <==> Says(spec, replies, Firmware, text))
    {
      IdentitiesSay(spec, replies, Firmware, text);
    }
    RefusedForFirstField(c, allowFixtureOnly);
    var firmware := identities[Firmware].value;
    if spec.parseVersion(firmware).Some? {
      IntervalIsLexicographic(spec.parseVersion(firmware).value, c);
      if Passes(spec, c, identities, allowFixtureOnly) {
        assert FirmwareIs(spec, replies, c, firmware);
      }
    }
  }

  // ---- the decision --------------------------------------------------------------------------------

  /** Candidate i is what the replies say, and no other is. */
  ghost predicate OnlyMeets(spec: Spec, replies: seq<Reply>, allowFixtureOnly: bool, i: nat)
    requires |replies| >= |spec.plan| && i < |spec.candidates|
  {
    && MeetsAt(spec, replies, allowFixtureOnly, i)
    && forall j: nat :: j < |spec.candidates| && MeetsAt(spec, replies, allowFixtureOnly, j) ==> j == i
  }

  lemma IdentifiesIffMeets(spec: Spec, replies: seq<Reply>, allowFixtureOnly: bool)
    requires Readable(spec, replies)
    ensures forall i: nat :: i < |spec.candidates| ==>
      (Identifies(spec, replies, allowFixtureOnly, i) <==> CleanReplies(spec, replies) && OnlyMeets(spec, replies, allowFixtureOnly, i))
    ensures SomePasses(spec, replies, allowFixtureOnly) && SomeVersion(spec, replies) <==>
      CleanReplies(spec, replies) && exists i: nat :: i < |spec.candidates| && MeetsAt(spec, replies, allowFixtureOnly, i)
  {
    hide Meets, CleanReplies, ReadingsOf, Passes, IdentitiesRead, ValidSpec, PossibleReply, IdentitiesHold;
    ReadingsAreSound(spec, replies);
    PlanIsNotEmpty(spec, replies);
    ReadIffClean(spec, replies);
    ReadIffNothingStops(spec, replies, 0);
    if CleanReplies(spec, replies) {
      var identities := IdentitiesRead(spec, replies, |spec.plan|);
      forall i: nat | i < |spec.candidates|
        ensures Complete(identities)
        ensures MeetsAt(spec, replies, allowFixtureOnly, i) <==>
          spec.parseVersion(identities[Firmware].value).Some? && PassesAt(spec, identities, allowFixtureOnly, i)
      {
        PassesIffMeets(spec, replies, allowFixtureOnly, spec.candidates[i]);
      }
    }
  }

  /** The firmware text that was read is a version. */
  predicate SomeVersion(spec: Spec, replies: seq<Reply>)
    requires Readable(spec, replies)
  {
    ReadingsAreSound(spec, replies);
    var readings := ReadingsOf(spec, replies);
    readings.Read? && spec.parseVersion(readings.identities[Firmware].value).Some?
  }

  lemma PlanIsNotEmpty(spec: Spec, replies: seq<Reply>)
    requires Readable(spec, replies)
    ensures |spec.plan| > 0
  {
    assert Produces(spec.plan, Firmware);
  }

  /** Only a version passes. */
  lemma PassesNeedsVersion(spec: Spec, replies: seq<Reply>, allowFixtureOnly: bool)
    requires Readable(spec, replies)
    ensures SomePasses(spec, replies, allowFixtureOnly) ==> SomeVersion(spec, replies)
  {
    hide ReadingsOf, PossibleReply, ValidSpec;
    ReadingsAreSound(spec, replies);
  }

  /** Detection matches exactly when every reply is clean and one candidate alone is
      eligible and is what the replies say, and then selects that profile in its
      version; it finds nothing exactly when a reply is not clean or no candidate is. */
  lemma DetectionMeans(spec: Spec, replies: seq<Reply>, allowFixtureOnly: bool)
    requires Readable(spec, replies)
    ensures var d := DecisionOn(spec, replies, allowFixtureOnly);
      && (d.outcome.Matched? <==>
          (CleanReplies(spec, replies) && exists i: nat :: i < |spec.candidates| && OnlyMeets(spec, replies, allowFixtureOnly, i)))
      && (forall i: nat :: i < |spec.candidates| && CleanReplies(spec, replies) && OnlyMeets(spec, replies, allowFixtureOnly, i) ==>
          d.selectedProfileID == spec.candidates[i].profileID && d.selectedVersion == Some(spec.candidates[i].profileVersion))
      && (d.outcome.NoMatch? <==>
          (!CleanReplies(spec, replies) || forall i: nat :: i < |spec.candidates| ==> !MeetsAt(spec, replies, allowFixtureOnly, i)))
  {
    hide DecisionOn, CleanReplies, Identifies, SomePasses, SomeVersion, Readable, OnlyMeets, MeetsAt;
    DetectionMatchesExactly(spec, replies, allowFixtureOnly);
    IdentifiesIffMeets(spec, replies, allowFixtureOnly);
    PassesNeedsVersion(spec, replies, allowFixtureOnly);
  }

  // ---- the evidence of every candidate ---------------------------------------------------------------

  /** The item is about the candidate and no other. */
  predicate About(e: Evidence, c: Candidate) {
    && e.profileID == c.profileID && e.profileVersion == c.profileVersion && e.score == c.score
    && e.detectorVersion == c.detectorVersion && e.qualificationVersion == c.qualificationVersion
  }

  /** The gates a candidate passed, in order. */
  ghost function GatesPassed(spec: Spec, replies: seq<Reply>, allowFixtureOnly: bool, c: Candidate): seq<IdentityField>
    requires |replies| >= |spec.plan|
  {
    if !Eligible(c, allowFixtureOnly) || !Says(spec, replies, Manufacturer, c.manufacturer) then []
    else if !Says(spec, replies, Model, c.model) then [Manufacturer]
    else if !FirmwareFits(spec, replies, c) then [Manufacturer, Model]
    else [Manufacturer, Model, Firmware]
  }

  /** The evidence identity under which a field was read. */
  predicate ReadUnder(spec: Spec, replies: seq<Reply>, field: IdentityField, evidenceID: string)
    requires |replies| >= |spec.plan|
  {
    exists i :: 0 <= i < |spec.plan| && spec.plan[i].field == field && replies[i].result.evidenceID == evidenceID
  }

  /** What a candidate's evidence says once the identities were read: which field stood
      against it first, or that it met the replies. */
  ghost predicate Explains(spec: Spec, replies: seq<Reply>, allowFixtureOnly: bool, c: Candidate, e: Evidence)
    requires |replies| >= |spec.plan|
  {
    var says := Says(spec, replies, Manufacturer, c.manufacturer) && Says(spec, replies, Model, c.model);
    && About(e, c)
    && (e.reason.ProfileRevoked? <==> c.state.Revoked?)
    && (e.reason.ProfileSuperseded? <==> c.state.Superseded?)
    && (e.reason.InvalidIdentity? <==> c.state.OtherState?)
    && (e.reason.ProfileUnqualified? <==> c.state.Active? && !c.qualified)
    && (e.reason.ProfileDefaultOff? <==> c.state.Active? && c.qualified && !c.defaultEnabled)
    && (e.reason.CandidateDisabled? <==> c.state.Active? && c.qualified && c.defaultEnabled && !c.enabled)
    && (e.reason.FixtureOptInRequired? <==>
        c.state.Active? && c.qualified && c.defaultEnabled && c.enabled && c.fixtureOnly && !allowFixtureOnly)
    && (e.reason.IdentityMismatch? <==> Eligible(c, allowFixtureOnly) && !says)
    && (e.reason.FirmwareMismatch? <==> Eligible(c, allowFixtureOnly) && says && !FirmwareFits(spec, replies, c))
    && (e.reason.Selected? || e.reason.MultipleMatches? <==> Meets(spec, replies, allowFixtureOnly, c))
    && e.gates == GatesPassed(spec, replies, allowFixtureOnly, c) && |e.evidenceIDs| == |e.gates|
    && forall g :: 0 <= g < |e.gates| ==> ReadUnder(spec, replies, e.gates[g], e.evidenceIDs[g])
  }

  lemma EvaluatedExplains(spec: Spec, replies: seq<Reply>, allowFixtureOnly: bool, c: Candidate)
    requires Readable(spec, replies) && CleanReplies(spec, replies) && SomeVersion(spec, replies)
    ensures var identities := IdentitiesRead(spec, replies, |spec.plan|);
      Complete(identities) && Explains(spec, replies, allowFixtureOnly, c, Evaluated(spec, c, identities, allowFixtureOnly))
  {
    hide ValidSpec, PossibleReply, CleanReplies, Says, IdentitiesRead, ReadingsOf, Ineligible, Eligible, InInterval, AtLeast, ReadUnder, FirmwareFits;
    var identities := IdentitiesRead(spec, replies, |spec.plan|);
    PlanIsNotEmpty(spec, replies);
    ReadIffClean(spec, replies);
    ReadIffNothingStops(spec, replies, 0);
    forall field, text
      ensures field in identities && (identities[field].value == text <==> Says(spec, replies, field, text))
    {
      IdentitiesSay(spec, replies, field, text);
    }
    forall field
      ensures field in identities && ReadUnder(spec, replies, field, identities[field].evidenceID)
    {
      FieldReadUnder(spec, replies, field);
    }
    RefusedForFirstField(c, allowFixtureOnly);
    FirmwareDecides(spec, replies, c);
  }

  lemma FieldReadUnder(spec: Spec, replies: seq<Reply>, field: IdentityField)
    requires Readable(spec, replies) && CleanReplies(spec, replies)
    ensures var identities := IdentitiesRead(spec, replies, |spec.plan|);
      field in identities && ReadUnder(spec, replies, field, identities[field].evidenceID)
  {
    hide SpellsIdentity, CleanReply, PossibleReply, CandidatesInOrder, IdentitiesRead;
    var i := Declared(spec.plan, field);
    ReadAt(spec, replies, |spec.plan|, i);
  }

  lemma FirmwareDecides(spec: Spec, replies: seq<Reply>, c: Candidate)
    requires Readable(spec, replies) && CleanReplies(spec, replies)
    ensures var identities := IdentitiesRead(spec, replies, |spec.plan|);
      && Firmware in identities
      && var version := spec.parseVersion(identities[Firmware].value);
         FirmwareFits(spec, replies, c) <==> version.Some? && InInterval(version.value, c)
  {
    hide ValidSpec, PossibleReply, CleanReplies, Says, IdentitiesRead, InInterval, AtLeast;
    IdentitiesSay(spec, replies, Firmware, "");
    var firmware := IdentitiesRead(spec, replies, |spec.plan|)[Firmware].value;
    forall text
      ensures firmware == text <==> Says(spec, replies, Firmware, text)
    {
      IdentitiesSay(spec, replies, Firmware, text);
    }
    if spec.parseVersion(firmware).Some? {
      IntervalIsLexicographic(spec.parseVersion(firmware).value, c);
      if InInterval(spec.parseVersion(firmware).value, c) {
        assert FirmwareIs(spec, replies, c, firmware);
      }
    }
  }

  lemma RelabelledExplains(spec: Spec, replies: seq<Reply>, allowFixtureOnly: bool, c: Candidate, e: Evidence)
    requires |replies| >= |spec.plan| && Explains(spec, replies, allowFixtureOnly, c, e) && e.reason.Selected?
    ensures Explains(spec, replies, allowFixtureOnly, c, e.(reason := MultipleMatches))
  {
    hide Says, Meets, Eligible, FirmwareFits, GatesPassed, ReadUnder;
  }

  /** On clean replies with a firmware version, whatever the outcome, the evidence of
      every candidate says exactly why it was refused or that it met them. */
  lemma EvidenceExplains(spec: Spec, replies: seq<Reply>, allowFixtureOnly: bool, i: nat)
    requires Readable(spec, replies) && CleanReplies(spec, replies) && SomeVersion(spec, replies) && i < |spec.candidates|
    ensures var d := DecisionOn(spec, replies, allowFixtureOnly);
      |d.evidence| == |spec.candidates| && Explains(spec, replies, allowFixtureOnly, spec.candidates[i], d.evidence[i])
  {
    hide Evaluated, Explains, CleanReplies, ValidSpec, PossibleReply, ReadingsOf, IdentitiesHold, Count, FirstSelected, FirstPriority;
    ReadingsAreSound(spec, replies);
    PlanIsNotEmpty(spec, replies);
    ReadIffClean(spec, replies);
    ReadIffNothingStops(spec, replies, 0);
    EvaluatedExplains(spec, replies, allowFixtureOnly, spec.candidates[i]);
    var e := Evaluated(spec, spec.candidates[i], IdentitiesRead(spec, replies, |spec.plan|), allowFixtureOnly);
    if e.reason.Selected? {
      RelabelledExplains(spec, replies, allowFixtureOnly, spec.candidates[i], e);
    }
  }

  // ---- why nothing is found --------------------------------------------------------------------------

  /** How far down the list of reasons a reason for finding nothing stands. */
  function Standing(reason: Reason): nat {
    match reason
    case InvalidIdentity => 0
    case IdentityMismatch => 1
    case FirmwareMismatch => 2
    case FixtureOptInRequired => 3
    case ProfileRevoked => 4
    case ProfileSuperseded => 5
    case ProfileUnqualified => 6
    case ProfileDefaultOff => 7
    case CandidateDisabled => 8
    case _ => 9
  }

  /** The reason of a decision that finds nothing is the foremost its candidates have. */
  lemma ForemostReason(evidence: seq<Evidence>, i: nat)
    requires i < |evidence| && forall k :: 0 <= k < |evidence| ==> Unmatched(evidence[k].reason)
    ensures Standing(FirstPriority(evidence)) <= Standing(evidence[i].reason)
    ensures HasReason(evidence, FirstPriority(evidence))
  {
    PriorityIsPresent(evidence, 0);
    ForemostFrom(evidence, i, 0);
  }

  lemma {:induction false} ForemostFrom(evidence: seq<Evidence>, i: nat, p: nat)
    requires i < |evidence| && Unmatched(evidence[i].reason) && p <= Standing(evidence[i].reason)
    ensures p <= |Priorities()| && Standing(FirstPriority(evidence, p)) <= Standing(evidence[i].reason)
    decreases |Priorities()| - p
  {
    assert Priorities()[Standing(evidence[i].reason)] == evidence[i].reason;
    if !HasReason(evidence, Priorities()[p]) {
      assert p != Standing(evidence[i].reason);
      ForemostFrom(evidence, i, p + 1);
    } else {
      PriorityStanding(p);
    }
  }

  lemma PriorityStanding(p: nat)
    requires p < |Priorities()|
    ensures Standing(Priorities()[p]) == p
  {
  }

  // ---- why a read stops detection ---------------------------------------------------------------------

  /** Reply n carries its identity, under fresh evidence and within the budget. */
  ghost predicate CleanAt(spec: Spec, replies: seq<Reply>, n: nat)
    requires n < |spec.plan| <= |replies|
  {
    && CleanReply(spec.limits, spec.plan[n], replies[n])
    && (forall i :: 0 <= i < n ==> replies[i].result.evidenceID != replies[n].result.evidenceID)
    && BudgetLeft(spec, replies, n + 1)
  }

  /** The first reply that is not clean, and the reason told from it: the context,
      the reader, an exception, the number of words, a text that is none, and for
      everything else an invalid result. */
  ghost predicate StopsFor(spec: Spec, replies: seq<Reply>, n: nat, reason: Reason)
    requires |spec.plan| <= |replies|
  {
    && n < |spec.plan| && !CleanAt(spec, replies, n) && (forall i: nat :: i < n ==> CleanAt(spec, replies, i))
    && var r := replies[n];
       var cancelled := r.cancelledBefore || r.cancelledAfter;
       var valid := !cancelled && !r.failed && ValidEvidenceID(r.result.evidenceID, spec.limits.maxEvidenceIDBytes);
       var answered := valid && r.result.status.Succeeded? && r.result.exceptionCode == 0
         && 0 < |r.result.words| <= spec.limits.maxWordsPerRead;
    && (reason.ContextCancelled? <==> cancelled)
    && (reason.ReadError? <==> !cancelled && r.failed)
    && (reason.ProbeException? <==> valid && r.result.status.Exception? && r.result.words == [] && r.result.exceptionCode != 0)
    && (reason.IncompleteProbe? <==> answered && |r.result.words| != spec.plan[n].wordCount)
    && (reason.InvalidIdentity? <==>
        answered && |r.result.words| == spec.plan[n].wordCount && BudgetLeft(spec, replies, n + 1)
        && (forall i :: 0 <= i < n ==> replies[i].result.evidenceID != r.result.evidenceID)
        && forall text :: !SpellsIdentity(r.result.words, spec.limits.maxIdentityBytes, text))
    && (reason.ContextCancelled? || reason.ReadError? || reason.ProbeException? || reason.IncompleteProbe?
        || reason.InvalidIdentity? || reason.InvalidProbeResult?)
  }

  lemma StopIsTold(spec: Spec, replies: seq<Reply>, n: nat)
    requires n < |spec.plan| <= |replies| && StopAt(spec, replies, n).Some?
    requires forall i: nat :: i < n ==> CleanAt(spec, replies, i)
    ensures StopsFor(spec, replies, n, StopAt(spec, replies, n).value)
  {
    hide DecodeProbe, Spells, IdentityText, ValidEvidenceID;
    StopIsUnclean(spec, replies, n);
    WordsAreTotal(replies, n);
    assert replies[..n + 1][..n] == replies[..n];
    var words, maximum := replies[n].result.words, spec.limits.maxIdentityBytes;
    forall text
      ensures DecodeProbe(words, maximum) == Some(text) <==> SpellsIdentity(words, maximum, text)
    {
      DecodedIsSpelled(words, maximum, text);
    }
  }

  lemma {:induction false} FirstStopIsTold(spec: Spec, replies: seq<Reply>, n: nat)
    requires n <= |spec.plan| <= |replies| && ReadingsOf(spec, replies, n).Stopped?
    requires forall i: nat :: i < n ==> CleanAt(spec, replies, i)
    ensures exists m :: StopsFor(spec, replies, m, ReadingsOf(spec, replies, n).reason)
    decreases |spec.plan| - n
  {
    hide StopAt, StopsFor, CleanAt;
    if StopAt(spec, replies, n).Some? {
      StopIsTold(spec, replies, n);
    } else {
      assert CleanAt(spec, replies, n) by { NoStopIsClean(spec, replies, n); }
      FirstStopIsTold(spec, replies, n + 1);
    }
  }

  lemma NoStopIsClean(spec: Spec, replies: seq<Reply>, n: nat)
    requires n < |spec.plan| <= |replies|
    ensures StopAt(spec, replies, n).None? <==> CleanAt(spec, replies, n)
  {
    hide StopAt, CleanReply;
    StopIsUnclean(spec, replies, n);
  }

  /** When a reply is not clean, detection finds nothing for the reason the first such
      reply gives, and says so of every candidate. */
  lemma StoppedDetectionIsTold(spec: Spec, replies: seq<Reply>, allowFixtureOnly: bool)
    requires Readable(spec, replies) && !CleanReplies(spec, replies)
    ensures var d := DecisionOn(spec, replies, allowFixtureOnly);
      && d.outcome.NoMatch? && (exists n :: StopsFor(spec, replies, n, d.reason))
      && |d.evidence| == |spec.candidates|
      && forall i :: 0 <= i < |d.evidence| ==> About(d.evidence[i], spec.candidates[i]) && d.evidence[i].reason == d.reason
  {
    hide StopsFor, CleanAt, CleanReplies, ReadingsOf, PossibleReply, ValidSpec, IdentitiesHold, StopReason;
    PlanIsNotEmpty(spec, replies);
    ReadIffClean(spec, replies);
    ReadingsAreSound(spec, replies);
    FirstStopIsTold(spec, replies, 0);
  }

  /** When the firmware text is no version, detection finds nothing, for an invalid identity. */
  lemma UnversionedDetectionIsTold(spec: Spec, replies: seq<Reply>, allowFixtureOnly: bool)
    requires Readable(spec, replies) && CleanReplies(spec, replies)
    requires forall text :: Says(spec, replies, Firmware, text) ==> spec.parseVersion(text).None?
    ensures var d := DecisionOn(spec, replies, allowFixtureOnly);
      && d.outcome.NoMatch? && d.reason.InvalidIdentity? && |d.evidence| == |spec.candidates|
      && forall i :: 0 <= i < |d.evidence| ==> About(d.evidence[i], spec.candidates[i]) && d.evidence[i].reason.InvalidIdentity?
  {
    hide CleanReplies, ReadingsOf, PossibleReply, ValidSpec, IdentitiesHold, IdentitiesRead, Says;
    PlanIsNotEmpty(spec, replies);
    ReadIffClean(spec, replies);
    ReadingsAreSound(spec, replies);
    ReadIffNothingStops(spec, replies, 0);
    var identities := IdentitiesRead(spec, replies, |spec.plan|);
    IdentitiesSay(spec, replies, Firmware, "");
    IdentitiesSay(spec, replies, Firmware, identities[Firmware].value);
  }
}
