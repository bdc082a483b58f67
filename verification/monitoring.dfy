/** Monitoring readings of one unit: decoding against a read plan, and the
    last-known-good store as a function of the whole history of readings. */
module Monitoring {
  import opened Foundation

  const MAX_UNIT: int := 247
  const OBSERVED_STATE_CODE: int := 0x0200

  datatype WordType = I16 | U16 | I32 | U32
  datatype FieldKind = Measurement | PositiveOnly | StateCode
  datatype Grade = Proven | Hypothesis | UnknownGrade

  datatype PlanGroup = PlanGroup(offset: uint16, quantity: uint16)

  datatype Field = Field(
    key: string, index: nat, group: PlanGroup, offset: uint16, wordType: WordType, exponent: int,
    unit: string, kind: FieldKind, grade: Grade)

  datatype Profile = Profile(id: string, groups: seq<PlanGroup>, fields: seq<Field>, observedUnits: set<uint8>)

  function WordCount(wordType: WordType): nat {
    if wordType.I16? || wordType.U16? then 1 else 2
  }

  /** What the profile tables guarantee: one group per offset, and every field
      lies inside its group. */
  predicate ValidProfile(p: Profile) {
    && p.id != ""
    && (forall i, j :: 0 <= i < j < |p.groups| ==> p.groups[i].offset != p.groups[j].offset)
    && (forall k :: 0 <= k < |p.fields| ==>
        && p.fields[k].group in p.groups
        && p.fields[k].group.offset <= p.fields[k].offset
        && p.fields[k].offset + WordCount(p.fields[k].wordType) <= p.fields[k].group.offset + p.fields[k].group.quantity)
  }

  datatype Outcome = Answered | Exception | Failed | NotRead

  datatype GroupReading = GroupReading(
    offset: uint16, quantity: uint16, outcome: Outcome, exceptionCode: uint8, words: seq<uint16>, cycle: uint64, retained: bool)

  datatype Value = Known(coefficient: int, exponent: int, state: string, grade: Grade, cycle: uint64, retained: bool) | Unknown

  datatype Fact = Fact(key: string, index: nat, unit: string, value: Value)

  datatype Reading = Reading(profileID: string, unitID: uint8, groups: seq<GroupReading>, facts: seq<Fact>)

  const NoReading := Reading("", 0, [], [])

  // ---- one field ------------------------------------------------------------------------------

  /** Two's complement of the given number of bits. */
  function Signed(raw: nat, bits: nat): int
    requires bits == 16 || bits == 32
  {
    var modulus := if bits == 16 then 0x1_0000 else 0x1_0000_0000;
    if raw >= modulus / 2 then raw - modulus else raw
  }

  function Raw(wordType: WordType, words: seq<uint16>): (raw: int)
    requires |words| >= WordCount(wordType)
    ensures -0x8000_0000 <= raw < 0x1_0000_0000
  {
    match wordType
    case I16 => Signed(words[0], 16)
    case U16 => words[0]
    case I32 => Signed(words[0] as int * 0x1_0000 + words[1] as int, 32)
    case U32 => words[0] as int * 0x1_0000 + words[1] as int
  }

  predicate InRange(wordType: WordType, value: int) {
    match wordType
    case I16 => -0x8000 <= value < 0x8000
    case U16 => 0 <= value < 0x1_0000
    case I32 => -0x8000_0000 <= value < 0x8000_0000
    case U32 => 0 <= value < 0x1_0000_0000
  }

  /** The words a device sends for a value. */
  function Words(wordType: WordType, value: int): (words: seq<uint16>)
    requires InRange(wordType, value)
    ensures |words| == WordCount(wordType)
  {
    match wordType
    case I16 => [if value < 0 then value + 0x1_0000 else value]
    case U16 => [value]
    case I32 => var bits := if value < 0 then value + 0x1_0000_0000 else value; [bits / 0x1_0000, bits % 0x1_0000]
    case U32 => [value / 0x1_0000, value % 0x1_0000]
  }

  /** Decoding is exact: every value reads back, whatever words follow it. */
  lemma RawRoundTrip(wordType: WordType, value: int, rest: seq<uint16>)
    requires InRange(wordType, value)
    ensures Raw(wordType, Words(wordType, value) + rest) == value
  {
  }

  predicate Publishable(kind: FieldKind, raw: int) {
    match kind
    case Measurement => true
    case PositiveOnly => raw >= 0
    case StateCode => raw == OBSERVED_STATE_CODE
  }

  /** At most Hypothesis away from the observed units. */
  function GradeAt(p: Profile, unit: uint8, grade: Grade): Grade {
    if unit !in p.observedUnits && grade.Proven? then Hypothesis else grade
  }

  // ---- facts are a function of the group readings ------------------------------------------------

  predicate FillsPlan(p: Profile, groups: seq<GroupReading>) {
    && |groups| == |p.groups|
    && forall i :: 0 <= i < |groups| ==>
        && groups[i].offset == p.groups[i].offset && groups[i].quantity == p.groups[i].quantity
        && ValidGroupReading(groups[i])
  }

  predicate ValidGroupReading(g: GroupReading) {
    match g.outcome
    case Answered => |g.words| == g.quantity && g.exceptionCode == 0
    case Exception => |g.words| == 0 && g.exceptionCode != 0 && !g.retained
    case Failed => |g.words| == 0 && g.exceptionCode == 0 && !g.retained
    case NotRead => |g.words| == 0 && g.exceptionCode == 0 && !g.retained
  }

  /** What one group reading says about a field of it. */
  function ValueIn(p: Profile, unit: uint8, field: Field, g: GroupReading): Value
    requires g.offset <= field.offset && field.offset - g.offset + WordCount(field.wordType) <= g.quantity && ValidGroupReading(g)
  {
    if !g.outcome.Answered? then Unknown
    else
      var raw := Raw(field.wordType, g.words[field.offset - g.offset..]);
      if !Publishable(field.kind, raw) then Unknown
      else Known(raw, if field.kind.StateCode? then 0 else field.exponent, if field.kind.StateCode? then "grid_connected" else "",
                 GradeAt(p, unit, field.grade), g.cycle, g.retained)
  }

  /** Position of the field's group in the plan. */
  function GroupIndex(p: Profile, k: nat): (i: nat)
    requires ValidProfile(p) && k < |p.fields|
    ensures i < |p.groups| && p.groups[i] == p.fields[k].group
  {
    IndexOf(p.groups, p.fields[k].group)
  }

  function IndexOf(groups: seq<PlanGroup>, group: PlanGroup): (i: nat)
    requires group in groups
    ensures i < |groups| && groups[i] == group
  {
    if groups[0] == group then 0 else 1 + IndexOf(groups[1..], group)
  }

  function FactAt(p: Profile, unit: uint8, groups: seq<GroupReading>, k: nat): Fact
    requires ValidProfile(p) && FillsPlan(p, groups) && k < |p.fields|
  {
    var field := p.fields[k];
    Fact(field.key, field.index, field.unit, ValueIn(p, unit, field, groups[GroupIndex(p, k)]))
  }

  function Facts(p: Profile, unit: uint8, groups: seq<GroupReading>): (facts: seq<Fact>)
    requires ValidProfile(p) && FillsPlan(p, groups)
    ensures |facts| == |p.fields|
  {
    seq(|p.fields|, k requires 0 <= k < |p.fields| => FactAt(p, unit, groups, k))
  }

  /** The words of an answered group at the field's place are those of the value v. */
  predicate Carries(field: Field, g: GroupReading, v: int) {
    && g.outcome.Answered? && InRange(field.wordType, v) && g.offset <= field.offset
    && var at, words := field.offset - g.offset, Words(field.wordType, v);
       at + |words| <= |g.words| && g.words[at..at + |words|] == words
  }

  /** What a field's fact says, told from the words of its group alone: unknown without
      an answer, and otherwise the value the words carry, if its kind publishes it. */
  ghost predicate Says(p: Profile, unit: uint8, field: Field, g: GroupReading, fact: Fact) {
    && fact.key == field.key && fact.index == field.index && fact.unit == field.unit
    && (!g.outcome.Answered? ==> fact.value.Unknown?)
    && (forall v :: Carries(field, g, v) ==>
        if (field.kind.PositiveOnly? && v < 0) || (field.kind.StateCode? && v != 0x0200) then fact.value.Unknown?
        else
          && fact.value.Known? && fact.value.coefficient == v
          && fact.value.exponent == (if field.kind.StateCode? then 0 else field.exponent)
          && fact.value.state == (if field.kind.StateCode? then "grid_connected" else "")
          && fact.value.grade == (if field.grade.Proven? && unit !in p.observedUnits then Hypothesis else field.grade)
          && fact.value.cycle == g.cycle && fact.value.retained == g.retained)
  }

  /** Words of the right number always carry exactly one value. */
  lemma WordsCarryOneValue(wordType: WordType, words: seq<uint16>)
    requires |words| == WordCount(wordType)
    ensures InRange(wordType, Raw(wordType, words)) && Words(wordType, Raw(wordType, words)) == words
    ensures forall v :: InRange(wordType, v) && Words(wordType, v) == words ==> v == Raw(wordType, words)
  {
    forall v | InRange(wordType, v) && Words(wordType, v) == words
      ensures v == Raw(wordType, words)
    {
      RawRoundTrip(wordType, v, []);
      assert words + [] == words;
    }
  }

  lemma RawOfPrefix(wordType: WordType, words: seq<uint16>)
    requires |words| >= WordCount(wordType)
    ensures Raw(wordType, words[..WordCount(wordType)]) == Raw(wordType, words)
  {
  }

  /** An answered group carries a value for each of its fields. */
  lemma AnsweredCarries(field: Field, g: GroupReading)
    requires g.offset <= field.offset && field.offset - g.offset + WordCount(field.wordType) <= g.quantity && ValidGroupReading(g)
    requires g.outcome.Answered?
    ensures exists v :: Carries(field, g, v)
  {
    var at := field.offset - g.offset;
    var words := g.words[at..at + WordCount(field.wordType)];
    WordsCarryOneValue(field.wordType, words);
    assert Carries(field, g, Raw(field.wordType, words));
  }

  lemma FactSays(p: Profile, unit: uint8, groups: seq<GroupReading>, k: nat, i: nat)
    requires ValidProfile(p) && FillsPlan(p, groups) && k < |p.fields| && i < |p.groups| && p.groups[i] == p.fields[k].group
    ensures Says(p, unit, p.fields[k], groups[i], FactAt(p, unit, groups, k))
  {
    hide Raw, Words;
    var field, g := p.fields[k], groups[i];
    assert GroupIndex(p, k) == i;
    forall v | Carries(field, g, v)
      ensures Raw(field.wordType, g.words[field.offset - g.offset..]) == v
    {
      var at := field.offset - g.offset;
      RawOfPrefix(field.wordType, g.words[at..]);
      assert g.words[at..][..WordCount(field.wordType)] == g.words[at..at + WordCount(field.wordType)];
      WordsCarryOneValue(field.wordType, Words(field.wordType, v));
    }
  }

  /** Every fact says what the words of its own group carry. */
  ghost predicate FactsSay(p: Profile, unit: uint8, groups: seq<GroupReading>, facts: seq<Fact>)
    requires |groups| == |p.groups|
  {
    && |facts| == |p.fields|
    && forall k, i :: 0 <= k < |p.fields| && 0 <= i < |p.groups| && p.groups[i] == p.fields[k].group ==>
        Says(p, unit, p.fields[k], groups[i], facts[k])
  }

  lemma FactsSayTheirWords(p: Profile, unit: uint8, groups: seq<GroupReading>)
    requires ValidProfile(p) && FillsPlan(p, groups)
    ensures FactsSay(p, unit, groups, Facts(p, unit, groups))
  {
    hide Says, FactAt;
    forall k, i | 0 <= k < |p.fields| && 0 <= i < |p.groups| && p.groups[i] == p.fields[k].group
      ensures Says(p, unit, p.fields[k], groups[i], Facts(p, unit, groups)[k])
    {
      FactSays(p, unit, groups, k, i);
    }
  }

  /** decodeFacts: for every field the scan over the groups finds its own. */
  method DecodeFacts(p: Profile, unit: uint8, groups: seq<GroupReading>) returns (facts: seq<Fact>)
    requires ValidProfile(p) && FillsPlan(p, groups)
    ensures facts == Facts(p, unit, groups)
    ensures FactsSay(p, unit, groups, facts)
  {
    hide FactAt, FactsSay;
    FactsSayTheirWords(p, unit, groups);
    facts := [];
    for k := 0 to |p.fields|
      invariant facts == Facts(p, unit, groups)[..k]
    {
      var fact := ScanGroups(p, unit, groups, k);
      facts := facts + [fact];
    }
  }

  method ScanGroups(p: Profile, unit: uint8, groups: seq<GroupReading>, k: nat) returns (fact: Fact)
    requires ValidProfile(p) && FillsPlan(p, groups) && k < |p.fields|
    ensures fact == FactAt(p, unit, groups, k)
  {
    var field := p.fields[k];
    ghost var own := GroupIndex(p, k);
    fact := Fact(field.key, field.index, field.unit, Unknown);
    for i := 0 to |groups|
      invariant fact == Fact(field.key, field.index, field.unit,
        if own < i then ValueIn(p, unit, field, groups[own]) else Unknown)
    {
      var g := groups[i];
      assert g.offset == field.group.offset <==> i == own;
      if g.offset != field.group.offset || !g.outcome.Answered? {
        continue;
      }
      var raw := Raw(field.wordType, g.words[field.offset - g.offset..]);
      if !Publishable(field.kind, raw) {
        break;
      }
      fact := fact.(value := Known(raw, if field.kind.StateCode? then 0 else field.exponent,
                                   if field.kind.StateCode? then "grid_connected" else "",
                                   GradeAt(p, unit, field.grade), g.cycle, g.retained));
    }
  }

  // ---- decoding one cycle ---------------------------------------------------------------------------

  predicate Matches(r: GroupReading, group: PlanGroup) {
    r.offset == group.offset && r.quantity == group.quantity
  }

  /** Every reading is of its own planned group and consistent with its outcome. */
  predicate Acceptable(p: Profile, unit: uint8, readings: seq<GroupReading>) {
    && p.id != "" && 0 < unit <= MAX_UNIT
    && (forall r :: 0 <= r < |readings| ==> ValidGroupReading(readings[r]) && PlanGroup(readings[r].offset, readings[r].quantity) in p.groups)
    && (forall r, s :: 0 <= r < s < |readings| ==> readings[r].offset != readings[s].offset || readings[r].quantity != readings[s].quantity)
  }

  /** The reading of a group, or that it was not read. */
  function ReadingOf(readings: seq<GroupReading>, group: PlanGroup): (g: GroupReading)
    ensures g.offset == group.offset && g.quantity == group.quantity
    ensures (forall r :: 0 <= r < |readings| ==> ValidGroupReading(readings[r])) ==> ValidGroupReading(g)
  {
    if |readings| == 0 then GroupReading(group.offset, group.quantity, NotRead, 0, [], 0, false)
    else if Matches(readings[|readings| - 1], group) then readings[|readings| - 1]
    else ReadingOf(readings[..|readings| - 1], group)
  }

  function GroupsOf(p: Profile, readings: seq<GroupReading>): (groups: seq<GroupReading>)
    ensures |groups| == |p.groups|
    ensures forall i :: 0 <= i < |p.groups| ==> groups[i] == ReadingOf(readings, p.groups[i])
    ensures (forall r :: 0 <= r < |readings| ==> ValidGroupReading(readings[r])) ==> FillsPlan(p, groups)
  {
    seq(|p.groups|, i requires 0 <= i < |p.groups| => ReadingOf(readings, p.groups[i]))
  }

  function Decoded(p: Profile, unit: uint8, readings: seq<GroupReading>): Result<Reading>
    requires ValidProfile(p)
  {
    if Acceptable(p, unit, readings) then
      Ok(Reading(p.id, unit, GroupsOf(p, readings), Facts(p, unit, GroupsOf(p, readings))))
    else Err
  }

  /** Decode: fills the plan in place, refuses what does not fit it. */
  method Decode(p: Profile, unit: uint8, readings: seq<GroupReading>) returns (decoded: Result<Reading>)
    requires ValidProfile(p)
    ensures decoded == Decoded(p, unit, readings)
    ensures decoded.Ok? ==> 0 < unit <= 247 && decoded.value.profileID == p.id && decoded.value.unitID == unit
    ensures decoded.Ok? ==> |decoded.value.groups| == |p.groups| && FactsSay(p, unit, decoded.value.groups, decoded.value.facts)
  {
    hide FactsSay;
    if p.id == "" || unit == 0 || unit > MAX_UNIT {
      return Err;
    }
    var groups := seq(|p.groups|, i requires 0 <= i < |p.groups| =>
      GroupReading(p.groups[i].offset, p.groups[i].quantity, NotRead, 0, [], 0, false));
    var seen := seq(|p.groups|, i => false);
    assert readings[..0] == [];
    for n := 0 to |readings|
      invariant |seen| == |groups| == |p.groups|
      invariant Acceptable(p, unit, readings[..n])
      invariant forall i :: 0 <= i < |p.groups| ==> groups[i] == ReadingOf(readings[..n], p.groups[i])
      invariant forall i :: 0 <= i < |p.groups| ==> (seen[i] <==> SeenIn(readings[..n], p.groups[i]))
    {
      hide ReadingOf, ValidGroupReading, Acceptable, SeenIn, Facts;
      var reading := readings[n];
      var position := FindGroup(p, reading);
      ReadingStep(readings, n);
      AcceptStep(p, unit, readings, n);
      if position < 0 || seen[position] || !ValidGroupReading(reading) {
        return Err;
      }
      seen := seen[position := true];
      groups := groups[position := reading];
    }
    assert readings[..|readings|] == readings;
    assert groups == GroupsOf(p, readings);
    assert FillsPlan(p, groups);
    var facts := DecodeFacts(p, unit, groups);
    decoded := Ok(Reading(p.id, unit, groups, facts));
  }

  method FindGroup(p: Profile, reading: GroupReading) returns (position: int)
    requires ValidProfile(p)
    ensures -1 <= position < |p.groups|
    ensures position >= 0 ==> Matches(reading, p.groups[position])
    ensures forall i :: 0 <= i < |p.groups| && i != position ==> !Matches(reading, p.groups[i])
  {
    position := -1;
    for index := 0 to |p.groups|
      invariant -1 <= position < index
      invariant position >= 0 ==> Matches(reading, p.groups[position])
      invariant forall i :: 0 <= i < index && i != position ==> !Matches(reading, p.groups[i])
    {
      if Matches(reading, p.groups[index]) {
        position := index;
      }
    }
  }

  predicate SeenIn(readings: seq<GroupReading>, group: PlanGroup) {
    exists r :: 0 <= r < |readings| && Matches(readings[r], group)
  }

  /** One more reading is acceptable exactly when it is of a planned group that
      was not seen yet and is consistent. */
  lemma AcceptStep(p: Profile, unit: uint8, readings: seq<GroupReading>, n: nat)
    requires n < |readings| && Acceptable(p, unit, readings[..n])
    ensures var group := PlanGroup(readings[n].offset, readings[n].quantity);
      if group in p.groups && ValidGroupReading(readings[n]) && !SeenIn(readings[..n], group)
      then Acceptable(p, unit, readings[..n + 1]) else !Acceptable(p, unit, readings)
    ensures forall group :: SeenIn(readings[..n + 1], group) <==> SeenIn(readings[..n], group) || Matches(readings[n], group)
  {
    var longer := readings[..n + 1];
    assert longer[..n] == readings[..n] && longer[n] == readings[n];
    assert forall r :: 0 <= r < n ==> longer[r] == readings[..n][r];
    forall group
      ensures SeenIn(longer, group) <==> SeenIn(readings[..n], group) || Matches(readings[n], group)
    {
      if Matches(readings[n], group) {
        assert Matches(longer[n], group);
      }
      if SeenIn(readings[..n], group) {
        var r :| 0 <= r < n && Matches(readings[..n][r], group);
        assert Matches(longer[r], group);
      }
    }
    var own := PlanGroup(readings[n].offset, readings[n].quantity);
    if SeenIn(readings[..n], own) {
      var r :| 0 <= r < n && Matches(readings[..n][r], own);
      assert readings[r] == readings[..n][r];
    }
  }

  lemma ReadingStep(readings: seq<GroupReading>, n: nat)
    requires n < |readings|
    ensures forall group ::
      ReadingOf(readings[..n + 1], group) == (if Matches(readings[n], group) then readings[n] else ReadingOf(readings[..n], group))
  {
    assert readings[..n + 1][..n] == readings[..n];
  }

  // ---- retention ---------------------------------------------------------------------------------------

  /** A group that did not answer keeps the last complete reading of it. */
  function KeepGroup(before: GroupReading, now: GroupReading): GroupReading {
    if !now.outcome.Answered? && before.outcome.Answered? && before.offset == now.offset && before.quantity == now.quantity
    then before.(retained := true) else now
  }

  function KeepGroups(before: seq<GroupReading>, now: seq<GroupReading>): (kept: seq<GroupReading>)
    requires |before| == |now|
    ensures |kept| == |now|
    ensures forall i :: 0 <= i < |now| ==> kept[i] == KeepGroup(before[i], now[i])
  {
    seq(|now|, i requires 0 <= i < |now| => KeepGroup(before[i], now[i]))
  }

  predicate ReadingFills(p: Profile, r: Reading) {
    r.profileID == p.id && FillsPlan(p, r.groups)
  }

  lemma KeptFillsPlan(p: Profile, before: seq<GroupReading>, now: seq<GroupReading>)
    requires ValidProfile(p) && FillsPlan(p, before) && FillsPlan(p, now)
    ensures FillsPlan(p, KeepGroups(before, now))
  {
  }

  /** RetainHuaweiSUN2000Monitoring, for readings of the profile p. */
  function Retained(p: Profile, previous: Reading, current: Reading): Reading
    requires ValidProfile(p) && ReadingFills(p, current) && (previous.profileID == p.id ==> FillsPlan(p, previous.groups))
  {
    if previous.profileID != current.profileID || previous.unitID != current.unitID then current
    else
      KeptFillsPlan(p, previous.groups, current.groups);
      var groups := KeepGroups(previous.groups, current.groups);
      Reading(current.profileID, current.unitID, groups, Facts(p, current.unitID, groups))
  }

  /** The loop of RetainHuaweiSUN2000Monitoring over the groups, in place. */
  method Retain(p: Profile, previous: Reading, current: Reading) returns (retained: Reading)
    requires ValidProfile(p) && ReadingFills(p, current) && (previous.profileID == p.id ==> FillsPlan(p, previous.groups))
    ensures retained == Retained(p, previous, current)
  {
    if previous.profileID != current.profileID || previous.unitID != current.unitID || current.profileID == "" {
      return current;
    }
    if |previous.groups| != |current.groups| {
      return current;
    }
    var groups := current.groups;
    for index := 0 to |groups|
      invariant |groups| == |current.groups|
      invariant forall i :: 0 <= i < index ==> groups[i] == KeepGroup(previous.groups[i], current.groups[i])
      invariant forall i :: index <= i < |groups| ==> groups[i] == current.groups[i]
    {
      var before := previous.groups[index];
      if !groups[index].outcome.Answered? && before.outcome.Answered? &&
         before.offset == groups[index].offset && before.quantity == groups[index].quantity
      {
        groups := groups[index := before.(retained := true)];
      }
    }
    assert groups == KeepGroups(previous.groups, current.groups);
    KeptFillsPlan(p, previous.groups, current.groups);
    var facts := DecodeFacts(p, current.unitID, groups);
    retained := Reading(current.profileID, current.unitID, groups, facts);
  }

  // ---- the store as a function of the history ---------------------------------------------------------------

  /** What one cycle read of a child that has the profile. */
  datatype Cycle = Cycle(profile: Profile, unit: uint8, readings: seq<GroupReading>)

  predicate SameChild(a: Cycle, b: Cycle) {
    a.profile.id == b.profile.id && a.unit == b.unit
  }

  /** Every cycle decodes, and an identity names one profile. */
  predicate ValidCycles(cycles: seq<Cycle>) {
    && (forall c :: 0 <= c < |cycles| ==>
        ValidProfile(cycles[c].profile) && Acceptable(cycles[c].profile, cycles[c].unit, cycles[c].readings))
    && (forall c, d :: 0 <= c < |cycles| && 0 <= d < |cycles| && cycles[c].profile.id == cycles[d].profile.id ==>
        cycles[c].profile == cycles[d].profile)
  }

  lemma LastDecodes(cycles: seq<Cycle>)
    requires ValidCycles(cycles) && |cycles| > 0
    ensures var last, front := cycles[|cycles| - 1], cycles[..|cycles| - 1];
      && ValidCycles(front) && ValidProfile(last.profile) && last.profile.id != ""
      && Decoded(last.profile, last.unit, last.readings).Ok?
      && ReadingFills(last.profile, Decoded(last.profile, last.unit, last.readings).value)
      && Decoded(last.profile, last.unit, last.readings).value.unitID == last.unit
      && (|front| > 0 && front[|front| - 1].profile.id == last.profile.id ==> front[|front| - 1].profile == last.profile)
  {
    hide ValidGroupReading, FillsPlan, Facts;
  }

  /** What is stored after a history of cycles, one retention at a time. */
  function Stored(cycles: seq<Cycle>): (stored: Reading)
    requires ValidCycles(cycles)
    ensures |cycles| == 0 ==> stored == NoReading
    ensures |cycles| > 0 ==> ReadingFills(cycles[|cycles| - 1].profile, stored) && stored.unitID == cycles[|cycles| - 1].unit
  {
    if |cycles| == 0 then NoReading
    else
      var last := cycles[|cycles| - 1];
      LastDecodes(cycles);
      var before := Stored(cycles[..|cycles| - 1]);
      Retained(last.profile, before, Decoded(last.profile, last.unit, last.readings).value)
  }

  /** The cycles of the last one's child, back to the last cycle of another. */
  function OfLastChild(cycles: seq<Cycle>): (start: nat)
    requires |cycles| > 0
    ensures start < |cycles|
    ensures forall c :: start <= c < |cycles| ==> SameChild(cycles[c], cycles[|cycles| - 1])
    ensures start > 0 ==> !SameChild(cycles[start - 1], cycles[|cycles| - 1])
  {
    var last, front := cycles[|cycles| - 1], cycles[..|cycles| - 1];
    if |front| > 0 && SameChild(front[|front| - 1], last) then
      assert forall c :: 0 <= c < |front| ==> front[c] == cycles[c];
      OfLastChild(front)
    else |front|
  }

  function ReadingsFrom(cycles: seq<Cycle>, start: nat): (readings: seq<seq<GroupReading>>)
    requires start <= |cycles|
    ensures |readings| == |cycles| - start
    ensures forall c :: 0 <= c < |readings| ==> readings[c] == cycles[start + c].readings
  {
    seq(|cycles| - start, c requires 0 <= c < |cycles| - start => cycles[start + c].readings)
  }

  /** The last cycle in which a group answered, -1 if none did. */
  function LastAnswered(cycles: seq<seq<GroupReading>>, group: PlanGroup): (c: int)
    ensures -1 <= c < |cycles|
    ensures c >= 0 ==> ReadingOf(cycles[c], group).outcome.Answered?
    ensures forall d :: c < d < |cycles| ==> !ReadingOf(cycles[d], group).outcome.Answered?
  {
    if |cycles| == 0 then -1
    else if ReadingOf(cycles[|cycles| - 1], group).outcome.Answered? then |cycles| - 1
    else
      var front := cycles[..|cycles| - 1];
      assert forall d :: 0 <= d < |front| ==> front[d] == cycles[d];
      LastAnswered(front, group)
  }

  /** The history's own account of a group: the most recent answered reading,
      marked retained when older than the last cycle, else the latest outcome. */
  function Accounted(cycles: seq<seq<GroupReading>>, group: PlanGroup): GroupReading
    requires |cycles| > 0
  {
    var c := LastAnswered(cycles, group);
    if c < 0 then ReadingOf(cycles[|cycles| - 1], group)
    else if c == |cycles| - 1 then ReadingOf(cycles[c], group)
    else ReadingOf(cycles[c], group).(retained := true)
  }

  /** Folding retention over any history gives, group by group, what the cycles since
      the child last changed say - nothing read of another profile or unit survives -
      and facts that are always those of the groups. */
  lemma {:induction false} StoreIsHistory(cycles: seq<Cycle>)
    requires ValidCycles(cycles) && |cycles| > 0
    ensures var stored, last := Stored(cycles), cycles[|cycles| - 1];
      && stored.profileID == last.profile.id && stored.unitID == last.unit
      && |stored.groups| == |last.profile.groups|
      && (forall i :: 0 <= i < |last.profile.groups| ==>
          stored.groups[i] == Accounted(ReadingsFrom(cycles, OfLastChild(cycles)), last.profile.groups[i]))
      && FactsSay(last.profile, last.unit, stored.groups, stored.facts)
  {
    hide FactsSay, Accounted, Acceptable, ValidGroupReading, ReadingOf, Stored, FillsPlan, ValidProfile;
    var last, front := cycles[|cycles| - 1], cycles[..|cycles| - 1];
    var start := OfLastChild(cycles);
    var readings := ReadingsFrom(cycles, start);
    StoredStep(cycles);
    if start < |front| {
      StoreIsHistory(front);
      assert readings[..|readings| - 1] == ReadingsFrom(front, start);
      forall i | 0 <= i < |last.profile.groups|
        ensures Stored(cycles).groups[i] == Accounted(readings, last.profile.groups[i])
      {
        AccountStep(readings, last.profile.groups[i]);
      }
    } else {
      assert readings == [last.readings];
      forall i | 0 <= i < |last.profile.groups|
        ensures Stored(cycles).groups[i] == Accounted(readings, last.profile.groups[i])
      {
        AccountOfOne(last.readings, last.profile.groups[i]);
      }
    }
  }

  /** What one more cycle does to the store. */
  lemma StoredStep(cycles: seq<Cycle>)
    requires ValidCycles(cycles) && |cycles| > 0
    ensures var last, front, stored := cycles[|cycles| - 1], cycles[..|cycles| - 1], Stored(cycles);
      && ValidCycles(front) && stored.profileID == last.profile.id && stored.unitID == last.unit
      && |stored.groups| == |last.profile.groups| && FactsSay(last.profile, last.unit, stored.groups, stored.facts)
      && if OfLastChild(cycles) < |front| then
          && |front| > 0 && OfLastChild(front) == OfLastChild(cycles) && front[|front| - 1].profile == last.profile
          && |Stored(front).groups| == |stored.groups|
          && forall i :: 0 <= i < |stored.groups| ==>
              stored.groups[i] == KeepGroup(Stored(front).groups[i], ReadingOf(last.readings, last.profile.groups[i]))
        else forall i :: 0 <= i < |stored.groups| ==> stored.groups[i] == ReadingOf(last.readings, last.profile.groups[i])
  {
    hide FactsSay, Acceptable, ValidGroupReading, ReadingOf, ValidProfile, Facts;
    var last, front := cycles[|cycles| - 1], cycles[..|cycles| - 1];
    LastDecodes(cycles);
    FactsSayTheirWords(last.profile, last.unit, Stored(cycles).groups);
    StoredFacts(cycles);
  }

  lemma StoredFacts(cycles: seq<Cycle>)
    requires ValidCycles(cycles) && |cycles| > 0
    ensures var last := cycles[|cycles| - 1];
      ValidProfile(last.profile) && Stored(cycles).facts == Facts(last.profile, last.unit, Stored(cycles).groups)
  {
    hide Acceptable, ValidGroupReading, ReadingOf, Facts;
    LastDecodes(cycles);
  }

  lemma AccountOfOne(readings: seq<GroupReading>, group: PlanGroup)
    ensures Accounted([readings], group) == ReadingOf(readings, group)
  {
  }

  lemma AccountStep(cycles: seq<seq<GroupReading>>, group: PlanGroup)
    requires |cycles| > 1
    ensures Accounted(cycles, group) ==
      KeepGroup(Accounted(cycles[..|cycles| - 1], group), ReadingOf(cycles[|cycles| - 1], group))
  {
    var front := cycles[..|cycles| - 1];
    assert forall d :: 0 <= d < |front| ==> front[d] == cycles[d];
  }
}
