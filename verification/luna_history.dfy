/** The bounded history of documentary observations: the retention loop and the
    reducer that applies one input at a time. */
module LunaHistory {
  datatype Status = UnknownStatus | PresentUnqualified | TemporarilyUnreadable | IdentityChanged

  datatype EventKind = NoObservation | InventoryOnly | DocumentaryPresence | OptionalFailure | MalformedEvidence | OtherEvent(name: string)

  datatype Identity = Identity(model: string, firmware: string, unit: string)
  {
    predicate Valid() { model != "" && firmware != "" && unit != "" }
  }

  datatype Binding = Binding(parent: Identity, group: Identity, attachment: string, parentEpoch: string, groupEpoch: string, revision: string)
  {
    predicate Valid() {
      parent.Valid() && group.Valid() && attachment != "" && parentEpoch != "" && groupEpoch != "" && revision != ""
    }
  }

  const NoBinding := Binding(Identity("", "", ""), Identity("", "", ""), "", "", "", "")

  datatype Policy = Policy(
    maxRecords: int, maxBytes: int, deadline: int, freshnessAge: int, retentionAge: int, historyRecords: int, historyBytes: int)
  {
    predicate Valid() {
      maxRecords > 0 && maxBytes > 0 && deadline > 0 && freshnessAge > 0 && retentionAge > 0 && historyRecords > 0 && historyBytes > 0
    }
  }

  datatype Evidence = Evidence(reference: string, nativeOutcome: string, observedAt: int)

  const NoEvidence := Evidence("", "", 0)

  datatype Entry = Entry(binding: Binding, event: EventKind, evidence: Evidence, applicable: bool, recent: bool)

  datatype Input = Input(
    binding: Binding, parentIdentified: bool, epochsAssociated: bool, observationParentEpoch: string, observationGroupEpoch: string,
    event: EventKind, evidence: seq<Evidence>, started: int, now: int, policy: Policy)

  datatype State = State(
    status: Status, binding: Binding, bound: bool, parentIdentified: bool, history: seq<Entry>, policy: Policy, evaluatedAt: int)

  const NoPolicy := Policy(0, 0, 0, 0, 0, 0, 0)
  const InitialState := State(UnknownStatus, NoBinding, false, false, [], NoPolicy, 0)

  /** lunaRecordBytes. */
  function RecordBytes(b: Binding, e: Evidence): (bytes: nat)
    ensures bytes >= 64
  {
    64 + |b.parent.model| + |b.parent.firmware| + |b.parent.unit| + |b.group.model| + |b.group.firmware| + |b.group.unit|
    + |b.attachment| + |b.parentEpoch| + |b.groupEpoch| + |b.revision| + |e.reference| + |e.nativeOutcome|
  }

  function Bytes(history: seq<Entry>): nat {
    if |history| == 0 then 0
    else RecordBytes(history[0].binding, history[0].evidence) + Bytes(history[1..])
  }

  // ---- retention ------------------------------------------------------------------------------

  /** What retention reads of a state. */
  datatype Terms = Terms(policy: Policy, bound: bool, binding: Binding, now: int)

  function TermsOf(s: State, now: int): Terms { Terms(s.policy, s.bound, s.binding, now) }

  predicate InAge(t: Terms, e: Entry) {
    0 <= t.now - e.evidence.observedAt <= t.policy.retentionAge
  }

  /** Whether an entry is kept behind the newer entries already kept. */
  predicate Fits(t: Terms, e: Entry, newer: seq<Entry>) {
    && InAge(t, e)
    && |newer| < t.policy.historyRecords
    && RecordBytes(e.binding, e.evidence) <= t.policy.historyBytes - Bytes(newer)
  }

  function Marked(t: Terms, e: Entry): Entry {
    e.(applicable := e.applicable && t.bound && e.binding == t.binding,
       recent := t.now - e.evidence.observedAt <= t.policy.freshnessAge)
  }

  /** Newest first: what is kept of a history, behind newer entries. */
  function KeptBehind(t: Terms, history: seq<Entry>, newer: seq<Entry>): (kept: seq<Entry>)
    decreases |history|
  {
    if |history| == 0 then newer
    else
      var last, front := history[|history| - 1], history[..|history| - 1];
      if Fits(t, last, newer) then KeptBehind(t, front, [Marked(t, last)] + newer) else KeptBehind(t, front, newer)
  }

  function Kept(t: Terms, history: seq<Entry>): seq<Entry> {
    if !t.policy.Valid() then [] else KeptBehind(t, history, [])
  }

  function Reversed(s: seq<Entry>): (r: seq<Entry>)
    ensures |r| == |s|
    ensures forall i :: 0 <= i < |s| ==> r[i] == s[|s| - 1 - i]
  {
    if |s| == 0 then [] else Reversed(s[1..]) + [s[0]]
  }

  lemma ReversedAppend(s: seq<Entry>, e: Entry)
    ensures Reversed(s + [e]) == [e] + Reversed(s)
  {
    var longer := s + [e];
    forall i | 0 <= i < |longer|
      ensures Reversed(longer)[i] == ([e] + Reversed(s))[i]
    {
    }
  }

  /** The loop that swaps the collected entries back into order. */
  method ReverseInPlace(s: seq<Entry>) returns (r: seq<Entry>)
    ensures r == Reversed(s)
  {
    r := s;
    var i, j := 0, |s| - 1;
    while i < j
      invariant 0 <= i && i + j == |s| - 1 && |r| == |s| && i <= j + 1
      invariant forall k :: 0 <= k < i ==> r[k] == s[|s| - 1 - k] && r[|s| - 1 - k] == s[k]
      invariant forall k :: i <= k <= j ==> r[k] == s[k]
    {
      r := r[i := r[j]][j := r[i]];
      i, j := i + 1, j - 1;
    }
  }

  /** retain: collect newest first, skip what does not fit, reverse. */
  method Retain(t: Terms, history: seq<Entry>) returns (retained: seq<Entry>)
    ensures retained == Kept(t, history)
  {
    if !t.policy.Valid() {
      return [];
    }
    var kept: seq<Entry> := [];
    var bytes := 0;
    var i := |history| - 1;
    assert history[..|history|] == history;
    while i >= 0
      invariant -1 <= i < |history|
      invariant bytes == Bytes(Reversed(kept))
      invariant KeptBehind(t, history, []) == KeptBehind(t, history[..i + 1], Reversed(kept))
    {
      var h := history[i];
      var age := t.now - h.evidence.observedAt;
      var n := RecordBytes(h.binding, h.evidence);
      assert history[..i + 1][..i] == history[..i];
      if age < 0 || age > t.policy.retentionAge || |kept| >= t.policy.historyRecords || n > t.policy.historyBytes - bytes {
        i := i - 1;
        continue;
      }
      ReversedAppend(kept, Marked(t, h));
      kept := kept + [Marked(t, h)];
      bytes := bytes + n;
      i := i - 1;
    }
    retained := ReverseInPlace(kept);
  }

  // ---- what retention guarantees ---------------------------------------------------------------------

  predicate Bounded(t: Terms, kept: seq<Entry>) {
    && |kept| <= t.policy.historyRecords && Bytes(kept) <= t.policy.historyBytes
    && forall i :: 0 <= i < |kept| ==> Settled(t, kept[i])
  }

  /** An entry within age, applicable only to the current binding. */
  predicate Settled(t: Terms, e: Entry) {
    InAge(t, e) && (e.applicable ==> t.bound && e.binding == t.binding)
  }

  lemma {:induction false} KeptIsBounded(t: Terms, history: seq<Entry>, newer: seq<Entry>)
    requires Bounded(t, newer)
    ensures Bounded(t, KeptBehind(t, history, newer))
    decreases |history|
  {
    if |history| > 0 {
      var last, front := history[|history| - 1], history[..|history| - 1];
      if Fits(t, last, newer) {
        assert ([Marked(t, last)] + newer)[1..] == newer;
        KeptIsBounded(t, front, [Marked(t, last)] + newer);
      } else {
        KeptIsBounded(t, front, newer);
      }
    }
  }

  /** The same record, no more applicable than before. */
  predicate Descends(later: Entry, earlier: Entry) {
    && later.binding == earlier.binding && later.event == earlier.event && later.evidence == earlier.evidence
    && (later.applicable ==> earlier.applicable)
  }

  /** a is an order-preserving selection of b, entry by entry descended from it. */
  predicate Embeds(a: seq<Entry>, b: seq<Entry>)
    decreases |b|
  {
    |a| == 0 || (|b| > 0 &&
      ((Descends(a[|a| - 1], b[|b| - 1]) && Embeds(a[..|a| - 1], b[..|b| - 1])) || Embeds(a, b[..|b| - 1])))
  }

  lemma {:induction false} EmbedsItself(a: seq<Entry>)
    ensures Embeds(a, a)
  {
    if |a| > 0 {
      EmbedsItself(a[..|a| - 1]);
    }
  }

  lemma {:induction false} EmbedsAppend(a: seq<Entry>, b: seq<Entry>, c: seq<Entry>, d: seq<Entry>)
    requires Embeds(a, b) && Embeds(c, d)
    ensures Embeds(a + c, b + d)
    decreases |d|
  {
    if |d| == 0 {
      assert a + c == a && b + d == b;
    } else {
      var front := d[..|d| - 1];
      assert (b + d)[..|b + d| - 1] == b + front;
      if |c| == 0 {
        EmbedsAppend(a, b, c, front);
      } else if Descends(c[|c| - 1], d[|d| - 1]) && Embeds(c[..|c| - 1], front) {
        EmbedsAppend(a, b, c[..|c| - 1], front);
        assert (a + c)[..|a + c| - 1] == a + c[..|c| - 1];
      } else {
        EmbedsAppend(a, b, c, front);
      }
    }
  }

  lemma {:induction false} EmbedsTransitive(a: seq<Entry>, b: seq<Entry>, c: seq<Entry>)
    requires Embeds(a, b) && Embeds(b, c)
    ensures Embeds(a, c)
    decreases |c|
  {
    if |a| > 0 && |b| > 0 {
      var bf, cf := b[..|b| - 1], c[..|c| - 1];
      if Descends(b[|b| - 1], c[|c| - 1]) && Embeds(bf, cf) {
        if Descends(a[|a| - 1], b[|b| - 1]) && Embeds(a[..|a| - 1], bf) {
          EmbedsTransitive(a[..|a| - 1], bf, cf);
        } else {
          EmbedsTransitive(a, bf, cf);
        }
      } else {
        EmbedsTransitive(a, b, cf);
      }
    }
  }

  lemma {:induction false} KeptEmbeds(t: Terms, history: seq<Entry>, newer: seq<Entry>, source: seq<Entry>)
    requires Embeds(newer, source)
    ensures Embeds(KeptBehind(t, history, newer), history + source)
    decreases |history|
  {
    if |history| == 0 {
      assert history + source == source;
    } else {
      var last, front := history[|history| - 1], history[..|history| - 1];
      assert history + source == front + ([last] + source);
      if Fits(t, last, newer) {
        assert Embeds([Marked(t, last)], [last]) by {
          assert [Marked(t, last)][..0] == [] && [last][..0] == [];
        }
        EmbedsAppend([Marked(t, last)], [last], newer, source);
        KeptEmbeds(t, front, [Marked(t, last)] + newer, [last] + source);
      } else {
        EmbedsAppend([], [last], newer, source);
        assert [] + newer == newer;
        KeptEmbeds(t, front, newer, [last] + source);
      }
    }
  }

  lemma RetentionSelects(t: Terms, history: seq<Entry>)
    ensures Embeds(Kept(t, history), history)
    ensures t.policy.Valid() ==> Bounded(t, Kept(t, history))
  {
    if t.policy.Valid() {
      KeptEmbeds(t, history, [], []);
      assert history + [] == history;
      KeptIsBounded(t, history, []);
    }
  }

  // ---- the reducer -----------------------------------------------------------------------------------------

  function Later(a: int, b: int): int { if a < b then b else a }

  function Withdrawn(history: seq<Entry>): (withdrawn: seq<Entry>)
    ensures |withdrawn| == |history|
    ensures forall i :: 0 <= i < |history| ==> withdrawn[i] == history[i].(applicable := false)
  {
    seq(|history|, i requires 0 <= i < |history| => history[i].(applicable := false))
  }

  /** A state at a time, its history retained for that time. */
  function At(s: State, now: int): State {
    s.(history := Kept(TermsOf(s, now), s.history))
  }

  function Degraded(status: Status): Status {
    if status.PresentUnqualified? || status.TemporarilyUnreadable? then TemporarilyUnreadable else UnknownStatus
  }

  predicate EvidenceOk(input: Input, e: Evidence) {
    e.reference != "" && e.nativeOutcome != "" && 0 <= e.observedAt <= input.now
  }

  function EvidenceBytes(input: Input, n: nat): nat
    requires n <= |input.evidence|
  {
    if n == 0 then 0 else EvidenceBytes(input, n - 1) + RecordBytes(input.binding, input.evidence[n - 1])
  }

  predicate EvidenceFits(input: Input) {
    && EvidenceBytes(input, |input.evidence|) <= input.policy.maxBytes
    && forall i :: 0 <= i < |input.evidence| ==> EvidenceOk(input, input.evidence[i])
  }

  predicate KnownEvent(event: EventKind) {
    !event.OtherEvent?
  }

  predicate Timely(prior: State, input: Input) {
    && input.policy.Valid() && 0 <= input.now && input.now >= prior.evaluatedAt
    && 0 <= input.started <= input.now < input.policy.deadline
    && |input.evidence| <= input.policy.maxRecords
  }

  /** The input is one whose evidence enters the history. */
  predicate Admits(prior: State, input: Input) {
    Timely(prior, input) && EvidenceFits(input) && KnownEvent(input.event)
  }

  function NewEntries(input: Input): (entries: seq<Entry>)
    ensures |entries| == |input.evidence|
  {
    seq(|input.evidence|, i requires 0 <= i < |input.evidence| => Entry(input.binding, input.event, input.evidence[i], true, false))
  }

  function NextStatus(prior: State, input: Input, status: Status): Status {
    if !(Timely(prior, input) && EvidenceFits(input)) || input.event.OptionalFailure? || input.event.MalformedEvidence? then Degraded(status)
    else if input.event.DocumentaryPresence? && |input.evidence| > 0 then PresentUnqualified
    else UnknownStatus
  }

  function BindingLimit(s: State, input: Input): int {
    if input.policy.Valid() then input.policy.maxBytes else s.policy.maxBytes
  }

  predicate Retired(input: Input) {
    input.observationParentEpoch != input.binding.parentEpoch || input.observationGroupEpoch != input.binding.groupEpoch
  }

  predicate ValidBinding(input: Input) {
    input.parentIdentified && input.epochsAssociated && input.binding.Valid()
  }

  predicate BindingFits(s: State, input: Input) {
    BindingLimit(s, input) > 0 && RecordBytes(input.binding, NoEvidence) <= BindingLimit(s, input)
  }

  /** What the input does to a bound state of the same binding. */
  function Observe(prior: State, s: State, input: Input, now: int): State {
    var bound := s.(binding := input.binding, bound := true, status := NextStatus(prior, input, s.status));
    if Admits(prior, input) then
      var current := At(bound.(policy := input.policy), now);
      At(current.(history := current.history + NewEntries(input)), now)
    else At(bound, now)
  }

  /** ReduceLunaOptionalState. */
  function Reduced(prior: State, input: Input): State {
    var now := Later(input.now, prior.evaluatedAt);
    var s := At(prior.(evaluatedAt := now), now);
    if Retired(input) then s
    else
      var identified := s.(parentIdentified := input.parentIdentified && input.binding.parent.Valid());
      if !ValidBinding(input) then
        identified.(status := UnknownStatus, bound := false, history := Withdrawn(s.history))
      else if s.bound && s.binding != input.binding then
        var changed := identified.(status := IdentityChanged, history := Withdrawn(s.history));
        if BindingFits(s, input) then changed.(binding := input.binding) else changed.(binding := NoBinding, bound := false)
      else if !BindingFits(s, input) then identified.(status := Degraded(s.status))
      else Observe(prior, identified, input, now)
  }

  method CheckEvidence(input: Input) returns (valid: bool)
    ensures valid <==> EvidenceFits(input)
  {
    var bytes := 0;
    for i := 0 to |input.evidence|
      invariant bytes == EvidenceBytes(input, i)
      invariant bytes <= input.policy.maxBytes || i == 0
      invariant forall k :: 0 <= k < i ==> EvidenceOk(input, input.evidence[k])
    {
      var e := input.evidence[i];
      var n := RecordBytes(input.binding, e);
      if e.reference == "" || e.nativeOutcome == "" || e.observedAt < 0 || e.observedAt > input.now || n > input.policy.maxBytes - bytes {
        EvidenceBytesGrow(input, i + 1, |input.evidence|);
        return false;
      }
      bytes := bytes + n;
    }
    return bytes <= input.policy.maxBytes;
  }

  lemma {:induction false} EvidenceBytesGrow(input: Input, m: nat, n: nat)
    requires m <= n <= |input.evidence|
    ensures EvidenceBytes(input, m) <= EvidenceBytes(input, n)
    decreases n
  {
    if m < n {
      EvidenceBytesGrow(input, m, n - 1);
    }
  }

  method Withdraw(history: seq<Entry>) returns (withdrawn: seq<Entry>)
    ensures withdrawn == Withdrawn(history)
  {
    withdrawn := history;
    for i := 0 to |history|
      invariant |withdrawn| == |history|
      invariant forall k :: 0 <= k < i ==> withdrawn[k] == history[k].(applicable := false)
      invariant forall k :: i <= k < |history| ==> withdrawn[k] == history[k]
    {
      withdrawn := withdrawn[i := withdrawn[i].(applicable := false)];
    }
  }

  /** The reducer step by step on a copy of the prior state. */
  method Reduce(prior: State, input: Input) returns (s: State)
    ensures s == Reduced(prior, input)
  {
    var now := input.now;
    if now < prior.evaluatedAt {
      now := prior.evaluatedAt;
    }
    s := prior.(evaluatedAt := now);
    var history := Retain(TermsOf(s, now), s.history);
    s := s.(history := history);
    if Retired(input) {
      return;
    }
    var limit := s.policy.maxBytes;
    if input.policy.Valid() {
      limit := input.policy.maxBytes;
    }
    s := s.(parentIdentified := input.parentIdentified && input.binding.parent.Valid());
    if !ValidBinding(input) {
      history := Withdraw(s.history);
      s := s.(status := UnknownStatus, bound := false, history := history);
      return;
    }
    if s.bound && s.binding != input.binding {
      if limit > 0 && RecordBytes(input.binding, NoEvidence) <= limit {
        s := s.(binding := input.binding);
      } else {
        s := s.(binding := NoBinding, bound := false);
      }
      history := Withdraw(s.history);
      s := s.(status := IdentityChanged, history := history);
      return;
    }
    if limit <= 0 || RecordBytes(input.binding, NoEvidence) > limit {
      s := s.(status := Degraded(s.status));
      return;
    }
    s := ObserveStep(prior, s, input, now);
  }

  method ObserveStep(prior: State, before: State, input: Input, now: int) returns (s: State)
    ensures s == Observe(prior, before, input, now)
  {
    hide Kept, EvidenceFits;
    s := before.(binding := input.binding, bound := true);
    var valid := Timely(prior, input);
    if valid {
      valid := CheckEvidence(input);
    }
    if !valid || input.event.OptionalFailure? || input.event.MalformedEvidence? {
      s := s.(status := Degraded(s.status));
    } else {
      match input.event {
        case DocumentaryPresence => s := s.(status := if |input.evidence| > 0 then PresentUnqualified else UnknownStatus);
        case InventoryOnly => s := s.(status := UnknownStatus);
        case NoObservation => s := s.(status := UnknownStatus);
        case _ =>
          s := s.(status := UnknownStatus);
          valid := false;
      }
    }
    var history := s.history;
    if valid {
      s := s.(policy := input.policy);
      history := Retain(TermsOf(s, now), history);
      for i := 0 to |input.evidence|
        invariant history == Kept(TermsOf(s, now), s.history) + NewEntries(input)[..i]
      {
        history := history + [Entry(input.binding, input.event, input.evidence[i], true, false)];
      }
      assert NewEntries(input)[..|input.evidence|] == NewEntries(input);
    }
    history := Retain(TermsOf(s, now), history);
    s := s.(history := history);
  }

  // ---- every reachable state ---------------------------------------------------------------------------------

  /** The history is within the current policy, and applicable entries are bound
      to the current binding. */
  predicate Sound(s: State) {
    && (s.policy.Valid() ==> Bounded(TermsOf(s, s.evaluatedAt), s.history))
    && (!s.policy.Valid() ==> s.history == [])
  }

  /** The evidence an input adds. */
  function Added(prior: State, input: Input): seq<Entry> {
    var now := Later(input.now, prior.evaluatedAt);
    var s := At(prior.(evaluatedAt := now), now);
    if !Retired(input) && ValidBinding(input) && !(s.bound && s.binding != input.binding) && BindingFits(s, input) && Admits(prior, input)
    then NewEntries(input) else []
  }

  lemma AtIsSound(s: State)
    ensures Sound(At(s, s.evaluatedAt)) && Embeds(At(s, s.evaluatedAt).history, s.history)
  {
    RetentionSelects(TermsOf(s, s.evaluatedAt), s.history);
  }

  lemma {:induction false} WithdrawnEmbeds(history: seq<Entry>)
    ensures Embeds(Withdrawn(history), history) && Bytes(Withdrawn(history)) == Bytes(history)
  {
    if |history| > 0 {
      WithdrawnEmbeds(history[..|history| - 1]);
      assert Withdrawn(history)[..|history| - 1] == Withdrawn(history[..|history| - 1]);
      WithdrawnBytes(history);
    }
  }

  lemma {:induction false} WithdrawnBytes(history: seq<Entry>)
    ensures Bytes(Withdrawn(history)) == Bytes(history)
  {
    if |history| > 0 {
      WithdrawnBytes(history[1..]);
      assert Withdrawn(history)[1..] == Withdrawn(history[1..]);
    }
  }

  /** Withdrawing every applicability keeps the state sound for any binding. */
  lemma WithdrawnIsSound(s: State, after: State)
    requires Sound(s) && after.policy == s.policy && after.evaluatedAt == s.evaluatedAt && after.history == Withdrawn(s.history)
    ensures Sound(after)
  {
    WithdrawnBytes(s.history);
  }

  lemma ObserveSelects(prior: State, s: State, input: Input)
    ensures var t := Observe(prior, s, input, s.evaluatedAt);
      Sound(t) && Embeds(t.history, s.history + if Admits(prior, input) then NewEntries(input) else [])
  {
    hide Admits, Embeds, Sound, NextStatus, Kept;
    var bound := s.(binding := input.binding, bound := true, status := NextStatus(prior, input, s.status));
    if Admits(prior, input) {
      var current := At(bound.(policy := input.policy), s.evaluatedAt);
      AtIsSound(bound.(policy := input.policy));
      var longer := current.(history := current.history + NewEntries(input));
      AtIsSound(longer);
      EmbedsItself(NewEntries(input));
      EmbedsAppend(current.history, s.history, NewEntries(input), NewEntries(input));
      EmbedsTransitive(At(longer, s.evaluatedAt).history, longer.history, s.history + NewEntries(input));
    } else {
      AtIsSound(bound);
      assert s.history + [] == s.history;
    }
  }

  /** One input: the history stays within bounds and is an order-preserving
      selection of the earlier history and the new evidence, no entry more
      applicable than it was; time never goes back. */
  lemma ReduceSelects(prior: State, input: Input)
    ensures var s := Reduced(prior, input);
      && Sound(s) && Embeds(s.history, prior.history + Added(prior, input))
      && s.evaluatedAt == Later(input.now, prior.evaluatedAt)
  {
    hide Admits, Embeds, Sound, NextStatus, Kept, Observe, Bounded, BindingFits, ValidBinding, Retired;
    var now := Later(input.now, prior.evaluatedAt);
    var start := prior.(evaluatedAt := now);
    var s := At(start, now);
    AtIsSound(start);
    var identified := s.(parentIdentified := input.parentIdentified && input.binding.parent.Valid());
    if Retired(input) || !ValidBinding(input) || (s.bound && s.binding != input.binding) || !BindingFits(s, input) {
      assert Added(prior, input) == [];
      assert prior.history + [] == prior.history;
      if Retired(input) || (ValidBinding(input) && !(s.bound && s.binding != input.binding)) {
        SoundIgnoresStatus(s, Reduced(prior, input));
      } else {
        WithdrawnEmbeds(s.history);
        EmbedsTransitive(Withdrawn(s.history), s.history, prior.history);
        WithdrawnIsSound(s, Reduced(prior, input));
      }
    } else {
      ObserveSelects(prior, identified, input);
      ObserveTime(prior, identified, input, now);
      assert prior.history + [] == prior.history;
      EmbedsCompose(prior.history, [], s.history, Added(prior, input), Reduced(prior, input).history);
    }
  }

  lemma ObserveTime(prior: State, s: State, input: Input, now: int)
    ensures Observe(prior, s, input, now).evaluatedAt == s.evaluatedAt
  {
    hide Kept, Admits, NextStatus;
  }

  lemma EmbedsCompose(first: seq<Entry>, added: seq<Entry>, middle: seq<Entry>, more: seq<Entry>, last: seq<Entry>)
    requires Embeds(middle, first + added) && Embeds(last, middle + more)
    ensures Embeds(last, first + (added + more))
    ensures added == [] ==> Embeds(last, first + more)
  {
    hide Embeds;
    EmbedsItself(more);
    EmbedsAppend(middle, first + added, more, more);
    assert first + added + more == first + (added + more);
    EmbedsTransitive(last, middle + more, first + (added + more));
    assert added == [] ==> added + more == more;
  }

  lemma SoundIgnoresStatus(s: State, t: State)
    requires Sound(s) && t.policy == s.policy && t.evaluatedAt == s.evaluatedAt && t.history == s.history
    requires t.binding == s.binding && t.bound == s.bound
    ensures Sound(t)
  {
  }

  function Run(s: State, inputs: seq<Input>): State
    decreases |inputs|
  {
    if |inputs| == 0 then s else Run(Reduced(s, inputs[0]), inputs[1..])
  }

  /** All the evidence a run of inputs adds, in order. */
  function AllAdded(s: State, inputs: seq<Input>): seq<Entry>
    decreases |inputs|
  {
    if |inputs| == 0 then [] else Added(s, inputs[0]) + AllAdded(Reduced(s, inputs[0]), inputs[1..])
  }

  /** Over any sequence of inputs. */
  lemma {:induction false} HistoryOverRuns(s: State, inputs: seq<Input>)
    requires Sound(s)
    ensures Sound(Run(s, inputs))
    ensures Embeds(Run(s, inputs).history, s.history + AllAdded(s, inputs))
    ensures s.evaluatedAt <= Run(s, inputs).evaluatedAt
    decreases |inputs|
  {
    if |inputs| == 0 {
      EmbedsItself(s.history);
      assert s.history + [] == s.history;
    } else {
      hide Sound, Embeds, Reduced, Added;
      var t := Reduced(s, inputs[0]);
      ReduceSelects(s, inputs[0]);
      HistoryOverRuns(t, inputs[1..]);
      EmbedsCompose(s.history, Added(s, inputs[0]), t.history, AllAdded(t, inputs[1..]), Run(t, inputs[1..]).history);
    }
  }

  /** A run from the initial state holds nothing but admitted evidence. */
  lemma HistoryIsAdmittedEvidence(inputs: seq<Input>)
    ensures Sound(Run(InitialState, inputs)) && Embeds(Run(InitialState, inputs).history, AllAdded(InitialState, inputs))
  {
    HistoryOverRuns(InitialState, inputs);
    assert InitialState.history + AllAdded(InitialState, inputs) == AllAdded(InitialState, inputs);
  }
}
