/** What retention keeps, entry by entry, and when a run of inputs leaves the child
    documented as present. */
module LunaMeaning {
  import opened LunaHistory

  // ---- what is kept ------------------------------------------------------------------------------

  function Count(chosen: seq<bool>): (n: nat)
    ensures n <= |chosen|
  {
    if |chosen| == 0 then 0 else Count(chosen[1..]) + if chosen[0] then 1 else 0
  }

  /** The bytes of the chosen entries. */
  function ChosenBytes(history: seq<Entry>, chosen: seq<bool>): nat
    requires |history| == |chosen|
  {
    if |history| == 0 then 0
    else ChosenBytes(history[1..], chosen[1..]) + if chosen[0] then RecordBytes(history[0].binding, history[0].evidence) else 0
  }

  /** The chosen entries, in order, each marked for the current binding and time. */
  function Picked(t: Terms, history: seq<Entry>, chosen: seq<bool>): seq<Entry>
    requires |history| == |chosen|
  {
    if |history| == 0 then []
    else (if chosen[0] then [Refreshed(t, history[0])] else []) + Picked(t, history[1..], chosen[1..])
  }

  function Refreshed(t: Terms, e: Entry): Entry {
    Entry(e.binding, e.event, e.evidence, e.applicable && t.bound && e.binding == t.binding,
          t.now <= e.evidence.observedAt + t.policy.freshnessAge)
  }

  /** Entry i is not older than the retention age nor from the future, and there is
      room for it behind the chosen newer entries. */
  predicate HasRoom(t: Terms, history: seq<Entry>, chosen: seq<bool>, i: nat)
    requires |history| == |chosen| && i < |history|
  {
    && history[i].evidence.observedAt <= t.now <= history[i].evidence.observedAt + t.policy.retentionAge
    && Count(chosen[i + 1..]) < t.policy.historyRecords
    && ChosenBytes(history[i + 1..], chosen[i + 1..]) + RecordBytes(history[i].binding, history[i].evidence) <= t.policy.historyBytes
  }

  /** An entry is chosen exactly when it has room. */
  predicate Chosen(t: Terms, history: seq<Entry>, chosen: seq<bool>) {
    && |history| == |chosen|
    && forall i :: 0 <= i < |history| ==> (chosen[i] <==> HasRoom(t, history, chosen, i))
  }

  lemma ChosenLonger(t: Terms, e: Entry, history: seq<Entry>, chosen: seq<bool>, first: bool)
    requires Chosen(t, history, chosen)
    requires first <==> HasRoom(t, [e] + history, [first] + chosen, 0)
    ensures Chosen(t, [e] + history, [first] + chosen)
  {
    var longer, marks := [e] + history, [first] + chosen;
    forall i | 0 < i < |longer|
      ensures HasRoom(t, longer, marks, i) <==> HasRoom(t, history, chosen, i - 1)
    {
      assert longer[i + 1..] == history[i..] && marks[i + 1..] == chosen[i..];
    }
  }

  lemma {:induction false} PickedSize(t: Terms, history: seq<Entry>, chosen: seq<bool>)
    requires |history| == |chosen|
    ensures |Picked(t, history, chosen)| == Count(chosen) && Bytes(Picked(t, history, chosen)) == ChosenBytes(history, chosen)
  {
    if |history| > 0 {
      PickedSize(t, history[1..], chosen[1..]);
      if chosen[0] {
        assert Picked(t, history, chosen)[1..] == Picked(t, history[1..], chosen[1..]);
      } else {
        assert Picked(t, history, chosen) == Picked(t, history[1..], chosen[1..]);
      }
    }
  }

  /** The next older entry: it is kept exactly when it has room. */
  lemma OneMorePicked(t: Terms, e: Entry, back: seq<Entry>, marks: seq<bool>)
    requires Chosen(t, back, marks)
    ensures var newer := Picked(t, back, marks); var first := Fits(t, e, newer);
      && Chosen(t, [e] + back, [first] + marks)
      && Picked(t, [e] + back, [first] + marks) == if first then [Marked(t, e)] + newer else newer
  {
    hide Chosen;
    ChosenSize(t, back, marks);
    var newer := Picked(t, back, marks);
    var first := Fits(t, e, newer);
    PickedSize(t, back, marks);
    assert ([e] + back)[1..] == back && ([first] + marks)[1..] == marks;
    ChosenLonger(t, e, back, marks, first);
    assert !first ==> [] + newer == newer;
  }

  lemma ChosenSize(t: Terms, history: seq<Entry>, chosen: seq<bool>)
    requires Chosen(t, history, chosen)
    ensures |history| == |chosen|
  {
  }

  lemma {:induction false} KeptBehindIsPicked(t: Terms, front: seq<Entry>, back: seq<Entry>, marks: seq<bool>) returns (chosen: seq<bool>)
    requires Chosen(t, back, marks)
    ensures Chosen(t, front + back, chosen)
    ensures KeptBehind(t, front, Picked(t, back, marks)) == Picked(t, front + back, chosen)
    decreases |front|
  {
    hide Chosen, Picked, Fits, Marked;
    if |front| == 0 {
      chosen := marks;
      assert front + back == back;
    } else {
      var last, rest := front[|front| - 1], front[..|front| - 1];
      ChosenSize(t, back, marks);
      var newer := Picked(t, back, marks);
      var first := Fits(t, last, newer);
      OneMorePicked(t, last, back, marks);
      chosen := KeptBehindIsPicked(t, rest, [last] + back, [first] + marks);
      assert rest + ([last] + back) == front + back;
    }
  }

  /** What retention leaves of a history: nothing under a policy that is not valid, and
      otherwise exactly the entries that have room, marked. */
  ghost predicate Retains(t: Terms, history: seq<Entry>, kept: seq<Entry>) {
    if t.policy.maxRecords > 0 && t.policy.maxBytes > 0 && t.policy.deadline > 0 && t.policy.freshnessAge > 0 &&
       t.policy.retentionAge > 0 && t.policy.historyRecords > 0 && t.policy.historyBytes > 0
    then exists chosen :: Chosen(t, history, chosen) && kept == Picked(t, history, chosen)
    else kept == []
  }

  lemma KeptIsRetained(t: Terms, history: seq<Entry>)
    ensures Retains(t, history, Kept(t, history))
  {
    if t.policy.Valid() {
      var chosen := KeptBehindIsPicked(t, history, [], []);
      assert history + [] == history;
    }
  }

  lemma {:induction false} ChosenIsUnique(t: Terms, history: seq<Entry>, a: seq<bool>, b: seq<bool>, n: nat)
    requires Chosen(t, history, a) && Chosen(t, history, b) && n <= |history|
    ensures a[n..] == b[n..]
    decreases |history| - n
  {
    if n < |history| {
      ChosenIsUnique(t, history, a, b, n + 1);
      assert HasRoom(t, history, a, n) <==> HasRoom(t, history, b, n);
      assert a[n..] == [a[n]] + a[n + 1..] && b[n..] == [b[n]] + b[n + 1..];
    }
  }

  /** Retention is that and nothing else. */
  lemma RetainedIffKept(t: Terms, history: seq<Entry>, kept: seq<Entry>)
    ensures Retains(t, history, kept) <==> kept == Kept(t, history)
  {
    KeptIsRetained(t, history);
    if Retains(t, history, kept) && t.policy.Valid() {
      var a :| Chosen(t, history, a) && kept == Picked(t, history, a);
      var b :| Chosen(t, history, b) && Kept(t, history) == Picked(t, history, b);
      ChosenIsUnique(t, history, a, b, 0);
      assert a[0..] == a && b[0..] == b;
    }
  }

  // ---- one input ------------------------------------------------------------------------------------

  /** The observation was made in the epochs of the binding it comes with. */
  predicate InEpoch(input: Input) {
    input.observationParentEpoch == input.binding.parentEpoch && input.observationGroupEpoch == input.binding.groupEpoch
  }

  predicate Named(id: Identity) { id.model != "" && id.firmware != "" && id.unit != "" }

  /** The input identifies a child completely. */
  predicate Identifies(input: Input) {
    && input.parentIdentified && input.epochsAssociated
    && Named(input.binding.parent) && Named(input.binding.group) && input.binding.attachment != ""
    && input.binding.parentEpoch != "" && input.binding.groupEpoch != "" && input.binding.revision != ""
  }

  predicate PositivePolicy(p: Policy) {
    p.maxRecords > 0 && p.maxBytes > 0 && p.deadline > 0 && p.freshnessAge > 0 && p.retentionAge > 0 && p.historyRecords > 0
    && p.historyBytes > 0
  }

  /** In time, under a policy, with evidence that is complete, of the past and within
      the policy's records and bytes. */
  predicate Admissible(evaluatedAt: int, input: Input) {
    && PositivePolicy(input.policy) && evaluatedAt <= input.now && 0 <= input.started <= input.now < input.policy.deadline
    && |input.evidence| <= input.policy.maxRecords
    && (forall i :: 0 <= i < |input.evidence| ==>
        && input.evidence[i].reference != "" && input.evidence[i].nativeOutcome != ""
        && 0 <= input.evidence[i].observedAt <= input.now)
    && EvidenceBytes(input, |input.evidence|) <= input.policy.maxBytes
  }

  lemma AdmissibleIff(prior: State, input: Input)
    requires prior.evaluatedAt >= 0
    ensures Admissible(prior.evaluatedAt, input) <==> Timely(prior, input) && EvidenceFits(input)
  {
  }

  /** The child is bound to another identity. */
  predicate BoundElsewhere(prior: State, input: Input) {
    prior.bound && prior.binding != input.binding
  }

  /** The input documents the bound child as present. */
  predicate Documents(prior: State, input: Input) {
    && InEpoch(input) && Identifies(input) && !BoundElsewhere(prior, input)
    && Admissible(prior.evaluatedAt, input) && input.event.DocumentaryPresence? && input.evidence != []
  }

  lemma {:induction false} EvidenceHoldsBinding(input: Input, n: nat)
    requires 0 < n <= |input.evidence|
    ensures EvidenceBytes(input, n) >= RecordBytes(input.binding, NoEvidence)
  {
    if n > 1 {
      EvidenceHoldsBinding(input, n - 1);
    } else {
      assert EvidenceBytes(input, 0) == 0;
    }
  }

  /** The branch the input takes. */
  lemma ReducedStatus(prior: State, input: Input)
    ensures var s := Reduced(prior, input);
      if Retired(input) then s.status == prior.status && s.bound == prior.bound && s.binding == prior.binding
      else if !ValidBinding(input) then s.status.UnknownStatus? && !s.bound
      else if prior.bound && prior.binding != input.binding then s.status.IdentityChanged? && (s.bound ==> s.binding == input.binding)
      else if !BindingFits(prior, input) then s.status == Degraded(prior.status) && s.bound == prior.bound && s.binding == prior.binding
      else s.status == NextStatus(prior, input, prior.status) && s.binding == input.binding
  {
    hide Kept, EvidenceFits, Timely, NextStatus, Retired, ValidBinding, Admits, Degraded;
  }

  /** Which status one input leaves: present exactly when it documents presence, or is
      of a past epoch and changes nothing; changed exactly when it identifies another
      child; unreadable only after presence, when it fails or cannot be admitted. */
  lemma StatusMeans(prior: State, input: Input)
    requires prior.evaluatedAt >= 0
    ensures var s := Reduced(prior, input);
      && (!InEpoch(input) ==> s.status == prior.status && s.bound == prior.bound && s.binding == prior.binding)
      && (InEpoch(input) ==>
          && (s.status.PresentUnqualified? <==> Documents(prior, input))
          && (s.status.IdentityChanged? <==> Identifies(input) && BoundElsewhere(prior, input))
          && (s.status.TemporarilyUnreadable? ==>
              && Identifies(input) && !BoundElsewhere(prior, input)
              && (prior.status.PresentUnqualified? || prior.status.TemporarilyUnreadable?))
          && (Identifies(input) && !BoundElsewhere(prior, input) && (prior.status.PresentUnqualified? || prior.status.TemporarilyUnreadable?) &&
              (!Admissible(prior.evaluatedAt, input) || input.event.OptionalFailure? || input.event.MalformedEvidence?) ==>
              s.status.TemporarilyUnreadable?)
          && (s.bound ==> s.binding == input.binding && Identifies(input)))
  {
    hide Kept, EvidenceFits, Reduced, Timely;
    ReducedStatus(prior, input);
    AdmissibleIff(prior, input);
    if |input.evidence| > 0 {
      EvidenceHoldsBinding(input, |input.evidence|);
    }
    assert EvidenceFits(input) ==> EvidenceBytes(input, |input.evidence|) <= input.policy.maxBytes by { FitsBudget(input); }
  }

  lemma FitsBudget(input: Input)
    ensures EvidenceFits(input) ==> EvidenceBytes(input, |input.evidence|) <= input.policy.maxBytes
  {
  }

  // ---- every run ---------------------------------------------------------------------------------------

  lemma {:induction false} RunAppend(s: State, inputs: seq<Input>, input: Input)
    ensures Run(s, inputs + [input]) == Reduced(Run(s, inputs), input)
    decreases |inputs|
  {
    hide Reduced;
    if |inputs| == 0 {
      assert (inputs + [input])[1..] == [];
    } else {
      assert (inputs + [input])[1..] == inputs[1..] + [input];
      RunAppend(Reduced(s, inputs[0]), inputs[1..], input);
    }
  }

  lemma DocumentsInEpoch(prior: State, input: Input)
    ensures Documents(prior, input) ==> InEpoch(input)
  {
  }

  predicate DocumentsAt(inputs: seq<Input>, k: nat)
    requires k < |inputs|
  {
    Documents(Run(InitialState, inputs[..k]), inputs[k])
  }

  predicate PastEpochsFrom(inputs: seq<Input>, k: nat) {
    forall j :: k <= j < |inputs| ==> !InEpoch(inputs[j])
  }

  /** After any sequence of inputs the child stands documented as present if and only if
      the last input that was not of a past epoch documented it. */
  lemma {:induction false} PresentIffDocumented(inputs: seq<Input>)
    ensures Run(InitialState, inputs).evaluatedAt >= 0
    ensures Run(InitialState, inputs).status.PresentUnqualified? <==>
      exists k: nat :: k < |inputs| && DocumentsAt(inputs, k) && PastEpochsFrom(inputs, k + 1)
    decreases |inputs|
  {
    hide Documents, Reduced, InEpoch;
    if |inputs| > 0 {
      var front, last := inputs[..|inputs| - 1], inputs[|inputs| - 1];
      assert inputs == front + [last];
      RunAppend(InitialState, front, last);
      PresentIffDocumented(front);
      StatusMeans(Run(InitialState, front), last);
      assert Run(InitialState, inputs).evaluatedAt >= 0 by { ReduceSelects(Run(InitialState, front), last); }
      forall k: nat | k < |front|
        ensures DocumentsAt(inputs, k) <==> DocumentsAt(front, k)
        ensures PastEpochsFrom(inputs, k + 1) <==> PastEpochsFrom(front, k + 1) && !InEpoch(last)
      {
        assert inputs[..k] == front[..k] && inputs[k] == front[k];
        assert forall j :: 0 <= j < |front| ==> inputs[j] == front[j];
      }
      assert DocumentsAt(inputs, |front|) <==> Documents(Run(InitialState, front), last);
      assert PastEpochsFrom(inputs, |front| + 1);
      if k: nat :| k < |inputs| && DocumentsAt(inputs, k) && PastEpochsFrom(inputs, k + 1) {
        assert k < |front| ==> PastEpochsFrom(inputs, |front|) && inputs[|front|] == last;
      }
      if InEpoch(last) && Documents(Run(InitialState, front), last) {
        assert DocumentsAt(inputs, |front|);
      }
      assert Documents(Run(InitialState, front), last) ==> InEpoch(last) by { DocumentsInEpoch(Run(InitialState, front), last); }
    }
  }

  // ---- the history after one input ------------------------------------------------------------------------

  function Withdraw(e: Entry): Entry { e.(applicable := false) }

  /** The history one input leaves: what retention keeps of the earlier one at the
      input's time; with every entry withdrawn when the input identifies no child or
      another; and with all the input's evidence behind it, retained under the input's
      own policy, when that is admitted for the bound child. */
  ghost predicate HistoryFollows(prior: State, input: Input, now: int, first: seq<Entry>, after: seq<Entry>) {
    && Retains(Terms(prior.policy, prior.bound, prior.binding, now), prior.history, first)
    && if !InEpoch(input) then after == first
       else if !Identifies(input) || BoundElsewhere(prior, input) then
         |after| == |first| && forall i :: 0 <= i < |first| ==> after[i] == Withdraw(first[i])
       else if RecordBytes(input.binding, NoEvidence) > BytesAllowed(prior, input) then after == first
       else if !Admissible(prior.evaluatedAt, input) || input.event.OtherEvent? then
         Retains(Terms(prior.policy, true, input.binding, now), first, after)
       else
         exists second, added ::
           && Retains(Terms(input.policy, true, input.binding, now), first, second)
           && FreshEntries(input, added)
           && Retains(Terms(input.policy, true, input.binding, now), second + added, after)
  }

  /** The bytes a binding may take: under the input's policy, else the one in force. */
  function BytesAllowed(prior: State, input: Input): int {
    if PositivePolicy(input.policy) then input.policy.maxBytes else prior.policy.maxBytes
  }

  /** The input's evidence, applicable to its binding. */
  predicate FreshEntries(input: Input, entries: seq<Entry>) {
    && |entries| == |input.evidence|
    && forall i :: 0 <= i < |entries| ==> entries[i] == Entry(input.binding, input.event, input.evidence[i], true, false)
  }

  lemma LimitIs(prior: State, input: Input)
    ensures BindingFits(prior, input) <==> RecordBytes(input.binding, NoEvidence) <= BytesAllowed(prior, input)
  {
  }

  /** The same, branch by branch. */
  lemma ReducedHistory(prior: State, input: Input, now: int)
    requires now == Later(input.now, prior.evaluatedAt)
    ensures var first := Kept(Terms(prior.policy, prior.bound, prior.binding, now), prior.history);
      var own := Terms(input.policy, true, input.binding, now);
      Reduced(prior, input).history ==
        if Retired(input) then first
        else if !ValidBinding(input) || (prior.bound && prior.binding != input.binding) then Withdrawn(first)
        else if !BindingFits(prior, input) then first
        else if !Admits(prior, input) then Kept(Terms(prior.policy, true, input.binding, now), first)
        else Kept(own, Kept(own, first) + NewEntries(input))
  {
    hide Kept, Timely, EvidenceFits, NextStatus, Retired, ValidBinding, Admits, Degraded, NewEntries;
  }

  lemma HistoryMeans(prior: State, input: Input)
    requires prior.evaluatedAt >= 0
    ensures var now := if input.now < prior.evaluatedAt then prior.evaluatedAt else input.now;
      exists first :: HistoryFollows(prior, input, now, first, Reduced(prior, input).history)
  {
    hide Kept, EvidenceFits, Retains, Reduced, Timely, PositivePolicy;
    AdmissibleIff(prior, input);
    LimitIs(prior, input);
    ReducedHistory(prior, input, Later(input.now, prior.evaluatedAt));
    var now := Later(input.now, prior.evaluatedAt);
    var t := Terms(prior.policy, prior.bound, prior.binding, now);
    var first := Kept(t, prior.history);
    KeptIsRetained(t, prior.history);
    KeptIsRetained(Terms(prior.policy, true, input.binding, now), first);
    var own := Terms(input.policy, true, input.binding, now);
    KeptIsRetained(own, first);
    KeptIsRetained(own, Kept(own, first) + NewEntries(input));
    assert FreshEntries(input, NewEntries(input));
    assert HistoryFollows(prior, input, now, first, Reduced(prior, input).history);
  }
}
