/** What a read-only provider remembers about refused groups, across cycles that
    run on a cloned state and may be discarded. Every lock-held section and every
    group read is one event, so stop, reconnect and close interleave anywhere. */
module ProviderRefusals {
  import opened Foundation

  const REFUSAL_CODE: int := 3

  /** One planned group of one monitoring profile. */
  datatype Group = Group(profile: string, offset: uint16, quantity: uint16)

  type Groups = set<Group>

  /** The refusal part of huaweiProviderState: per child, and carried for
      children the state does not have yet. */
  datatype Memory = Memory(children: map<uint8, Groups>, carried: map<uint8, Groups>)
  {
    predicate Knows(unit: uint8, group: Group) {
      (unit in children && group in children[unit]) || (unit in carried && group in carried[unit])
    }

    /** Carried refusals are only for children the state does not have. */
    predicate Valid() {
      forall unit :: unit in carried ==> unit !in children
    }

    /** huaweiProviderState.child: a new child takes over what was carried for it. */
    function Child(unit: uint8): Memory {
      if unit in children then this
      else Memory(children[unit := if unit in carried then carried[unit] else {}], carried - {unit})
    }

    /** A definitive refusal recorded on a child. */
    function Learn(unit: uint8, group: Group): Memory
      requires unit in children
    {
      this.(children := children[unit := children[unit] + {group}])
    }

    /** carryRefusals: what the children of an uncommitted cycle learned. */
    function Carry(from: Memory): Memory {
      Memory(map unit | unit in children :: children[unit] + from.RefusedBy(unit),
             map unit | unit in carried.Keys + UnknownTo(from) :: CarriedBy(unit) + if unit in children then {} else from.RefusedBy(unit))
    }

    function RefusedBy(unit: uint8): Groups {
      if unit in children then children[unit] else {}
    }

    function CarriedBy(unit: uint8): Groups {
      if unit in carried then carried[unit] else {}
    }

    /** Children with refusals that this memory has no child for. */
    function UnknownTo(from: Memory): set<uint8> {
      set unit | unit in from.children && unit !in children && from.children[unit] != {}
    }
  }

  // ---- each operation, in terms of what is known -------------------------------------------------

  lemma ChildForgetsNothing(m: Memory, unit: uint8, u: uint8, g: Group)
    requires m.Valid()
    ensures m.Child(unit).Knows(u, g) <==> m.Knows(u, g)
    ensures m.Child(unit).Valid() && unit in m.Child(unit).children
    ensures m.children.Keys <= m.Child(unit).children.Keys && CarriesNoMore(m.Child(unit), m)
  {
  }

  /** For a child of the state, its own set decides what is known. */
  lemma ChildDecides(m: Memory, unit: uint8, g: Group)
    requires m.Valid() && unit in m.children
    ensures g in m.children[unit] <==> m.Knows(unit, g)
  {
  }

  lemma LearnAddsOne(m: Memory, unit: uint8, group: Group, u: uint8, g: Group)
    requires m.Valid() && unit in m.children
    ensures m.Learn(unit, group).Knows(u, g) <==> m.Knows(u, g) || (u == unit && g == group)
    ensures m.Learn(unit, group).Valid()
  {
  }

  /** Carrying adds exactly what the children of the discarded cycle know, and no child. */
  lemma CarryJoins(kept: Memory, from: Memory, u: uint8, g: Group)
    requires kept.Valid()
    ensures kept.Carry(from).Knows(u, g) <==> kept.Knows(u, g) || (u in from.children && g in from.children[u])
    ensures kept.Carry(from).Valid() && kept.Carry(from).children.Keys == kept.children.Keys
  {
  }

  // ---- the provider ---------------------------------------------------------------------------------

  datatype ReadStatus = Answered | Exception(code: uint8) | Failed | Stopped(decoded: Option<uint8>)

  /** The reply was a definitive refusal, decoded in time or before a stop. */
  predicate Refuses(status: ReadStatus) {
    || (status.Exception? && status.code == REFUSAL_CODE)
    || (status.Stopped? && status.decoded == Some(REFUSAL_CODE))
  }

  /** One request on the wire and the raw reply to it. */
  datatype Entry = Asked(unit: uint8, group: Group, status: ReadStatus)

  datatype Run = Run(memory: Memory, generation: nat, failed: bool)

  datatype Provider = Provider(
    kept: Memory,
    run: Option<Run>,
    generation: nat,
    started: bool,
    closing: bool,
    closed: bool,
    log: seq<Entry>)

  const NewProvider := Provider(Memory(map[], map[]), None, 0, false, false, false, [])

  datatype Event =
    | Start
    | Stop
    | Reconnect
    | Rebind
    | SessionClosed
    | Close
    | BeginCycle
    | EnsureChild(unit: uint8)
    | Ask(unit: uint8, group: Group, status: ReadStatus)
    | FailCycle
    | EndCycle

  predicate Enabled(p: Provider, e: Event) {
    match e
    case Start => !p.closed && !p.closing && !p.started
    case Stop => !p.closed && !p.closing && p.started
    case Reconnect => !p.closed && !p.closing
    case Rebind => p.closing && !p.closed && !p.started
    case SessionClosed => p.closing
    case Close => !p.closed
    case BeginCycle => !p.closed && p.run.None? && p.started
    case EnsureChild(_) => p.run.Some?
    case Ask(unit, group, _) =>
      // monitorChild skips the groups its child was refused.
      p.run.Some? && !p.run.value.failed && unit in p.run.value.memory.children && group !in p.run.value.memory.children[unit]
    case FailCycle => p.run.Some?
    case EndCycle => p.run.Some?
  }

  /** bindLocked and unbindLocked move the generation, which fences a running cycle. */
  function Step(p: Provider, e: Event): Provider
    requires Enabled(p, e)
  {
    match e
    case Start => p.(started := true, generation := p.generation + 1)
    case Stop => p.(started := false, closing := true, generation := p.generation + 1)
    case Reconnect =>
      p.(started := false, closing := true, generation := if p.started then p.generation + 1 else p.generation)
    case Rebind => p.(started := true, closing := false, generation := p.generation + 1)
    case SessionClosed => p.(closing := false)
    case Close => p.(started := false, closed := true, generation := p.generation + 1)
    case BeginCycle => p.(run := Some(Run(p.kept, p.generation, false)))
    case EnsureChild(unit) => p.(run := Some(p.run.value.(memory := p.run.value.memory.Child(unit))))
    case Ask(unit, group, status) =>
      var memory := if Refuses(status) then p.run.value.memory.Learn(unit, group) else p.run.value.memory;
      p.(run := Some(p.run.value.(memory := memory, failed := status.Stopped?)),
         log := p.log + [Asked(unit, group, status)])
    case FailCycle => p.(run := Some(p.run.value.(failed := true)))
    case EndCycle =>
      var run := p.run.value;
      p.(run := None,
         kept := if p.closed then p.kept
                 else if p.generation != run.generation || run.failed then p.kept.Carry(run.memory)
                 else run.memory)
  }

  predicate Legal(p: Provider, events: seq<Event>)
    decreases |events|
  {
    |events| == 0 || (Enabled(p, events[0]) && Legal(Step(p, events[0]), events[1..]))
  }

  function Exec(p: Provider, events: seq<Event>): Provider
    requires Legal(p, events)
    decreases |events|
  {
    if |events| == 0 then p else Exec(Step(p, events[0]), events[1..])
  }

  // ---- the invariant -------------------------------------------------------------------------------------

  /** No group is asked for again after it was refused. */
  predicate SilentAfterRefusal(log: seq<Entry>) {
    forall i, j :: 0 <= i < j < |log| && Refuses(log[i].status) ==>
      log[i].unit != log[j].unit || log[i].group != log[j].group
  }

  predicate RefusedIn(log: seq<Entry>, unit: uint8, group: Group) {
    exists i :: 0 <= i < |log| && log[i].unit == unit && log[i].group == group && Refuses(log[i].status)
  }

  /** m knows what was refused, and nothing else. */
  ghost predicate Remembers(m: Memory, log: seq<Entry>) {
    forall unit, group :: RefusedIn(log, unit, group) ==> m.Knows(unit, group)
  }

  ghost predicate KnowsOnly(m: Memory, log: seq<Entry>) {
    forall unit, group :: m.Knows(unit, group) ==> RefusedIn(log, unit, group)
  }

  ghost predicate Extends(later: Memory, earlier: Memory) {
    && earlier.children.Keys <= later.children.Keys
    && forall unit, group :: earlier.Knows(unit, group) ==> later.Knows(unit, group)
  }

  /** A cycle carries nothing but what was carried before it began. */
  predicate CarriesNoMore(later: Memory, earlier: Memory) {
    forall unit :: unit in later.carried ==> unit in earlier.carried && later.carried[unit] == earlier.carried[unit]
  }

  /** The state in force: the running cycle's clone, otherwise the committed one. */
  function Current(p: Provider): Memory {
    if p.run.Some? then p.run.value.memory else p.kept
  }

  ghost predicate Inv(p: Provider) {
    && p.kept.Valid() && Current(p).Valid()
    && SilentAfterRefusal(p.log)
    && (!(p.closed && p.run.None?) ==> Remembers(Current(p), p.log))
    && KnowsOnly(Current(p), p.log)
    && Extends(Current(p), p.kept)
    && CarriesNoMore(Current(p), p.kept)
    && (p.closed ==> !p.started)
  }

  lemma RefusedInLonger(log: seq<Entry>, e: Entry, unit: uint8, group: Group)
    ensures RefusedIn(log + [e], unit, group) <==>
      RefusedIn(log, unit, group) || (e.unit == unit && e.group == group && Refuses(e.status))
  {
    hide Refuses;
    var longer := log + [e];
    if RefusedIn(log, unit, group) {
      var i :| 0 <= i < |log| && log[i].unit == unit && log[i].group == group && Refuses(log[i].status);
      assert longer[i] == log[i];
    }
    assert longer[|log|] == e;
  }

  /** A group that is not known to be refused may be asked for, and a refusal
      that is learned on the spot is remembered. */
  lemma AskKeepsLog(before: Memory, after: Memory, log: seq<Entry>, e: Entry)
    requires SilentAfterRefusal(log) && Remembers(before, log) && KnowsOnly(before, log) && !before.Knows(e.unit, e.group)
    requires forall u, g :: after.Knows(u, g) <==> before.Knows(u, g) || (u == e.unit && g == e.group && Refuses(e.status))
    ensures SilentAfterRefusal(log + [e]) && Remembers(after, log + [e]) && KnowsOnly(after, log + [e])
  {
    hide Memory.Knows, Refuses, RefusedIn;
    var longer := log + [e];
    forall u, g
      ensures RefusedIn(longer, u, g) <==> RefusedIn(log, u, g) || (e.unit == u && e.group == g && Refuses(e.status))
    {
      RefusedInLonger(log, e, u, g);
    }
    forall i | 0 <= i < |log| && Refuses(log[i].status)
      ensures log[i].unit != e.unit || log[i].group != e.group
    {
      RefusedAt(log, i);
    }
  }

  lemma RefusedAt(log: seq<Entry>, i: nat)
    requires i < |log| && Refuses(log[i].status)
    ensures RefusedIn(log, log[i].unit, log[i].group)
  {
  }

  lemma AskPreserves(p: Provider, unit: uint8, group: Group, status: ReadStatus)
    requires Inv(p) && Enabled(p, Ask(unit, group, status))
    ensures Inv(Step(p, Ask(unit, group, status)))
  {
    hide Memory.Learn, Memory.Knows, SilentAfterRefusal, Remembers, KnowsOnly, Refuses;
    var m, q := p.run.value.memory, Step(p, Ask(unit, group, status));
    ChildDecides(m, unit, group);
    forall u, g
      ensures m.Learn(unit, group).Knows(u, g) <==> m.Knows(u, g) || (u == unit && g == group)
    {
      LearnAddsOne(m, unit, group, u, g);
    }
    LearnAddsOne(m, unit, group, unit, group);
    LearnKeepsChildren(m, unit, group);
    AskKeepsLog(m, q.run.value.memory, p.log, Asked(unit, group, status));
  }

  lemma LearnKeepsChildren(m: Memory, unit: uint8, group: Group)
    requires unit in m.children
    ensures m.Learn(unit, group).children.Keys == m.children.Keys && m.Learn(unit, group).carried == m.carried
  {
  }

  lemma EnsureChildPreserves(p: Provider, unit: uint8)
    requires Inv(p) && Enabled(p, EnsureChild(unit))
    ensures Inv(Step(p, EnsureChild(unit)))
  {
    hide Memory.Child, Memory.Knows;
    var m := p.run.value.memory;
    forall u, g
      ensures m.Child(unit).Knows(u, g) <==> m.Knows(u, g)
    {
      ChildForgetsNothing(m, unit, u, g);
    }
    ChildForgetsNothing(m, unit, unit, Group("", 0, 0));
  }

  /** Committed or discarded, the end of a cycle leaves exactly what the cycle knew. */
  lemma EndKeepsWhatTheCycleKnew(p: Provider, u: uint8, g: Group)
    requires Inv(p) && Enabled(p, EndCycle) && !p.closed
    ensures Step(p, EndCycle).kept.Knows(u, g) <==> p.run.value.memory.Knows(u, g)
    ensures Step(p, EndCycle).kept.Valid()
  {
    var from := p.run.value.memory;
    CarryJoins(p.kept, from, u, g);
    if from.Knows(u, g) && !(u in from.children && g in from.children[u]) {
      CarriedIsKept(p, u, g);
    }
  }

  /** What a cycle still carries was carried before it began. */
  lemma CarriedIsKept(p: Provider, u: uint8, g: Group)
    requires Inv(p) && p.run.Some? && u in p.run.value.memory.carried && g in p.run.value.memory.carried[u]
    ensures p.kept.Knows(u, g)
  {
  }

  lemma EndPreserves(p: Provider)
    requires Inv(p) && Enabled(p, EndCycle)
    ensures Inv(Step(p, EndCycle))
    ensures Extends(Step(p, EndCycle).kept, p.kept) || p.closed
  {
    hide Memory.Carry;
    var from, q := p.run.value.memory, Step(p, EndCycle);
    if !p.closed {
      forall u, g
        ensures q.kept.Knows(u, g) <==> from.Knows(u, g)
      {
        EndKeepsWhatTheCycleKnew(p, u, g);
      }
      EndKeepsWhatTheCycleKnew(p, 0, Group("", 0, 0));
      CarryJoins(p.kept, from, 0, Group("", 0, 0));
    }
  }

  lemma StepPreserves(p: Provider, e: Event)
    requires Inv(p) && Enabled(p, e)
    ensures Inv(Step(p, e))
  {
    match e
    case EnsureChild(unit) => EnsureChildPreserves(p, unit);
    case Ask(unit, group, status) => AskPreserves(p, unit, group, status);
    case EndCycle => EndPreserves(p);
    case _ =>
  }

  lemma {:induction false} RunPreserves(p: Provider, events: seq<Event>)
    requires Inv(p) && Legal(p, events)
    ensures Inv(Exec(p, events))
    decreases |events|
  {
    if |events| > 0 {
      StepPreserves(p, events[0]);
      RunPreserves(Step(p, events[0]), events[1..]);
    }
  }

  /** The reply was exception 3, decoded in time or before the read was stopped. */
  predicate RefusalReply(e: Entry, unit: uint8, group: Group) {
    && e.unit == unit && e.group == group
    && (e.status == Exception(3) || e.status == Stopped(Some(3)))
  }

  /** Over every run: once a request for a group at a unit was answered with
      exception 3, no later request asks for that group at that unit, whatever
      happened to the cycle that learned it. */
  lemma RefusedStaysSilent(events: seq<Event>, i: nat, j: nat)
    requires Legal(NewProvider, events)
    ensures var log := Exec(NewProvider, events).log;
      i < j < |log| && RefusalReply(log[i], log[i].unit, log[i].group) ==>
        log[j].unit != log[i].unit || log[j].group != log[i].group
  {
    NewProviderInv();
    RunPreserves(NewProvider, events);
  }

  /** And nothing else is withheld: in every reachable state a group is in its
      child's set exactly when a request for it was answered so. */
  lemma SkippedIffRefused(events: seq<Event>, unit: uint8, group: Group)
    requires Legal(NewProvider, events)
    ensures var p := Exec(NewProvider, events);
      p.run.Some? && unit in p.run.value.memory.children ==>
        (group in p.run.value.memory.children[unit] <==> exists i :: 0 <= i < |p.log| && RefusalReply(p.log[i], unit, group))
  {
    hide Remembers, KnowsOnly;
    NewProviderInv();
    RunPreserves(NewProvider, events);
    var p := Exec(NewProvider, events);
    if p.run.Some? && unit in p.run.value.memory.children {
      var m := p.run.value.memory;
      ChildDecides(m, unit, group);
      assert m.Knows(unit, group) <==> RefusedIn(p.log, unit, group) by { KnownIffRefused(m, p.log, unit, group); }
    }
  }

  lemma KnownIffRefused(m: Memory, log: seq<Entry>, unit: uint8, group: Group)
    requires Remembers(m, log) && KnowsOnly(m, log)
    ensures m.Knows(unit, group) <==> RefusedIn(log, unit, group)
  {
  }

  lemma NewProviderInv()
    ensures Inv(NewProvider)
  {
  }

  // ---- when a cycle is committed -------------------------------------------------------------------------

  /** The connection changed, or a read or the runner stopped the cycle. */
  predicate Disturbs(e: Event) {
    e.Start? || e.Stop? || e.Reconnect? || e.Rebind? || e.Close? || e.FailCycle? || (e.Ask? && e.status.Stopped?)
  }

  predicate Undisturbed(events: seq<Event>) {
    forall i :: 0 <= i < |events| ==> !Disturbs(events[i])
  }

  predicate Ensured(events: seq<Event>, unit: uint8) {
    exists i :: 0 <= i < |events| && events[i] == EnsureChild(unit)
  }

  /** The running cycle, after events since it began on the state kept at p. */
  ghost predicate Running(p: Provider, events: seq<Event>, q: Provider) {
    && q.run.Some? && q.kept == p.kept
    && q.run.value.generation == p.generation <= q.generation
    && (if Undisturbed(events) then q.generation == p.generation && !q.run.value.failed && q.started && !q.closed
        else q.generation > p.generation || q.run.value.failed)
    && (q.generation == p.generation ==> q.started && !q.closed)
    && forall u: uint8 :: u in q.run.value.memory.children <==> u in p.kept.children || Ensured(events, u)
  }

  lemma UndisturbedLonger(events: seq<Event>, e: Event)
    ensures Undisturbed(events + [e]) <==> Undisturbed(events) && !Disturbs(e)
    ensures forall u: uint8 :: Ensured(events + [e], u) <==> Ensured(events, u) || e == EnsureChild(u)
  {
    var longer := events + [e];
    assert longer[|events|] == e;
    forall u: uint8
      ensures Ensured(longer, u) <==> Ensured(events, u) || e == EnsureChild(u)
    {
      if Ensured(events, u) {
        var i :| 0 <= i < |events| && events[i] == EnsureChild(u);
        assert longer[i] == EnsureChild(u);
      }
    }
    if Undisturbed(longer) {
      assert forall i :: 0 <= i < |events| ==> longer[i] == events[i];
    }
  }

  lemma RunningStep(p: Provider, events: seq<Event>, q: Provider, e: Event)
    requires Running(p, events, q) && Enabled(q, e) && !e.EndCycle?
    ensures Running(p, events + [e], Step(q, e))
  {
    UndisturbedLonger(events, e);
    hide Undisturbed, Ensured, Refuses;
    if e.Ask? {
      LearnKeepsChildren(q.run.value.memory, e.unit, e.group);
    }
  }

  lemma {:induction false} RunningRun(p: Provider, before: seq<Event>, q: Provider, events: seq<Event>)
    requires Running(p, before, q) && Legal(q, events) && forall i :: 0 <= i < |events| ==> !events[i].EndCycle?
    ensures Running(p, before + events, Exec(q, events))
    decreases |events|
  {
    hide Running, Step, Enabled;
    if |events| == 0 {
      assert before + events == before;
    } else {
      RunningStep(p, before, q, events[0]);
      RunningRun(p, before + [events[0]], Step(q, events[0]), events[1..]);
      assert before + [events[0]] + events[1..] == before + events;
    }
  }

  /** A cycle is committed exactly when nothing disturbed it: its children, those it
      began with and those it found, are then kept, and otherwise only those it began
      with are. */
  lemma CommittedIffUndisturbed(p: Provider, events: seq<Event>, unit: uint8)
    requires Enabled(p, BeginCycle) && Legal(Step(p, BeginCycle), events)
    requires forall i :: 0 <= i < |events| ==> !events[i].EndCycle?
    ensures var q := Exec(Step(p, BeginCycle), events);
      && Enabled(q, EndCycle)
      && (Undisturbed(events) ==> Step(q, EndCycle).kept == q.run.value.memory)
      && (unit in Step(q, EndCycle).kept.children <==>
          unit in p.kept.children || (Undisturbed(events) && Ensured(events, unit)))
  {
    hide Memory.Child, Memory.Learn, Memory.CarriedBy, Memory.UnknownTo, Memory.RefusedBy;
    RunningRun(p, [], Step(p, BeginCycle), events);
    assert [] + events == events;
  }

  // ---- one child's cycle ---------------------------------------------------------------------------------

  /** monitorChild: the planned groups in order, without the refused ones, until
      a read fails or the cycle stops. */
  function Monitor(p: Provider, unit: uint8, plan: seq<Group>, replies: seq<ReadStatus>): (q: Provider)
    requires p.run.Some? && !p.run.value.failed && unit in p.run.value.memory.children && |replies| >= |plan|
    ensures q.run.Some? && unit in q.run.value.memory.children
    decreases |plan|
  {
    if |plan| == 0 then p
    else if plan[0] in p.run.value.memory.children[unit] then Monitor(p, unit, plan[1..], replies)
    else
      var q := Step(p, Ask(unit, plan[0], replies[0]));
      if replies[0].Stopped? || replies[0].Failed? then q else Monitor(q, unit, plan[1..], replies[1..])
  }

  lemma {:induction false} MonitorPreserves(p: Provider, unit: uint8, plan: seq<Group>, replies: seq<ReadStatus>)
    requires Inv(p)
    requires p.run.Some? && !p.run.value.failed && unit in p.run.value.memory.children && |replies| >= |plan|
    ensures Inv(Monitor(p, unit, plan, replies))
    decreases |plan|
  {
    hide Inv;
    if |plan| > 0 {
      if plan[0] in p.run.value.memory.children[unit] {
        MonitorPreserves(p, unit, plan[1..], replies);
      } else {
        StepPreserves(p, Ask(unit, plan[0], replies[0]));
        if !replies[0].Stopped? && !replies[0].Failed? {
          MonitorPreserves(Step(p, Ask(unit, plan[0], replies[0])), unit, plan[1..], replies[1..]);
        }
      }
    }
  }

  /** Without a failed or stopped read, every planned group that was not refused
      before is asked for. */
  lemma {:induction false} MonitorCoversPlan(p: Provider, unit: uint8, plan: seq<Group>, replies: seq<ReadStatus>, k: nat)
    requires Inv(p) && k < |plan|
    requires p.run.Some? && !p.run.value.failed && unit in p.run.value.memory.children && |replies| >= |plan|
    requires forall i :: 0 <= i < |replies| ==> replies[i].Answered? || replies[i].Exception?
    ensures plan[k] in p.run.value.memory.children[unit] ||
      AskedSince(Monitor(p, unit, plan, replies).log, |p.log|, unit, plan[k])
    decreases |plan|
  {
    hide Inv, SilentAfterRefusal, Refuses;
    if plan[0] in p.run.value.memory.children[unit] {
      if k > 0 {
        MonitorCoversPlan(p, unit, plan[1..], replies, k - 1);
      }
    } else {
      var q := Step(p, Ask(unit, plan[0], replies[0]));
      StepPreserves(p, Ask(unit, plan[0], replies[0]));
      MonitorLogGrows(q, unit, plan[1..], replies[1..]);
      assert Monitor(q, unit, plan[1..], replies[1..]).log[|p.log|] == q.log[|p.log|] == Asked(unit, plan[0], replies[0]);
      if k > 0 {
        MonitorCoversPlan(q, unit, plan[1..], replies[1..], k - 1);
      }
    }
  }

  /** Some request from position n on asks for the group at the unit. */
  predicate AskedSince(log: seq<Entry>, n: nat, unit: uint8, group: Group) {
    exists i :: n <= i < |log| && log[i].unit == unit && log[i].group == group
  }

  lemma {:induction false} MonitorLogGrows(p: Provider, unit: uint8, plan: seq<Group>, replies: seq<ReadStatus>)
    requires p.run.Some? && !p.run.value.failed && unit in p.run.value.memory.children && |replies| >= |plan|
    ensures p.log <= Monitor(p, unit, plan, replies).log
    decreases |plan|
  {
    if |plan| > 0 {
      if plan[0] in p.run.value.memory.children[unit] {
        MonitorLogGrows(p, unit, plan[1..], replies);
      } else {
        var q := Step(p, Ask(unit, plan[0], replies[0]));
        assert p.log <= q.log;
        if !replies[0].Stopped? && !replies[0].Failed? {
          MonitorLogGrows(q, unit, plan[1..], replies[1..]);
        }
      }
    }
  }

  /** The requests of one monitoring are answered in order, and a failed or stopped
      read is the last. */
  lemma {:induction false} MonitorEndsAtFailure(p: Provider, unit: uint8, plan: seq<Group>, replies: seq<ReadStatus>)
    requires p.run.Some? && !p.run.value.failed && unit in p.run.value.memory.children && |replies| >= |plan|
    ensures var asked := Monitor(p, unit, plan, replies).log;
      && |p.log| <= |asked| <= |p.log| + |plan| && asked[..|p.log|] == p.log
      && forall i :: |p.log| <= i < |asked| ==>
          && asked[i].unit == unit && asked[i].group in plan && asked[i].status == replies[i - |p.log|]
          && (i < |asked| - 1 ==> asked[i].status.Answered? || asked[i].status.Exception?)
    decreases |plan|
  {
    hide Refuses, Memory.Learn;
    if |plan| > 0 {
      if plan[0] in p.run.value.memory.children[unit] {
        MonitorEndsAtFailure(p, unit, plan[1..], replies);
      } else {
        LearnKeepsChildren(p.run.value.memory, unit, plan[0]);
        var q := Step(p, Ask(unit, plan[0], replies[0]));
        if !replies[0].Stopped? && !replies[0].Failed? {
          MonitorEndsAtFailure(q, unit, plan[1..], replies[1..]);
          var asked := Monitor(q, unit, plan[1..], replies[1..]).log;
          assert asked[..|q.log|][..|p.log|] == p.log && asked[|p.log|] == q.log[|p.log|];
        }
      }
    }
  }

  /** In every reachable state, monitoring a child without a failed or stopped read
      leaves out exactly the planned groups that an earlier request was answered
      with exception 3 for. */
  lemma MonitorSkipsExactlyTheRefused(events: seq<Event>, unit: uint8, plan: seq<Group>, replies: seq<ReadStatus>, k: nat)
    requires Legal(NewProvider, events) && k < |plan| <= |replies|
    requires forall i :: 0 <= i < |replies| ==> replies[i].Answered? || replies[i].Exception?
    ensures var p := Exec(NewProvider, events);
      p.run.Some? && !p.run.value.failed && unit in p.run.value.memory.children ==>
        (AskedSince(Monitor(p, unit, plan, replies).log, |p.log|, unit, plan[k]) <==>
          !exists i :: 0 <= i < |p.log| && RefusalReply(p.log[i], unit, plan[k]))
  {
    hide Inv, Step, Enabled;
    NewProviderInv();
    RunPreserves(NewProvider, events);
    SkippedIffRefused(events, unit, plan[k]);
    var p := Exec(NewProvider, events);
    if p.run.Some? && !p.run.value.failed && unit in p.run.value.memory.children {
      MonitorCoversPlan(p, unit, plan, replies, k);
      MonitorPreserves(p, unit, plan, replies);
      MonitorLogGrows(p, unit, plan, replies);
      var q := Monitor(p, unit, plan, replies);
      assert SilentAfterRefusal(q.log) by { InvIsSilent(q); }
      if i :| 0 <= i < |p.log| && RefusalReply(p.log[i], unit, plan[k]) {
        assert q.log[i] == p.log[i] && Refuses(q.log[i].status);
      }
    }
  }

  lemma InvIsSilent(p: Provider)
    requires Inv(p)
    ensures SilentAfterRefusal(p.log)
  {
  }
}
