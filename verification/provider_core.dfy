/** huaweiProviderCore and its state as the objects the source mutates: a cycle
    works on a deep clone, which is committed or discarded with its refusals
    carried over. Each method takes exactly one step of the provider machine. */
module ProviderCore {
  import opened Foundation
  import opened ProviderRefusals

  /** The refusal part of huaweiChildState. */
  class ChildState {
    const unit: uint8
    var refused: set<Group>

    constructor (unit: uint8, refused: set<Group>)
      ensures this.unit == unit && this.refused == refused
    {
      this.unit := unit;
      this.refused := refused;
    }

    /** Every group of a discarded child, added in place. */
    method AddAll(groups: set<Group>)
      modifies this`refused
      ensures refused == old(refused) + groups
    {
      var rest := groups;
      while rest != {}
        invariant rest <= groups && refused == old(refused) + (groups - rest)
        decreases |rest|
      {
        var group :| group in rest;
        refused := refused + {group};
        rest := rest - {group};
      }
    }

    method Clone() returns (copy: ChildState)
      ensures fresh(copy) && copy.unit == unit && copy.refused == refused
    {
      copy := new ChildState(unit, refused);
    }
  }

  class ProviderState {
    var children: map<uint8, ChildState>
    var carriedRefusals: map<uint8, set<Group>>

    ghost function View(): Memory
      reads this, children.Values
    {
      Memory(map unit | unit in children :: children[unit].refused, carriedRefusals)
    }

    ghost function Repr(): set<object>
      reads this
    {
      {this} + (set unit | unit in children :: children[unit] as object)
    }

    /** Children are separate objects filed under their own unit. */
    ghost predicate Valid()
      reads this, children.Values
    {
      && (forall unit :: unit in children ==> children[unit].unit == unit)
      && (forall unit :: unit in carriedRefusals ==> unit !in children)
    }

    constructor ()
      ensures Valid() && children == map[] && carriedRefusals == map[] && fresh(Repr())
    {
      children, carriedRefusals := map[], map[];
    }

    /** clone: the copy shares no child with the original. */
    method Clone() returns (copy: ProviderState)
      requires Valid()
      ensures fresh(copy.Repr()) && copy.Valid() && copy.View() == View()
    {
      copy := new ProviderState();
      copy.carriedRefusals := carriedRefusals;
      var rest := children.Keys;
      while rest != {}
        invariant rest <= children.Keys
        invariant fresh(copy) && copy != this && copy.carriedRefusals == carriedRefusals
        invariant copy.children.Keys == children.Keys - rest
        invariant forall unit :: unit in copy.children ==>
          fresh(copy.children[unit]) && copy.children[unit].unit == unit && copy.children[unit].refused == children[unit].refused
        decreases |rest|
      {
        var unit :| unit in rest;
        var child := children[unit].Clone();
        copy.children := copy.children[unit := child];
        rest := rest - {unit};
      }
      assert copy.View().children == View().children;
    }

    /** child: finds or creates a child; a new one takes over its carried refusals. */
    method Child(unit: uint8) returns (child: ChildState)
      requires Valid()
      modifies this
      ensures Valid() && View() == old(View()).Child(unit)
      ensures unit in children && child == children[unit] && fresh(Repr() - old(Repr()))
    {
      if unit in children {
        return children[unit];
      }
      child := new ChildState(unit, if unit in carriedRefusals then carriedRefusals[unit] else {});
      carriedRefusals := carriedRefusals - {unit};
      children := children[unit := child];
    }

    /** The child's refusal set, updated in place. */
    method Learn(unit: uint8, group: Group)
      requires Valid() && unit in children
      modifies children[unit]
      ensures Valid() && View() == old(View()).Learn(unit, group)
    {
      children[unit].refused := children[unit].refused + {group};
      assert forall u :: u in children && u != unit ==> children[u].unit != unit;
    }

    /** Refusals of a unit the state has no child for. */
    method CarryFor(unit: uint8, groups: set<Group>)
      modifies this`carriedRefusals
      ensures CarriedWith(old(carriedRefusals), carriedRefusals, unit, groups)
    {
      hide CarriedWith;
      var rest := groups;
      CarriedWithNothing(carriedRefusals, unit);
      assert groups - rest == {};
      while rest != {}
        invariant rest <= groups && CarriedWith(old(carriedRefusals), carriedRefusals, unit, groups - rest)
        decreases |rest|
      {
        var group :| group in rest;
        CarriedStep(old(carriedRefusals), carriedRefusals, unit, groups - rest, group);
        if unit !in carriedRefusals {
          carriedRefusals := carriedRefusals[unit := {}];
        }
        carriedRefusals := carriedRefusals[unit := carriedRefusals[unit] + {group}];
        assert groups - (rest - {group}) == groups - rest + {group};
        rest := rest - {group};
      }
      assert groups - rest == groups;
    }

    /** The refusals of one child of a discarded state. */
    method CarryChild(unit: uint8, groups: set<Group>)
      requires Valid()
      modifies this`carriedRefusals, (if unit in children then {children[unit]} else {})
      ensures Valid()
      ensures unit in children ==> children[unit].refused == old(children[unit].refused) + groups
      ensures CarriedWith(old(carriedRefusals), carriedRefusals, unit, if unit in children then {} else groups)
    {
      hide CarriedWith;
      CarriedWithNothing(carriedRefusals, unit);
      if unit in children {
        children[unit].AddAll(groups);
      } else {
        CarryFor(unit, groups);
        CarriedKeys(old(carriedRefusals), carriedRefusals, unit, groups);
      }
    }

    /** The children and what they refused, unit by unit. */
    ghost predicate Refused(was: Memory, other: Memory, rest: set<uint8>)
      reads this, children.Values
    {
      forall u :: u in children ==>
        u in was.children && children[u].refused == Joined(was, other, rest, u)
    }

    /** carryRefusals. */
    method Carry(from: ProviderState)
      requires Valid() && from.Valid() && Repr() !! from.Repr()
      modifies this`carriedRefusals, children.Values
      ensures Valid() && View() == old(View()).Carry(old(from.View()))
    {
      hide View, Memory.Carry, Valid, CarryInProgress, Repr;
      ghost var was, other := View(), from.View();
      CarryReady(from, was, other);
      var rest := from.children.Keys;
      while rest != {}
        invariant rest <= from.children.Keys && CarryInProgress(from, was, other, rest)
        invariant children == old(children)
        decreases |rest|
      {
        var unit :| unit in rest;
        CarryUnit(from, unit, was, other, rest);
        rest := rest - {unit};
      }
      CarryDone(from, was, other);
    }

    /** What the loop keeps: the units outside rest have been carried. */
    ghost predicate CarryInProgress(from: ProviderState, was: Memory, other: Memory, rest: set<uint8>)
      reads this, children.Values, from, from.children.Values
    {
      && Valid() && was.Valid() && children.Keys == was.children.Keys && from.children.Keys == other.children.Keys
      && (forall u, v :: u in children && v in from.children ==> children[u] != from.children[v])
      && (forall u :: u in from.children ==> from.children[u].refused == other.children[u])
      && Refused(was, other, rest) && CarriedSoFar(was, other, rest, carriedRefusals)
    }

    lemma ViewShape()
      ensures View().children.Keys == children.Keys && View().carried == carriedRefusals
      ensures forall u :: u in children ==> View().children[u] == children[u].refused
      ensures Valid() ==> View().Valid()
    {
    }

    lemma CarryReady(from: ProviderState, was: Memory, other: Memory)
      requires Valid() && Repr() !! from.Repr() && was == View() && other == from.View()
      ensures CarryInProgress(from, was, other, from.children.Keys)
    {
      hide CarriedSoFar;
      ViewShape();
      from.ViewShape();
      Separate(from);
      CarriedAtFirst(was, other);
    }

    lemma CarryDone(from: ProviderState, was: Memory, other: Memory)
      requires CarryInProgress(from, was, other, {})
      ensures Valid() && View() == was.Carry(other)
    {
      hide CarriedSoFar;
      ViewShape();
      CarriedAll(was, other, View());
    }

    /** One child of the discarded state. */
    method CarryUnit(from: ProviderState, unit: uint8, ghost was: Memory, ghost other: Memory, ghost rest: set<uint8>)
      requires CarryInProgress(from, was, other, rest) && unit in rest && rest <= from.children.Keys
      modifies this`carriedRefusals, children.Values
      ensures CarryInProgress(from, was, other, rest - {unit})
    {
      hide CarriedWith, CarriedSoFar, Memory.Carry;
      assert forall u :: u in children && u != unit ==> children[u].unit == u;
      CarryChild(unit, from.children[unit].refused);
      CarriedMore(was, other, rest, unit, old(carriedRefusals), carriedRefusals);
    }

    lemma Separate(from: ProviderState)
      requires Repr() !! from.Repr()
      ensures forall u, v :: u in children && v in from.children ==> children[u] != from.children[v]
    {
      forall u, v | u in children && v in from.children
        ensures children[u] != from.children[v]
      {
        assert children[u] as object in Repr() && from.children[v] as object in from.Repr();
      }
    }
  }

  /** What a child has been refused once the units outside rest were carried. */
  function Joined(was: Memory, other: Memory, rest: set<uint8>, unit: uint8): Groups
    requires unit in was.children
  {
    if unit in rest then was.children[unit] else was.children[unit] + other.RefusedBy(unit)
  }

  /** groups joined to what is carried for one unit. */
  predicate CarriedWith(before: map<uint8, Groups>, after: map<uint8, Groups>, unit: uint8, groups: Groups) {
    && after.Keys == before.Keys + (if groups == {} then {} else {unit})
    && forall u :: u in after ==> after[u] == (if u in before then before[u] else {}) + if u == unit then groups else {}
  }

  lemma CarriedWithNothing(carried: map<uint8, Groups>, unit: uint8)
    ensures CarriedWith(carried, carried, unit, {})
  {
  }

  lemma CarriedStep(before: map<uint8, Groups>, now: map<uint8, Groups>, unit: uint8, done: Groups, group: Group)
    requires CarriedWith(before, now, unit, done)
    ensures unit in now ==> CarriedWith(before, now[unit := now[unit] + {group}], unit, done + {group})
    ensures unit !in now ==> CarriedWith(before, now[unit := {}][unit := {} + {group}], unit, done + {group})
  {
  }

  lemma CarriedKeys(before: map<uint8, Groups>, after: map<uint8, Groups>, unit: uint8, groups: Groups)
    requires CarriedWith(before, after, unit, groups)
    ensures after.Keys <= before.Keys + {unit}
  {
  }

  /** What is carried once the units outside rest were processed. */
  predicate CarriedSoFar(was: Memory, other: Memory, rest: set<uint8>, carried: map<uint8, Groups>) {
    && carried.Keys == was.carried.Keys + (was.UnknownTo(other) - rest)
    && forall u :: u in carried ==>
        carried[u] == was.CarriedBy(u) + if u in was.children || u in rest then {} else other.RefusedBy(u)
  }

  lemma CarriedAtFirst(was: Memory, other: Memory)
    ensures CarriedSoFar(was, other, other.children.Keys, was.carried)
  {
  }

  lemma CarriedMore(was: Memory, other: Memory, rest: set<uint8>, unit: uint8, before: map<uint8, Groups>, after: map<uint8, Groups>)
    requires was.Valid() && unit in rest && rest <= other.children.Keys && CarriedSoFar(was, other, rest, before)
    requires CarriedWith(before, after, unit, if unit in was.children then {} else other.children[unit])
    ensures CarriedSoFar(was, other, rest - {unit}, after)
  {
  }

  lemma CarriedAll(was: Memory, other: Memory, now: Memory)
    requires now.children.Keys == was.children.Keys
    requires forall u :: u in was.children ==> now.children[u] == was.children[u] + other.RefusedBy(u)
    requires CarriedSoFar(was, other, {}, now.carried)
    ensures now == was.Carry(other)
  {
    assert now.children == was.Carry(other).children;
    assert now.carried == was.Carry(other).carried;
  }

  /** The part of huaweiCycleRun a cycle works on. */
  class CycleRun {
    const generation: nat
    const state: ProviderState
    var failed: bool

    constructor (generation: nat, state: ProviderState)
      ensures this.generation == generation && this.state == state && !failed
    {
      this.generation, this.state, failed := generation, state, false;
    }

    ghost function View(): Run
      reads this, state, state.children.Values
    {
      Run(state.View(), generation, failed)
    }

    /** What a read leaves in the cycle: a refusal on the child, and the stop. */
    method Record(unit: uint8, group: Group, status: ReadStatus)
      requires state.Valid() && unit in state.children
      modifies this, state.children[unit]
      ensures state.Valid() && failed == status.Stopped?
      ensures View() == Run(
        if status == Exception(3) || status == Stopped(Some(3)) then old(state.View()).Learn(unit, group) else old(state.View()),
        generation, status.Stopped?)
    {
      hide Memory.Learn;
      if Refuses(status) {
        state.Learn(unit, group);
      }
      failed := status.Stopped?;
    }
  }

  /** huaweiProviderCore: connection life cycle, and one cycle at a time. */
  class HuaweiProvider {
    var state: ProviderState
    var run: CycleRun?
    var generation: nat
    var started: bool
    var closing: bool
    var closed: bool
    ghost var log: seq<Entry>

    ghost function Repr(): set<object>
      reads this, state, if run == null then {} else {run, run.state}
    {
      {this} + state.Repr() + if run == null then {} else {run as object} + run.state.Repr()
    }

    ghost function View(): Provider
      reads this, state, state.children.Values,
            if run == null then {} else {run, run.state} + (set c | c in run.state.children.Values :: c as object)
    {
      Provider(state.View(), if run == null then None else Some(run.View()), generation, started, closing, closed, log)
    }

    /** The running cycle shares nothing with the committed state. */
    ghost predicate Valid()
      reads this, state, state.children.Values,
            if run == null then {} else {run, run.state} + (set c | c in run.state.children.Values :: c as object)
    {
      && state.Valid()
      && (run != null ==> run.state.Valid() && run.state.Repr() !! state.Repr())
      && Inv(View())
    }

    constructor ()
      ensures Valid() && View() == NewProvider && fresh(Repr())
    {
      state := new ProviderState();
      run, generation, started, closing, closed, log := null, 0, false, false, false, [];
      new;
      assert state.View() == Memory(map[], map[]);
      NewProviderInv();
    }

    // ---- connection life cycle ---------------------------------------------------------------

    method Start() returns (ok: bool)
      requires Valid()
      modifies this
      ensures Valid() && (ok <==> Enabled(old(View()), Event.Start))
      ensures View() == if ok then Step(old(View()), Event.Start) else old(View())
    {
      hide Inv;
      if closed || closing || started {
        return false;
      }
      StepPreserves(View(), Event.Start);
      started, generation := true, generation + 1;
      return true;
    }

    /** The first section of stop; the session is closed outside the lock. */
    method Stop() returns (ok: bool)
      requires Valid()
      modifies this
      ensures Valid() && (ok <==> Enabled(old(View()), Event.Stop))
      ensures View() == if ok then Step(old(View()), Event.Stop) else old(View())
    {
      hide Inv;
      if closed || closing || !started {
        return false;
      }
      StepPreserves(View(), Event.Stop);
      started, closing, generation := false, true, generation + 1;
      return true;
    }

    /** The first section of reconnect. */
    method Reconnect() returns (ok: bool)
      requires Valid()
      modifies this
      ensures Valid() && (ok <==> Enabled(old(View()), Event.Reconnect))
      ensures View() == if ok then Step(old(View()), Event.Reconnect) else old(View())
    {
      hide Inv;
      if closed || closing {
        return false;
      }
      StepPreserves(View(), Event.Reconnect);
      if started {
        started, generation := false, generation + 1;
      }
      closing := true;
      return true;
    }

    /** The second section of reconnect: binds unless closed or started meanwhile. */
    method Rebind() returns (ok: bool)
      requires Valid() && closing
      modifies this
      ensures Valid() && (ok <==> Enabled(old(View()), Event.Rebind))
      ensures View() == Step(old(View()), if ok then Event.Rebind else SessionClosed)
    {
      hide Inv;
      ok := !closed && !started;
      StepPreserves(View(), if ok then Event.Rebind else SessionClosed);
      closing := false;
      if ok {
        started, generation := true, generation + 1;
      }
    }

    method Close() returns (ok: bool)
      requires Valid()
      modifies this
      ensures Valid() && (ok <==> Enabled(old(View()), Event.Close))
      ensures View() == if ok then Step(old(View()), Event.Close) else old(View())
    {
      hide Inv;
      if closed {
        return false;
      }
      StepPreserves(View(), Event.Close);
      closed, started, generation := true, false, generation + 1;
      return true;
    }

    // ---- one cycle --------------------------------------------------------------------------------

    /** The first section of refresh, once the interval has passed. */
    method BeginRefresh() returns (ok: bool)
      requires Valid()
      modifies this
      ensures Valid() && (ok <==> Enabled(old(View()), BeginCycle))
      ensures View() == if ok then Step(old(View()), BeginCycle) else old(View())
    {
      hide Inv, ProviderState.View, ProviderState.Valid;
      if closed || run != null || !started {
        return false;
      }
      StepPreserves(View(), BeginCycle);
      var copy := state.Clone();
      run := new CycleRun(generation, copy);
      return true;
    }

    /** A runner asking for the state of a child. */
    method EnsureChild(unit: uint8)
      requires Valid() && run != null
      modifies run.state
      ensures Valid() && View() == Step(old(View()), Event.EnsureChild(unit))
    {
      hide Inv, Memory.Child, ProviderState.View, ProviderState.Valid;
      StepPreserves(View(), Event.EnsureChild(unit));
      var child := run.state.Child(unit);
    }

    /** One read of monitorChild and what it records. */
    method ReadGroup(unit: uint8, group: Group, status: ReadStatus)
      requires Valid() && Enabled(View(), Ask(unit, group, status))
      modifies this`log, run, run.state.children.Values
      ensures Valid() && View() == Step(old(View()), Ask(unit, group, status))
      ensures run.state.children == old(run.state.children) && run.failed == status.Stopped?
    {
      hide Inv, Memory.Learn, ProviderState.Valid, ProviderState.View;
      StepPreserves(View(), Ask(unit, group, status));
      ReadableChild(unit);
      state.Separate(run.state);
      run.Record(unit, group, status);
      log := log + [Asked(unit, group, status)];
    }

    lemma ReadableChild(unit: uint8)
      requires Valid() && run != null
      ensures unit in View().run.value.memory.children <==> unit in run.state.children
    {
      hide Inv;
    }

    /** monitorChild: the loop over the plan of one child. */
    method MonitorChild(unit: uint8, plan: seq<Group>, replies: seq<ReadStatus>)
      requires Valid() && run != null && !run.failed && unit in run.state.children && |replies| >= |plan|
      modifies this`log, run, run.state.children.Values
      ensures Valid() && View() == Monitor(old(View()), unit, plan, replies)
    {
      hide Inv, Step;
      var asked := 0;
      for k := 0 to |plan|
        invariant Valid() && !run.failed && unit in run.state.children && asked <= k
        invariant run.state.children == old(run.state.children)
        invariant Monitor(old(View()), unit, plan, replies) == Monitor(View(), unit, plan[k..], replies[asked..])
      {
        assert plan[k..][0] == plan[k] && plan[k..][1..] == plan[k + 1..];
        if plan[k] in run.state.children[unit].refused {
          continue;
        }
        assert replies[asked..][0] == replies[asked] && replies[asked..][1..] == replies[asked + 1..];
        ReadGroup(unit, plan[k], replies[asked]);
        if replies[asked].Stopped? || replies[asked].Failed? {
          return;
        }
        asked := asked + 1;
      }
    }

    /** The last section of refresh: commit, or discard and carry the refusals. */
    method EndRefresh()
      requires Valid() && run != null
      modifies this, state, state.children.Values
      ensures Valid() && View() == Step(old(View()), EndCycle)
    {
      hide Inv, Memory.Carry, ProviderState.Valid, ProviderState.View, ProviderState.Repr;
      StepPreserves(View(), EndCycle);
      var ended := run;
      run := null;
      if closed {
        return;
      }
      if generation != ended.generation || ended.failed {
        state.Carry(ended.state);
        return;
      }
      state := ended.state;
    }
  }
}
