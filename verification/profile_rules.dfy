/** Two structural checks of a profile: scale dependencies form no cycle, and the
    dependencies of a single-wire profile fit one physical read. */
module ProfileRules {
  import opened Foundation

  // ---- scale-dependency cycles ------------------------------------------------------------

  /** The dependency n edges after x, if the walk gets that far. */
  function Walk(edges: map<string, string>, x: string, n: nat): Option<string>
    decreases n
  {
    if n == 0 then Some(x)
    else if x in edges then Walk(edges, edges[x], n - 1)
    else None
  }

  predicate Returns(edges: map<string, string>, x: string, n: nat) {
    n > 0 && Walk(edges, x, n) == Some(x)
  }

  /** Some dependency leads back to itself. */
  ghost predicate HasCycle(edges: map<string, string>) {
    exists x, n: nat :: Returns(edges, x, n)
  }

  predicate EndsBy(edges: map<string, string>, x: string, n: nat) {
    Walk(edges, x, n).None?
  }

  /** The walk from x ends. */
  ghost predicate Ends(edges: map<string, string>, x: string) {
    exists n: nat :: EndsBy(edges, x, n)
  }

  lemma {:induction false} WalkSplits(edges: map<string, string>, x: string, m: nat, n: nat)
    requires Walk(edges, x, m).Some?
    ensures Walk(edges, x, m + n) == Walk(edges, Walk(edges, x, m).value, n)
    decreases m
  {
    if m > 0 {
      WalkSplits(edges, edges[x], m - 1, n);
    }
  }

  lemma {:induction false} EndedStaysEnded(edges: map<string, string>, x: string, m: nat, n: nat)
    requires EndsBy(edges, x, m) && m <= n
    ensures EndsBy(edges, x, n)
    decreases m
  {
    if x in edges && m > 0 {
      EndedStaysEnded(edges, edges[x], m - 1, n - 1);
    }
  }

  lemma {:induction false} ReturnsAgain(edges: map<string, string>, x: string, n: nat, rounds: nat)
    requires Returns(edges, x, n)
    ensures Walk(edges, x, n * rounds) == Some(x)
  {
    if rounds > 0 {
      ReturnsAgain(edges, x, n, rounds - 1);
      assert n * rounds == n * (rounds - 1) + n;
      WalkSplits(edges, x, n * (rounds - 1), n);
    }
  }

  /** A walk that ends is not on a cycle. */
  lemma EndingIsAcyclic(edges: map<string, string>, x: string, n: nat)
    requires Ends(edges, x)
    ensures !Returns(edges, x, n)
  {
    if Returns(edges, x, n) {
      var m: nat :| EndsBy(edges, x, m);
      ReturnsAgain(edges, x, n, m);
      assert n * m >= m;
      EndedStaysEnded(edges, x, m, n * m);
    }
  }

  /** A chain of dependencies, each the successor of the one before. */
  predicate Chain(edges: map<string, string>, path: seq<string>) {
    forall i :: 0 <= i < |path| - 1 ==> path[i] in edges && edges[path[i]] == path[i + 1]
  }

  lemma {:induction false} ChainWalk(edges: map<string, string>, path: seq<string>, i: nat, j: nat)
    requires Chain(edges, path) && i <= j < |path|
    ensures Walk(edges, path[i], j - i) == Some(path[j])
    decreases j - i
  {
    if i < j {
      ChainWalk(edges, path, i + 1, j);
    }
  }

  /** A chain that comes back to one of its members closes a cycle. */
  lemma ChainCloses(edges: map<string, string>, path: seq<string>, id: string)
    requires Chain(edges, path) && |path| > 0 && path[|path| - 1] in edges && edges[path[|path| - 1]] == id && id in path
    ensures HasCycle(edges)
  {
    var i: nat :| i < |path| && path[i] == id;
    ChainWalk(edges, path, i, |path| - 1);
    WalkSplits(edges, id, |path| - 1 - i, 1);
    assert Walk(edges, path[|path| - 1], 1) == Some(id);
    assert Returns(edges, id, |path| - i);
  }

  lemma EndsAfter(edges: map<string, string>, x: string)
    requires x in edges ==> Ends(edges, edges[x])
    ensures Ends(edges, x)
  {
    if x in edges {
      var n: nat :| EndsBy(edges, edges[x], n);
      assert EndsBy(edges, x, n + 1);
    } else {
      assert EndsBy(edges, x, 1);
    }
  }

  datatype Mark = Visiting | Visited

  /** The depth-first search with its shared map of marks. */
  class CycleSearch {
    const edges: map<string, string>
    var states: map<string, Mark>

    function Nodes(): set<string> {
      edges.Keys + edges.Values
    }

    /** Exactly the nodes of path are being visited; finished nodes end. */
    ghost predicate Valid(path: seq<string>)
      reads this
    {
      && states.Keys <= Nodes()
      && (forall x :: x in states && states[x].Visiting? <==> x in path)
      && (forall x :: x in states && states[x].Visited? ==> Ends(edges, x))
      && Chain(edges, path)
    }

    constructor (edges: map<string, string>)
      ensures this.edges == edges && Valid([])
    {
      this.edges := edges;
      states := map[];
    }

    method Visit(id: string, ghost path: seq<string>) returns (cyclic: bool)
      requires Valid(path) && id in Nodes()
      requires |path| > 0 ==> path[|path| - 1] in edges && edges[path[|path| - 1]] == id
      modifies this
      ensures cyclic ==> HasCycle(edges)
      ensures !cyclic ==> Valid(path) && Ends(edges, id)
      decreases Nodes() - states.Keys
    {
      hide Ends, HasCycle;
      if id in states {
        if states[id].Visiting? {
          ChainCloses(edges, path, id);
          return true;
        }
        return false;
      }
      ghost var longer := path + [id];
      states := states[id := Visiting];
      assert forall x :: x in longer <==> x in path || x == id;
      assert id in old(Nodes() - states.Keys) && id !in Nodes() - states.Keys;
      if id in edges {
        assert edges[id] in edges.Values;
        cyclic := Visit(edges[id], longer);
        if cyclic {
          return;
        }
      }
      EndsAfter(edges, id);
      assert id in longer && (forall x :: x in longer <==> x in path || x == id);
      states := states[id := Visited];
      return false;
    }
  }

  /** hasDependencyCycle: true exactly when the graph has a cycle, in whatever
      order the edges are enumerated; false also means every walk ends. */
  method HasDependencyCycle(edges: map<string, string>) returns (cyclic: bool)
    ensures cyclic <==> HasCycle(edges)
    ensures !cyclic ==> forall x :: Ends(edges, x)
  {
    hide Ends, HasCycle;
    var search := new CycleSearch(edges);
    var rest := edges.Keys;
    while rest != {}
      invariant rest <= edges.Keys && fresh(search) && search.Valid([]) && search.edges == edges
      invariant forall x :: x in edges && x !in rest ==> Ends(edges, x)
      decreases |rest|
    {
      var id :| id in rest;
      cyclic := search.Visit(id, []);
      if cyclic {
        CycleNeverEnds(edges);
        return;
      }
      rest := rest - {id};
    }
    forall x
      ensures Ends(edges, x)
    {
      if x !in edges {
        EndsAfter(edges, x);
      }
    }
    CycleNeverEnds(edges);
    cyclic := false;
  }

  lemma CycleNeverEnds(edges: map<string, string>)
    ensures HasCycle(edges) ==> exists x :: !Ends(edges, x)
  {
    if HasCycle(edges) {
      var x, n: nat :| Returns(edges, x, n);
      if Ends(edges, x) {
        EndingIsAcyclic(edges, x, n);
      }
    }
  }

  // ---- one physical read -----------------------------------------------------------------------

  const MAX_READ_REGISTERS: int := 125

  datatype Table = HoldingRegisters | InputRegisters | OtherTable(name: string)

  datatype Extent = Extent(table: Table, offset: uint16, wordCount: uint16)
  {
    function End(): int { offset + wordCount }
  }

  /** Two dependencies that one read can serve. */
  predicate ShareRead(a: Extent, b: Extent) {
    a.table == b.table && a.End() - b.offset <= MAX_READ_REGISTERS && b.End() - a.offset <= MAX_READ_REGISTERS
  }

  predicate Overlap(a: Extent, b: Extent) {
    a.offset < b.End() && b.offset < a.End()
  }

  predicate Bounds(extents: seq<Extent>, minOffset: int, maxEnd: int, maxStart: int, minEnd: int) {
    && (forall e :: e in extents ==> minOffset <= e.offset <= maxStart && minEnd <= e.End() <= maxEnd)
    && (exists e :: e in extents && e.offset == minOffset)
    && (exists e :: e in extents && e.offset == maxStart)
    && (exists e :: e in extents && e.End() == minEnd)
    && (exists e :: e in extents && e.End() == maxEnd)
  }

  function Min(a: int, b: int): int { if a < b then a else b }
  function Max(a: int, b: int): int { if a > b then a else b }

  lemma BoundsExtend(extents: seq<Extent>, minOffset: int, maxEnd: int, maxStart: int, minEnd: int, e: Extent)
    requires Bounds(extents, minOffset, maxEnd, maxStart, minEnd)
    ensures Bounds(extents + [e], Min(e.offset, minOffset), Max(e.End(), maxEnd), Max(e.offset, maxStart), Min(e.End(), minEnd))
  {
    var longer := extents + [e];
    assert longer[|extents|] == e;
    assert forall x :: x in longer <==> x in extents || x == e;
    var a :| a in extents && a.offset == minOffset;
    var b :| b in extents && b.offset == maxStart;
    var c :| c in extents && c.End() == minEnd;
    var d :| d in extents && d.End() == maxEnd;
    assert a in longer && b in longer && c in longer && d in longer && e in longer;
  }

  /** The four running bounds decide the pairwise relations. */
  lemma BoundsDecide(extents: seq<Extent>, minOffset: int, maxEnd: int, maxStart: int, minEnd: int)
    requires Bounds(extents, minOffset, maxEnd, maxStart, minEnd)
    ensures maxEnd - minOffset <= MAX_READ_REGISTERS <==>
      forall a, b :: a in extents && b in extents ==> a.End() - b.offset <= MAX_READ_REGISTERS
    ensures maxStart < minEnd <==> forall a, b :: a in extents && b in extents ==> a.offset < b.End()
  {
    var a :| a in extents && a.offset == minOffset;
    var b :| b in extents && b.offset == maxStart;
    var c :| c in extents && c.End() == minEnd;
    var d :| d in extents && d.End() == maxEnd;
  }

  predicate OneRead(extents: seq<Extent>) {
    && (forall a, b :: a in extents && b in extents ==> ShareRead(a, b))
    && (|extents| > 1 ==> forall a, b :: a in extents && b in extents ==> Overlap(a, b))
  }

  /** validateSingleWireDependencies accepts exactly the dependencies that one
      read can serve and that all share an address. */
  method ValidateSingleWireDependencies(extents: seq<Extent>) returns (ok: bool)
    ensures ok <==> |extents| > 0 && OneRead(extents)
  {
    hide Bounds;
    if |extents| == 0 {
      return false;
    }
    var first := extents[0];
    var minOffset: int, maxEnd: int, maxStart: int, minEnd: int := first.offset, first.End(), first.offset, first.End();
    FirstBounds(first);
    assert extents[..1] == [first];
    for n := 1 to |extents|
      invariant Bounds(extents[..n], minOffset, maxEnd, maxStart, minEnd)
      invariant forall e :: e in extents[..n] ==> e.table == first.table
    {
      var e := extents[n];
      assert extents[..n + 1] == extents[..n] + [e];
      if e.table != first.table {
        assert first in extents && e in extents && !ShareRead(first, e);
        return false;
      }
      BoundsExtend(extents[..n], minOffset, maxEnd, maxStart, minEnd, e);
      minOffset, maxEnd, maxStart, minEnd := Min(e.offset, minOffset), Max(e.End(), maxEnd), Max(e.offset, maxStart), Min(e.End(), minEnd);
    }
    assert extents[..|extents|] == extents;
    BoundsDecide(extents, minOffset, maxEnd, maxStart, minEnd);
    if maxEnd - minOffset > MAX_READ_REGISTERS {
      return false;
    }
    return !(|extents| > 1 && maxStart >= minEnd);
  }

  lemma FirstBounds(e: Extent)
    ensures Bounds([e], e.offset, e.End(), e.offset, e.End())
  {
    assert e in [e];
  }
}
