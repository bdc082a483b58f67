/** Paginated device inventories: the page and object loops, and that their
    verdict depends on the concatenated objects alone. */
module GatewayInventory {
  import opened Foundation
  import opened InventoryEntries

  const START_OBJECT: uint8 := 0x87
  const MAX_PAGES: int := 248
  const MAX_OBJECTS: int := 248
  const MAX_BYTES: int := 65536
  const MAX_CHILDREN: int := 247

  /** Value bytes are held as characters. */
  datatype Object = Object(objectID: uint8, value: string)

  datatype Page = Page(more: bool, nextObjectID: uint8, objects: seq<Object>)

  datatype Inventory = Inventory(declared: int, children: seq<Child>)

  // ---- what a valid object sequence is -----------------------------------------------------

  /** Object identities count up from the start object and wrap at eight bits. */
  function IdAt(i: nat): uint8 { (START_OBJECT + i) % 256 }

  function Next(id: uint8): uint8 { (id + 1) % 256 }

  lemma IdsDiffer(i: nat, j: nat)
    requires i < j < 256
    ensures IdAt(i) != IdAt(j)
  {
  }

  function Bytes(objects: seq<Object>): nat {
    if |objects| == 0 then 0 else Bytes(objects[..|objects| - 1]) + |objects[|objects| - 1].value| + 2
  }

  /** Where the two inventory dialects differ: the entry grammar, which entry is
      the gateway's own, which may be a child, and what the count object counts. */
  datatype Rules = Rules(dialect: Dialect, isSelf: Child -> bool, isChild: Child -> bool, least: nat, most: nat, countsSelf: bool)

  /** The documentary dialect: the gateway's own entry is told by its model. */
  function DocumentaryRules(selfModel: string -> bool): Rules {
    Rules(Documentary, (c: Child) => selfModel(c.model), (c: Child) => !selfModel(c.model) && c.address != "", 0, MAX_CHILDREN, false)
  }

  /** The observed dialect: the gateway's own entry has the gateway's address and
      is counted. */
  function ObservedRules(gatewayAddress: string): Rules {
    Rules(Observed, (c: Child) => c.address == gatewayAddress, (c: Child) => c.address != "0" && c.address != gatewayAddress,
          1, MAX_OBJECTS, true)
  }

  ghost predicate SelfEntry(rules: Rules, o: Object) {
    exists self :: Parses(rules.dialect, o.objectID, o.value, self) && rules.isSelf(self)
  }

  ghost predicate ChildEntry(rules: Rules, o: Object, child: Child) {
    Parses(rules.dialect, o.objectID, o.value, child) && rules.isChild(child)
  }

  predicate CountObject(rules: Rules, o: Object) {
    |o.value| == 1 && rules.least <= o.value[0] as int <= rules.most
  }

  /** The number of children the count object announces. */
  function Announced(rules: Rules, o: Object): int
    requires |o.value| == 1
  {
    o.value[0] as int - if rules.countsSelf then 1 else 0
  }

  predicate DistinctAddresses(children: seq<Child>) {
    forall i, j :: 0 <= i < j < |children| ==> children[i].address != children[j].address
  }

  /** A prefix the object loop gets through: the count, the gateway's own entry,
      then children with distinct addresses. */
  ghost predicate PrefixAccepted(rules: Rules, objects: seq<Object>, children: seq<Child>) {
    && |objects| <= MAX_OBJECTS + 1
    && (forall i :: 0 <= i < |objects| ==> objects[i].objectID == IdAt(i))
    && Bytes(objects) <= MAX_BYTES
    && (|objects| > 0 ==> CountObject(rules, objects[0]))
    && (|objects| > 1 ==> SelfEntry(rules, objects[1]))
    && |children| == (if |objects| > 2 then |objects| - 2 else 0)
    && (forall k :: 0 <= k < |children| ==> ChildEntry(rules, objects[k + 2], children[k]))
    && DistinctAddresses(children)
  }

  /** The whole inventory: an accepted sequence with as many children as declared. */
  ghost predicate ObjectsAccepted(rules: Rules, objects: seq<Object>, children: seq<Child>) {
    && PrefixAccepted(rules, objects, children)
    && |objects| > 1 && Announced(rules, objects[0]) == |children|
  }

  ghost predicate SomePrefix(rules: Rules, objects: seq<Object>) {
    exists c :: PrefixAccepted(rules, objects, c)
  }

  ghost predicate SomeInventory(rules: Rules, objects: seq<Object>) {
    exists c :: ObjectsAccepted(rules, objects, c)
  }

  /** Accepted object identities are pairwise distinct, though they wrap. */
  lemma IdentitiesAreDistinct(rules: Rules, objects: seq<Object>, children: seq<Child>, i: nat, j: nat)
    requires PrefixAccepted(rules, objects, children) && i < j < |objects|
    ensures objects[i].objectID != objects[j].objectID
  {
    hide IdAt, SelfEntry, ChildEntry, Bytes;
    IdsDiffer(i, j);
  }

  /** An object sequence determines its children. */
  lemma ChildrenAreDetermined(rules: Rules, objects: seq<Object>, a: seq<Child>, b: seq<Child>)
    requires PrefixAccepted(rules, objects, a) && PrefixAccepted(rules, objects, b)
    ensures a == b
  {
    hide Parses;
    forall k | 0 <= k < |a|
      ensures a[k] == b[k]
    {
      assert ChildEntry(rules, objects[k + 2], a[k]) && ChildEntry(rules, objects[k + 2], b[k]);
      ParsesOneChild(rules.dialect, objects[k + 2].objectID, objects[k + 2].value, a[k], b[k]);
    }
  }

  lemma ParsesOneChild(dialect: Dialect, objectID: uint8, value: string, a: Child, b: Child)
    requires Parses(dialect, objectID, value, a) && Parses(dialect, objectID, value, b)
    ensures a == b
  {
    hide AcceptablePairs, ApplyAll, CanonicalUnit;
    var parts := Split(if dialect.Observed? then TrimRight(value) else value, ';');
    var p :| AcceptablePairs(dialect, parts, p) && a == ApplyAll(dialect, objectID, p);
    var q :| AcceptablePairs(dialect, parts, q) && b == ApplyAll(dialect, objectID, q);
    PairsAreUnique(dialect, parts, p, q);
  }

  /** Everything before an accepted object is accepted too. */
  lemma PrefixOfAccepted(rules: Rules, objects: seq<Object>, children: seq<Child>, n: nat)
    requires PrefixAccepted(rules, objects, children) && n <= |objects|
    ensures PrefixAccepted(rules, objects[..n], children[..if n > 2 then n - 2 else 0])
    ensures SomePrefix(rules, objects[..n])
  {
    hide SelfEntry, ChildEntry;
    BytesMonotone(objects, n);
    assert PrefixAccepted(rules, objects[..n], children[..if n > 2 then n - 2 else 0]);
  }

  lemma {:induction false} BytesMonotone(objects: seq<Object>, n: nat)
    requires n <= |objects|
    ensures Bytes(objects[..n]) <= Bytes(objects)
    decreases |objects|
  {
    if n < |objects| {
      BytesMonotone(objects[..|objects| - 1], n);
      assert objects[..|objects| - 1][..n] == objects[..n];
    } else {
      assert objects[..n] == objects;
    }
  }

  // ---- pages -----------------------------------------------------------------------------------

  function Concat(pages: seq<Page>): seq<Object> {
    if |pages| == 0 then [] else Concat(pages[..|pages| - 1]) + pages[|pages| - 1].objects
  }

  /** The continuation fields of one page, given whether it is the last. */
  predicate PageLinked(page: Page, last: bool) {
    && |page.objects| > 0
    && (if last then !page.more && page.nextObjectID == 0
        else page.more && page.nextObjectID == Next(page.objects[|page.objects| - 1].objectID))
  }

  predicate Paged(pages: seq<Page>) {
    && 0 < |pages| <= MAX_PAGES
    && forall p :: 0 <= p < |pages| ==> PageLinked(pages[p], p == |pages| - 1)
  }

  /** Parts of an object sequence, as the pages a device sends. */
  function Paginate(parts: seq<seq<Object>>): (pages: seq<Page>)
    requires forall p :: 0 <= p < |parts| ==> |parts[p]| > 0
    ensures |pages| == |parts|
    ensures forall p :: 0 <= p < |parts| ==> pages[p].objects == parts[p] && PageLinked(pages[p], p == |parts| - 1)
  {
    seq(|parts|, p requires 0 <= p < |parts| =>
      if p == |parts| - 1 then Page(false, 0, parts[p])
      else Page(true, Next(parts[p][|parts[p]| - 1].objectID), parts[p]))
  }

  function Flatten(parts: seq<seq<Object>>): seq<Object> {
    if |parts| == 0 then [] else Flatten(parts[..|parts| - 1]) + parts[|parts| - 1]
  }

  /** However a sequence is cut into at most the page cap of nonempty parts, the
      pages are well linked and concatenate to it. */
  lemma PaginationExists(parts: seq<seq<Object>>)
    requires 0 < |parts| <= MAX_PAGES && forall p :: 0 <= p < |parts| ==> |parts[p]| > 0
    ensures Paged(Paginate(parts)) && Concat(Paginate(parts)) == Flatten(parts)
  {
    ConcatOfParts(Paginate(parts), parts);
  }

  lemma {:induction false} ConcatOfParts(pages: seq<Page>, parts: seq<seq<Object>>)
    requires |pages| == |parts| && forall p :: 0 <= p < |parts| ==> pages[p].objects == parts[p]
    ensures Concat(pages) == Flatten(parts)
    decreases |parts|
  {
    if |parts| > 0 {
      ConcatOfParts(pages[..|pages| - 1], parts[..|parts| - 1]);
    }
  }

  // ---- the object loop ---------------------------------------------------------------------------

  /** The variables of the parse loops. */
  class ObjectScan {
    const selfModel: string -> bool
    ghost const rules: Rules
    var expectedObjectID: uint8
    var seenObjects: set<uint8>
    var seenAddresses: set<string>
    var declaredChildren: int
    var children: seq<Child>
    var selfSeen: bool
    var wrapped: bool
    var recordCount: nat
    var byteCount: nat

    ghost predicate Holds(objects: seq<Object>)
      reads this
    {
      && rules == DocumentaryRules(selfModel)
      && PrefixAccepted(rules, objects, children)
      && expectedObjectID == IdAt(|objects|)
      && (forall id :: id in seenObjects <==> exists i :: 0 <= i < |objects| && objects[i].objectID == id)
      && |seenObjects| == |objects|
      && (forall a :: a in seenAddresses <==> exists k :: 0 <= k < |children| && children[k].address == a)
      && declaredChildren == (if |objects| > 0 then objects[0].value[0] as int else -1)
      && (selfSeen <==> |objects| > 1)
      && (wrapped <==> |objects| > 0xff - START_OBJECT)
      && recordCount == (if |objects| > 0 then |objects| - 1 else 0)
      && byteCount == Bytes(objects)
    }

    constructor (selfModel: string -> bool)
      ensures Holds([]) && rules == DocumentaryRules(selfModel)
    {
      this.selfModel, rules := selfModel, DocumentaryRules(selfModel);
      expectedObjectID, seenObjects, seenAddresses := START_OBJECT, {}, {};
      declaredChildren, children, selfSeen, wrapped, recordCount, byteCount := -1, [], false, false, 0, 0;
    }

    /** One record: the gateway's own entry first, then children. */
    method AddRecord(o: Object, ghost objects: seq<Object>) returns (ok: bool)
      requires rules == DocumentaryRules(selfModel)
      requires 0 < |objects| <= MAX_OBJECTS + 1 && recordCount == |objects| - 1 && (selfSeen <==> |objects| > 1)
      requires |children| == (if |objects| > 2 then |objects| - 2 else 0)
      requires forall a :: a in seenAddresses <==> exists k :: 0 <= k < |children| && children[k].address == a
      modifies this`recordCount, this`selfSeen, this`seenAddresses, this`children
      ensures ok <==> RecordFits(rules, o, |objects|, old(children))
      ensures ok ==> recordCount == old(recordCount) + 1 && selfSeen
      ensures ok ==> forall a :: a in seenAddresses <==> exists k :: 0 <= k < |children| && children[k].address == a
      ensures ok ==> if |objects| == 1 then children == old(children) else
        |children| == |old(children)| + 1 && old(children) == children[..|old(children)|] && ChildEntry(rules, o, children[|old(children)|])
      ensures ok && DistinctAddresses(old(children)) ==> DistinctAddresses(children)
    {
      hide Parses, SelfEntry, ChildEntry;
      if recordCount == MAX_OBJECTS {
        return false;
      }
      recordCount := recordCount + 1;
      var parsed := ParseEntry(Documentary, o.objectID, o.value);
      if parsed.None? {
        NoChild(rules, o);
        return false;
      }
      var child := parsed.value;
      OneChildDecides(rules, o, child);
      if selfModel(child.model) {
        if selfSeen || |children| != 0 {
          return false;
        }
        selfSeen := true;
      } else {
        if !selfSeen || child.address == "" {
          return false;
        }
        if child.address in seenAddresses {
          return false;
        }
        assert ChildEntry(rules, o, child);
        AddressesGrow(children, child, seenAddresses);
        seenAddresses := seenAddresses + {child.address};
        children := children + [child];
      }
      ok := true;
    }

    /** One object of a page. */
    method AddObject(o: Object, ghost objects: seq<Object>) returns (ok: bool)
      requires Holds(objects)
      modifies this
      ensures ok <==> SomePrefix(rules, objects + [o])
      ensures ok ==> Holds(objects + [o])
    {
      hide Parses, PrefixAccepted, RecordFits, CountObject, NextFits, IdAt, Next, Bytes, ChildEntry, DistinctAddresses, SomePrefix, SelfEntry;
      NextObject(rules, objects, children, o);
      ScanShape(objects);
      FitParts(rules, objects, children, o);
      WrapAt(|objects|);
      if o.objectID != expectedObjectID {
        return false;
      }
      if o.objectID in seenObjects {
        SeenIsUnfit(objects, o);
        return false;
      }
      if |o.value| > MAX_BYTES - byteCount - 2 {
        return false;
      }
      ghost var was := children;
      if o.objectID == START_OBJECT {
        if |seenObjects| != 0 || |o.value| != 1 || o.value[0] as int > MAX_CHILDREN {
          return false;
        }
        declaredChildren := o.value[0] as int;
      } else {
        ok := AddRecord(o, objects);
        if !ok {
          return;
        }
      }
      PrefixExtends(rules, objects, was, o, children);
      SeenGrow(objects, o, seenObjects);
      BytesGrow(objects, o);
      seenObjects := seenObjects + {o.objectID};
      byteCount := byteCount + |o.value| + 2;
      var nextObjectID := Next(o.objectID);
      if nextObjectID == 0 && o.objectID == 0xff {
        if wrapped {
          return false;
        }
        wrapped := true;
      }
      expectedObjectID := nextObjectID;
      ok := true;
    }

    /** The identities before the expected one are all different from it. */
    lemma SeenIsUnfit(objects: seq<Object>, o: Object)
      requires Holds(objects) && o.objectID in seenObjects
      ensures !NextFits(rules, objects, children, o)
    {
      hide IdAt, Parses, SelfEntry, ChildEntry, RecordFits, Bytes;
      var i :| 0 <= i < |objects| && objects[i].objectID == o.objectID;
      IdsDiffer(i, |objects|);
    }

    lemma ScanShape(objects: seq<Object>)
      requires Holds(objects)
      ensures |objects| <= MAX_OBJECTS + 1 && byteCount <= MAX_BYTES
      ensures |children| == (if |objects| > 2 then |objects| - 2 else 0) && DistinctAddresses(children)
    {
    }
  }

  /** Whether one more object is accepted, told from the object and the prefix. */
  ghost predicate NextFits(rules: Rules, objects: seq<Object>, children: seq<Child>, o: Object) {
    && o.objectID == IdAt(|objects|)
    && Bytes(objects) + |o.value| + 2 <= MAX_BYTES
    && (if |objects| == 0 then CountObject(rules, o) else RecordFits(rules, o, |objects|, children))
  }

  lemma FitParts(rules: Rules, objects: seq<Object>, children: seq<Child>, o: Object)
    requires PrefixAccepted(rules, objects, children)
    ensures NextFits(rules, objects, children, o) <==>
      && o.objectID == IdAt(|objects|) && Bytes(objects) + |o.value| + 2 <= MAX_BYTES
      && (|objects| == 0 ==> |o.value| == 1 && rules.least <= o.value[0] as int <= rules.most)
      && (|objects| > 0 ==> RecordFits(rules, o, |objects|, children))
    ensures |objects| > 0 ==> |objects[0].value| == 1
  {
    hide RecordFits;
  }

  lemma WrapAt(n: nat)
    requires n <= MAX_OBJECTS + 1
    ensures IdAt(n) == 0xff <==> n == 0xff - START_OBJECT
    ensures Next(IdAt(n)) == 0 <==> n == 0xff - START_OBJECT
    ensures IdAt(n) == START_OBJECT <==> n == 0
    ensures Next(IdAt(n)) == IdAt(n + 1)
    ensures IdAt(0) == START_OBJECT
  {
  }

  lemma SeenGrow(objects: seq<Object>, o: Object, seen: set<uint8>)
    requires forall id :: id in seen <==> exists i :: 0 <= i < |objects| && objects[i].objectID == id
    ensures forall id :: id in seen + {o.objectID} <==> exists i :: 0 <= i < |objects + [o]| && (objects + [o])[i].objectID == id
  {
    var longer := objects + [o];
    assert longer[|objects|] == o;
    assert forall i :: 0 <= i < |objects| ==> longer[i] == objects[i];
  }

  lemma BytesGrow(objects: seq<Object>, o: Object)
    ensures Bytes(objects + [o]) == Bytes(objects) + |o.value| + 2
    ensures |objects| > 0 ==> (objects + [o])[0] == objects[0]
  {
    assert (objects + [o])[..|objects|] == objects;
  }

  lemma PrefixExtends(rules: Rules, objects: seq<Object>, children: seq<Child>, o: Object, after: seq<Child>)
    requires PrefixAccepted(rules, objects, children) && NextFits(rules, objects, children, o)
    requires if |objects| <= 1 then after == children else
      |after| == |children| + 1 && children == after[..|children|] && ChildEntry(rules, o, after[|children|])
    requires DistinctAddresses(after)
    ensures PrefixAccepted(rules, objects + [o], after)
  {
    hide Parses, SelfEntry, ChildEntry, CountObject;
    var longer := objects + [o];
    assert longer[..|longer| - 1] == objects;
  }

  lemma NextObject(rules: Rules, objects: seq<Object>, children: seq<Child>, o: Object)
    requires PrefixAccepted(rules, objects, children)
    ensures NextFits(rules, objects, children, o) <==> SomePrefix(rules, objects + [o])
  {
    hide Parses, SelfEntry, ChildEntry, CountObject;
    var longer := objects + [o];
    assert longer[..|longer| - 1] == objects && longer[..|objects|] == objects;
    if NextFits(rules, objects, children, o) {
      if |objects| > 1 {
        var child :| ChildEntry(rules, o, child) && forall k :: 0 <= k < |children| ==> children[k].address != child.address;
        assert PrefixAccepted(rules, longer, children + [child]);
      } else {
        assert PrefixAccepted(rules, longer, children);
      }
    }
    if c :| PrefixAccepted(rules, longer, c) {
      PrefixOfAccepted(rules, longer, c, |objects|);
      ChildrenAreDetermined(rules, objects, children, c[..if |objects| > 2 then |objects| - 2 else 0]);
      if |objects| > 1 {
        assert ChildEntry(rules, longer[|objects|], c[|c| - 1]);
      }
    }
  }

  /** What the next record must be at its position. */
  ghost predicate RecordFits(rules: Rules, o: Object, position: nat, children: seq<Child>) {
    && position <= MAX_OBJECTS
    && (if position == 1 then SelfEntry(rules, o)
        else exists child :: ChildEntry(rules, o, child) && forall k :: 0 <= k < |children| ==> children[k].address != child.address)
  }

  lemma AddressesGrow(children: seq<Child>, child: Child, addresses: set<string>)
    requires forall a :: a in addresses <==> exists k :: 0 <= k < |children| && children[k].address == a
    ensures forall a :: a in addresses + {child.address} <==>
      exists k :: 0 <= k < |children + [child]| && (children + [child])[k].address == a
  {
    var longer := children + [child];
    assert longer[|children|] == child;
    assert forall k :: 0 <= k < |children| ==> longer[k] == children[k];
  }

  lemma NoChild(rules: Rules, o: Object)
    requires !exists c :: Parses(rules.dialect, o.objectID, o.value, c)
    ensures !SelfEntry(rules, o)
    ensures forall c :: !ChildEntry(rules, o, c)
  {
    hide Parses;
  }

  lemma OneChildDecides(rules: Rules, o: Object, child: Child)
    requires Parses(rules.dialect, o.objectID, o.value, child)
    ensures SelfEntry(rules, o) <==> rules.isSelf(child)
    ensures forall c :: ChildEntry(rules, o, c) <==> c == child && rules.isChild(child)
  {
    hide Parses;
    forall c | Parses(rules.dialect, o.objectID, o.value, c)
      ensures c == child
    {
      ParsesOneChild(rules.dialect, o.objectID, o.value, c, child);
    }
  }

  // ---- the page loop ---------------------------------------------------------------------------------

  lemma ConcatStep(pages: seq<Page>, p: nat)
    requires p < |pages|
    ensures Concat(pages[..p + 1]) == Concat(pages[..p]) + pages[p].objects
  {
    assert pages[..p + 1][..p] == pages[..p];
  }

  lemma {:induction false} ConcatPrefix(pages: seq<Page>, p: nat)
    requires p <= |pages|
    ensures Concat(pages[..p]) <= Concat(pages)
    decreases |pages|
  {
    if p < |pages| {
      ConcatPrefix(pages[..|pages| - 1], p);
      assert pages[..|pages| - 1][..p] == pages[..p];
    } else {
      assert pages[..p] == pages;
    }
  }

  /** Once a prefix is rejected, so is every sequence it starts. */
  lemma RejectedForGood(rules: Rules, prefix: seq<Object>, objects: seq<Object>)
    requires prefix <= objects && !SomePrefix(rules, prefix)
    ensures !SomePrefix(rules, objects)
  {
    hide PrefixAccepted;
    assert objects[..|prefix|] == prefix;
    if c :| PrefixAccepted(rules, objects, c) {
      PrefixOfAccepted(rules, objects, c, |prefix|);
    }
  }

  /** The objects of one page. */
  method AddPage(scan: ObjectScan, page: Page, ghost before: seq<Object>) returns (ok: bool)
    requires scan.Holds(before)
    modifies scan
    ensures ok <==> SomePrefix(scan.rules, before + page.objects)
    ensures ok ==> scan.Holds(before + page.objects)
  {
    hide PrefixAccepted, ObjectScan.Holds;
    assert before + page.objects[..0] == before;
    for k := 0 to |page.objects|
      invariant scan.Holds(before + page.objects[..k])
    {
      ghost var done := before + page.objects[..k];
      assert before + page.objects[..k + 1] == done + [page.objects[k]];
      ok := scan.AddObject(page.objects[k], done);
      if !ok {
        RejectedForGood(scan.rules, done + [page.objects[k]], before + page.objects);
        return;
      }
    }
    assert before + page.objects[..|page.objects|] == before + page.objects;
    HoldsIsAccepted(scan, before + page.objects);
    ok := true;
  }

  lemma HoldsIsAccepted(scan: ObjectScan, objects: seq<Object>)
    requires scan.Holds(objects)
    ensures PrefixAccepted(scan.rules, objects, scan.children)
    ensures scan.declaredChildren == (if |objects| > 0 then objects[0].value[0] as int else -1)
    ensures scan.selfSeen <==> |objects| > 1
    ensures |objects| > 0 ==> scan.expectedObjectID == Next(objects[|objects| - 1].objectID)
  {
    hide Parses, SelfEntry, ChildEntry, Bytes;
    if |objects| > 0 {
      WrapAt(|objects| - 1);
    }
  }

  /** One page: its objects, and then its continuation fields. */
  method TakePage(scan: ObjectScan, page: Page, last: bool, ghost before: seq<Object>) returns (ok: bool)
    requires scan.Holds(before)
    modifies scan
    ensures ok <==> PageLinked(page, last) && SomePrefix(scan.rules, before + page.objects)
    ensures ok ==> scan.Holds(before + page.objects)
  {
    hide PrefixAccepted, ObjectScan.Holds;
    if |page.objects| == 0 {
      return false;
    }
    ok := AddPage(scan, page, before);
    if !ok {
      return;
    }
    HoldsIsAccepted(scan, before + page.objects);
    assert (before + page.objects)[|before + page.objects| - 1] == page.objects[|page.objects| - 1];
    if page.more {
      return page.nextObjectID == scan.expectedObjectID && !last;
    }
    return page.nextObjectID == 0 && last;
  }

  ghost predicate InventoryOf(rules: Rules, objects: seq<Object>, inventory: Inventory) {
    ObjectsAccepted(rules, objects, inventory.children) && inventory.declared == |inventory.children|
  }

  /** An inventory is returned exactly when the change counter held still, the
      pages are well linked and the concatenated objects are acceptable; it is
      then that of the objects. */
  ghost predicate ParsedAs(selfModel: string -> bool, counterBefore: uint16, counterAfter: uint16, pages: seq<Page>,
                           inventory: Option<Inventory>)
  {
    && (inventory.Some? <==>
        counterBefore == counterAfter && Paged(pages) && SomeInventory(DocumentaryRules(selfModel), Concat(pages)))
    && (inventory.Some? ==> InventoryOf(DocumentaryRules(selfModel), Concat(pages), inventory.value))
  }

  /** parseHuaweiExtendedMEIOfflineInventory. */
  method ParseInventory(selfModel: string -> bool, counterBefore: uint16, counterAfter: uint16, pages: seq<Page>)
    returns (inventory: Option<Inventory>)
    ensures ParsedAs(selfModel, counterBefore, counterAfter, pages, inventory)
  {
    hide ObjectsAccepted, ObjectScan.Holds, PageLinked, Concat;
    if counterBefore != counterAfter || |pages| == 0 || |pages| > MAX_PAGES {
      return None;
    }
    var scan := new ObjectScan(selfModel);
    ghost var rules := DocumentaryRules(selfModel);
    NoObjects(pages);
    for p := 0 to |pages|
      invariant fresh(scan) && scan.rules == rules
      invariant scan.Holds(Concat(pages[..p]))
      invariant forall q :: 0 <= q < p ==> PageLinked(pages[q], q == |pages| - 1)
    {
      ConcatStep(pages, p);
      var ok := TakePage(scan, pages[p], p == |pages| - 1, Concat(pages[..p]));
      if !ok {
        if PageLinked(pages[p], p == |pages| - 1) {
          RejectedPage(rules, pages, p);
        }
        return None;
      }
    }
    assert pages[..|pages|] == pages;
    HoldsIsAccepted(scan, Concat(pages));
    VerdictAtEnd(rules, Concat(pages), scan.children);
    if scan.declaredChildren < 0 || !scan.selfSeen || scan.declaredChildren != |scan.children| {
      return None;
    }
    return Some(Inventory(scan.declaredChildren, scan.children));
  }

  lemma NoObjects(pages: seq<Page>)
    ensures Concat(pages[..0]) == []
  {
  }

  /** A page whose objects are rejected spoils every longer sequence. */
  lemma RejectedPage(rules: Rules, pages: seq<Page>, p: nat)
    requires p < |pages|
    requires !SomePrefix(rules, Concat(pages[..p + 1]))
    ensures !SomeInventory(rules, Concat(pages))
  {
    hide PrefixAccepted;
    ConcatPrefix(pages, p + 1);
    RejectedForGood(rules, Concat(pages[..p + 1]), Concat(pages));
  }

  lemma VerdictAtEnd(rules: Rules, objects: seq<Object>, children: seq<Child>)
    requires PrefixAccepted(rules, objects, children)
    ensures |objects| > 0 ==> |objects[0].value| == 1
    ensures SomeInventory(rules, objects) <==>
      |objects| > 1 && Announced(rules, objects[0]) == |children|
    ensures |objects| > 1 && Announced(rules, objects[0]) == |children| ==> ObjectsAccepted(rules, objects, children)
  {
    hide Parses, SelfEntry, ChildEntry, Bytes;
    if |objects| > 1 && Announced(rules, objects[0]) == |children| {
      assert ObjectsAccepted(rules, objects, children);
    }
    if c :| ObjectsAccepted(rules, objects, c) {
      ChildrenAreDetermined(rules, objects, c, children);
    }
  }

  // ---- the verdict depends on the concatenated objects alone -------------------------------------------

  /** An object sequence has at most one inventory. */
  lemma InventoryIsDetermined(rules: Rules, objects: seq<Object>, a: Inventory, b: Inventory)
    requires InventoryOf(rules, objects, a) && InventoryOf(rules, objects, b)
    ensures a == b
  {
    hide PrefixAccepted;
    ChildrenAreDetermined(rules, objects, a.children, b.children);
  }

  /** Any two well-linked paginations of the same objects, read under the same
      counters, parse alike: both are refused, or both give the same inventory. */
  lemma PaginationDoesNotMatter(selfModel: string -> bool, counterBefore: uint16, counterAfter: uint16,
                                one: seq<Page>, other: seq<Page>, a: Option<Inventory>, b: Option<Inventory>)
    requires Paged(one) && Paged(other) && Concat(one) == Concat(other)
    requires ParsedAs(selfModel, counterBefore, counterAfter, one, a)
    requires ParsedAs(selfModel, counterBefore, counterAfter, other, b)
    ensures a == b
  {
    hide ObjectsAccepted, SomeInventory, PageLinked;
    if a.Some? {
      InventoryIsDetermined(DocumentaryRules(selfModel), Concat(one), a.value, b.value);
    }
  }

  /** However an inventory is cut into pages for sending, up to the page cap, it
      is accepted and read back as what was cut. */
  lemma EveryCutParses(selfModel: string -> bool, counter: uint16, parts: seq<seq<Object>>, inventory: Inventory, a: Option<Inventory>)
    requires 0 < |parts| <= MAX_PAGES && forall p :: 0 <= p < |parts| ==> |parts[p]| > 0
    requires InventoryOf(DocumentaryRules(selfModel), Flatten(parts), inventory)
    requires ParsedAs(selfModel, counter, counter, Paginate(parts), a)
    ensures a == Some(inventory)
  {
    hide PrefixAccepted, PageLinked;
    PaginationExists(parts);
    assert SomeInventory(DocumentaryRules(selfModel), Flatten(parts));
    InventoryIsDetermined(DocumentaryRules(selfModel), Flatten(parts), a.value, inventory);
  }
}
