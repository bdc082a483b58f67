/** The observed dialect of the paginated inventory: the same object sequence
    under other rules, with response sizes checked and anomalies counted. */
module ObservedInventory {
  import opened Foundation
  import opened InventoryEntries
  import opened GatewayInventory

  const HEADER_BYTES: int := 7
  const MAX_RESPONSE_BYTES: int := 1024
  const CLASSIC_PDU_BYTES: int := 253

  /** One decoded response: its page, and the wire facts the dialect tolerates. */
  datatype Response = Response(page: Page, responseBytes: int, declaredObjects: int)

  datatype Anomalies = Anomalies(oversize: nat, declaredDiffers: nat)

  datatype ObservedResult = ObservedResult(inventory: Inventory, self: Child, anomalies: Anomalies)

  /** The length a response states is the one its objects imply, within the cap. */
  predicate ResponseFits(r: Response) {
    0 <= r.declaredObjects <= 255 && r.responseBytes == HEADER_BYTES + Bytes(r.page.objects) <= MAX_RESPONSE_BYTES
  }

  function PagesOf(responses: seq<Response>): (pages: seq<Page>)
    ensures |pages| == |responses| && forall p :: 0 <= p < |responses| ==> pages[p] == responses[p].page
  {
    seq(|responses|, p requires 0 <= p < |responses| => responses[p].page)
  }

  ghost predicate WellSent(responses: seq<Response>) {
    Paged(PagesOf(responses)) && forall p :: 0 <= p < |responses| ==> ResponseFits(responses[p])
  }

  /** The responses among the first n that a strict reader would reject for size. */
  function Oversize(responses: seq<Response>, n: nat): set<nat>
    requires n <= |responses|
  {
    set p: nat | p < n && responses[p].responseBytes > CLASSIC_PDU_BYTES
  }

  /** Those whose declared-object field is not the number of objects present. */
  function Misdeclared(responses: seq<Response>, n: nat): set<nat>
    requires n <= |responses|
  {
    set p: nat | p < n && responses[p].declaredObjects != |responses[p].page.objects|
  }

  ghost predicate GatewayEntry(gatewayAddress: string, o: Object, self: Child) {
    Parses(Observed, o.objectID, o.value, self) && self.address == gatewayAddress
  }

  // ---- the object loop ---------------------------------------------------------------------------

  /** The variables of the parse loops; no set of seen identities is kept. */
  class ObservedScan {
    const gatewayAddress: string
    ghost const rules: Rules
    var expected: uint8
    var declared: int
    var entries: nat
    var aggregate: nat
    var self: Child
    var children: seq<Child>
    var seenAddress: set<string>

    ghost predicate Holds(objects: seq<Object>)
      reads this
    {
      && rules == ObservedRules(gatewayAddress)
      && PrefixAccepted(rules, objects, children)
      && expected == IdAt(|objects|)
      && (forall a :: a in seenAddress <==> exists k :: 0 <= k < |children| && children[k].address == a)
      && declared == (if |objects| > 0 then objects[0].value[0] as int else -1)
      && entries == (if |objects| > 0 then |objects| - 1 else 0)
      && aggregate == Bytes(objects)
      && (|objects| > 1 ==> GatewayEntry(gatewayAddress, objects[1], self))
    }

    constructor (gatewayAddress: string)
      ensures Holds([]) && rules == ObservedRules(gatewayAddress) && this.gatewayAddress == gatewayAddress
    {
      this.gatewayAddress, rules := gatewayAddress, ObservedRules(gatewayAddress);
      expected, declared, entries, aggregate := START_OBJECT, -1, 0, 0;
      self, children, seenAddress := EmptyChild(0), [], {};
    }

    /** One entry: the gateway's own first, then children at other addresses. */
    method AddEntry(o: Object, ghost objects: seq<Object>) returns (ok: bool)
      requires rules == ObservedRules(gatewayAddress)
      requires 0 < |objects| <= MAX_OBJECTS + 1 && entries == |objects| - 1
      requires |children| == (if |objects| > 2 then |objects| - 2 else 0)
      requires forall a :: a in seenAddress <==> exists k :: 0 <= k < |children| && children[k].address == a
      modifies this`entries, this`self, this`seenAddress, this`children
      ensures ok <==> RecordFits(rules, o, |objects|, old(children))
      ensures ok ==> entries == |objects|
      ensures ok ==> forall a :: a in seenAddress <==> exists k :: 0 <= k < |children| && children[k].address == a
      ensures ok ==> if |objects| == 1 then children == old(children) && GatewayEntry(gatewayAddress, o, self) else
        && self == old(self)
        && |children| == |old(children)| + 1 && old(children) == children[..|old(children)|] && ChildEntry(rules, o, children[|old(children)|])
      ensures ok && DistinctAddresses(old(children)) ==> DistinctAddresses(children)
    {
      hide Parses, SelfEntry, ChildEntry;
      entries := entries + 1;
      if entries > MAX_OBJECTS {
        return false;
      }
      var parsed := ParseEntry(Observed, o.objectID, o.value);
      if parsed.None? {
        NoChild(rules, o);
        return false;
      }
      var child := parsed.value;
      OneChildDecides(rules, o, child);
      if entries == 1 {
        if child.address != gatewayAddress {
          return false;
        }
        self := child;
      } else {
        if child.address == "0" || child.address == gatewayAddress {
          return false;
        }
        if child.address in seenAddress {
          return false;
        }
        assert ChildEntry(rules, o, child);
        AddressesGrow(children, child, seenAddress);
        seenAddress := seenAddress + {child.address};
        children := children + [child];
      }
      ok := true;
    }

    /** One object; first tells the very first object of the first response. */
    method AddObject(o: Object, first: bool, ghost objects: seq<Object>) returns (ok: bool)
      requires Holds(objects) && (first <==> |objects| == 0)
      modifies this
      ensures ok <==> SomePrefix(rules, objects + [o])
      ensures ok ==> Holds(objects + [o])
    {
      hide Parses, PrefixAccepted, RecordFits, CountObject, NextFits, IdAt, Next, Bytes, ChildEntry, DistinctAddresses, GatewayEntry;
      NextObject(rules, objects, children, o);
      ScanShape(objects);
      FitParts(rules, objects, children, o);
      WrapAt(|objects|);
      if o.objectID != expected {
        return false;
      }
      aggregate := aggregate + 2 + |o.value|;
      if aggregate > MAX_BYTES {
        return false;
      }
      ghost var was := children;
      if first {
        if o.objectID != START_OBJECT || |o.value| != 1 || o.value[0] as int == 0 || o.value[0] as int > MAX_OBJECTS {
          return false;
        }
        declared := o.value[0] as int;
      } else {
        ok := AddEntry(o, objects);
        if !ok {
          return;
        }
      }
      PrefixExtends(rules, objects, was, o, children);
      BytesGrow(objects, o);
      expected := Next(expected);
      ok := true;
    }

    lemma ScanShape(objects: seq<Object>)
      requires Holds(objects)
      ensures |objects| <= MAX_OBJECTS + 1 && aggregate <= MAX_BYTES
      ensures |children| == (if |objects| > 2 then |objects| - 2 else 0) && DistinctAddresses(children)
    {
    }
  }

  // ---- the page loop ---------------------------------------------------------------------------------

  lemma HoldsIsAccepted(scan: ObservedScan, objects: seq<Object>)
    requires scan.Holds(objects)
    ensures PrefixAccepted(scan.rules, objects, scan.children)
    ensures scan.declared == (if |objects| > 0 then objects[0].value[0] as int else -1)
    ensures scan.entries == (if |objects| > 0 then |objects| - 1 else 0)
    ensures |objects| > 1 ==> GatewayEntry(scan.gatewayAddress, objects[1], scan.self)
    ensures |objects| > 0 ==> scan.expected == Next(objects[|objects| - 1].objectID)
  {
    hide Parses, SelfEntry, ChildEntry, Bytes, GatewayEntry;
    if |objects| > 0 {
      WrapAt(|objects| - 1);
    }
  }

  lemma BytesStep(objects: seq<Object>, k: nat)
    requires k < |objects|
    ensures Bytes(objects[..k + 1]) == Bytes(objects[..k]) + |objects[k].value| + 2
  {
    assert objects[..k + 1][..k] == objects[..k];
  }

  /** The objects of one response, and the length they imply. */
  method AddObjects(scan: ObservedScan, objects: seq<Object>, firstPage: bool, ghost before: seq<Object>)
    returns (ok: bool, responseBytes: int)
    requires scan.Holds(before) && (firstPage <==> |before| == 0)
    modifies scan
    ensures ok <==> SomePrefix(scan.rules, before + objects)
    ensures ok ==> scan.Holds(before + objects) && responseBytes == HEADER_BYTES + Bytes(objects)
  {
    hide PrefixAccepted, ObservedScan.Holds, Bytes;
    assert before + objects[..0] == before;
    assert objects[..0] == [];
    NoBytes();
    responseBytes := HEADER_BYTES;
    for k := 0 to |objects|
      invariant scan.Holds(before + objects[..k])
      invariant responseBytes == HEADER_BYTES + Bytes(objects[..k])
    {
      ghost var done := before + objects[..k];
      assert before + objects[..k + 1] == done + [objects[k]];
      BytesStep(objects, k);
      ok := scan.AddObject(objects[k], firstPage && k == 0, done);
      if !ok {
        RejectedForGood(scan.rules, done + [objects[k]], before + objects);
        return;
      }
      responseBytes := responseBytes + 2 + |objects[k].value|;
    }
    assert before + objects[..|objects|] == before + objects && objects[..|objects|] == objects;
    HoldsIsAccepted(scan, before + objects);
    ok := true;
  }

  lemma NoBytes()
    ensures Bytes([]) == 0
  {
  }

  /** One response: its objects, its stated length, its continuation fields. */
  method TakeResponse(scan: ObservedScan, r: Response, firstPage: bool, last: bool, ghost before: seq<Object>) returns (ok: bool)
    requires scan.Holds(before) && (firstPage <==> |before| == 0)
    modifies scan
    ensures ok <==> PageLinked(r.page, last) && ResponseFits(r) && SomePrefix(scan.rules, before + r.page.objects)
    ensures ok ==> scan.Holds(before + r.page.objects)
  {
    hide PrefixAccepted, ObservedScan.Holds, Bytes;
    if |r.page.objects| == 0 || r.declaredObjects < 0 || r.declaredObjects > 255 {
      return false;
    }
    var responseBytes;
    ok, responseBytes := AddObjects(scan, r.page.objects, firstPage, before);
    if !ok {
      return;
    }
    HoldsIsAccepted(scan, before + r.page.objects);
    assert (before + r.page.objects)[|before + r.page.objects| - 1] == r.page.objects[|r.page.objects| - 1];
    if responseBytes != r.responseBytes || responseBytes > MAX_RESPONSE_BYTES {
      return false;
    }
    if r.page.more {
      return r.page.nextObjectID == scan.expected && !last;
    }
    return r.page.nextObjectID == 0 && last;
  }

  lemma ConcatIsNonempty(pages: seq<Page>, p: nat)
    requires p <= |pages| && forall q :: 0 <= q < p ==> |pages[q].objects| > 0
    ensures |Concat(pages[..p])| == 0 <==> p == 0
  {
    if p > 0 {
      ConcatStep(pages, p - 1);
    }
  }

  lemma AnomalyStep(responses: seq<Response>, p: nat)
    requires p < |responses|
    ensures |Oversize(responses, p + 1)| == |Oversize(responses, p)| + if responses[p].responseBytes > CLASSIC_PDU_BYTES then 1 else 0
    ensures |Misdeclared(responses, p + 1)| ==
      |Misdeclared(responses, p)| + if responses[p].declaredObjects != |responses[p].page.objects| then 1 else 0
  {
    var big, off := responses[p].responseBytes > CLASSIC_PDU_BYTES, responses[p].declaredObjects != |responses[p].page.objects|;
    assert Oversize(responses, p + 1) == if big then Oversize(responses, p) + {p} else Oversize(responses, p);
    assert Misdeclared(responses, p + 1) == if off then Misdeclared(responses, p) + {p} else Misdeclared(responses, p);
  }

  /** Accepted exactly when the responses are well sent and their concatenated
      objects are an inventory; the children, the gateway's own entry and the
      anomalies are then those of the input. */
  ghost predicate ObservedAs(gatewayAddress: string, responses: seq<Response>, result: Option<ObservedResult>) {
    var objects := Concat(PagesOf(responses));
    && (result.Some? <==> WellSent(responses) && SomeInventory(ObservedRules(gatewayAddress), objects))
    && (result.Some? ==>
        && InventoryOf(ObservedRules(gatewayAddress), objects, result.value.inventory)
        && GatewayEntry(gatewayAddress, objects[1], result.value.self)
        && result.value.anomalies.oversize == |Oversize(responses, |responses|)|
        && result.value.anomalies.declaredDiffers == |Misdeclared(responses, |responses|)|)
  }

  /** parseHuaweiObservedInventoryPages. */
  method ParseObserved(gatewayAddress: string, responses: seq<Response>) returns (result: Option<ObservedResult>)
    ensures ObservedAs(gatewayAddress, responses, result)
  {
    hide ObjectsAccepted, ObservedScan.Holds, PageLinked, Concat, ResponseFits, GatewayEntry, Oversize, Misdeclared, SomeInventory, Announced, PrefixAccepted, SomePrefix, ObservedRules;
    if |responses| == 0 || |responses| > MAX_PAGES {
      return None;
    }
    var scan := new ObservedScan(gatewayAddress);
    ghost var rules, pages := ObservedRules(gatewayAddress), PagesOf(responses);
    NoObjects(pages);
    NoAnomalies(responses);
    var oversize, declaredDiffers := 0, 0;
    for p := 0 to |responses|
      invariant fresh(scan) && scan.rules == rules && scan.gatewayAddress == gatewayAddress
      invariant scan.Holds(Concat(pages[..p]))
      invariant forall q :: 0 <= q < p ==> PageLinked(pages[q], q == |pages| - 1) && ResponseFits(responses[q])
      invariant oversize == |Oversize(responses, p)| && declaredDiffers == |Misdeclared(responses, p)|
    {
      ConcatStep(pages, p);
      LinkedPagesHaveObjects(pages, p);
      ConcatIsNonempty(pages, p);
      AnomalyStep(responses, p);
      var ok := TakeResponse(scan, responses[p], p == 0, p == |responses| - 1, Concat(pages[..p]));
      if !ok {
        if PageLinked(pages[p], p == |pages| - 1) && ResponseFits(responses[p]) {
          RejectedPage(rules, pages, p);
        }
        return None;
      }
      if responses[p].responseBytes > CLASSIC_PDU_BYTES {
        oversize := oversize + 1;
      }
      if responses[p].declaredObjects != |responses[p].page.objects| {
        declaredDiffers := declaredDiffers + 1;
      }
    }
    assert pages[..|pages|] == pages;
    HoldsIsAccepted(scan, Concat(pages));
    LinkedPagesHaveObjects(pages, |pages|);
    ConcatIsNonempty(pages, |pages|);
    VerdictAtEnd(rules, Concat(pages), scan.children);
    EntriesDecide(gatewayAddress, Concat(pages), scan.children);
    if scan.declared < 0 || scan.entries != scan.declared {
      return None;
    }
    return Some(ObservedResult(Inventory(scan.declared - 1, scan.children), scan.self, Anomalies(oversize, declaredDiffers)));
  }

  lemma NoAnomalies(responses: seq<Response>)
    ensures Oversize(responses, 0) == {} && Misdeclared(responses, 0) == {}
  {
  }

  lemma LinkedPagesHaveObjects(pages: seq<Page>, p: nat)
    requires p <= |pages| && forall q :: 0 <= q < p ==> PageLinked(pages[q], q == |pages| - 1)
    ensures forall q :: 0 <= q < p ==> |pages[q].objects| > 0
  {
  }

  /** Counting every entry, the gateway's own with them, is counting children. */
  lemma EntriesDecide(gatewayAddress: string, objects: seq<Object>, children: seq<Child>)
    requires PrefixAccepted(ObservedRules(gatewayAddress), objects, children) && |objects| > 0
    ensures |objects[0].value| == 1 && objects[0].value[0] as int >= 1
    ensures objects[0].value[0] as int == |objects| - 1 <==>
      |objects| > 1 && Announced(ObservedRules(gatewayAddress), objects[0]) == |children|
    ensures Announced(ObservedRules(gatewayAddress), objects[0]) == objects[0].value[0] as int - 1
  {
    hide Parses, SelfEntry, ChildEntry, Bytes;
  }

  // ---- what the verdict depends on ---------------------------------------------------------------------

  /** Any two well-sent lists of responses with the same concatenated objects are
      both refused, or give the same inventory and the same gateway entry. */
  lemma PaginationDoesNotMatter(gatewayAddress: string, one: seq<Response>, other: seq<Response>,
                                a: Option<ObservedResult>, b: Option<ObservedResult>)
    requires WellSent(one) && WellSent(other) && Concat(PagesOf(one)) == Concat(PagesOf(other))
    requires ObservedAs(gatewayAddress, one, a) && ObservedAs(gatewayAddress, other, b)
    ensures a.Some? <==> b.Some?
    ensures a.Some? ==> a.value.inventory == b.value.inventory && a.value.self == b.value.self
  {
    hide WellSent, PrefixAccepted, SomeInventory, Parses, Oversize, Misdeclared;
    if a.Some? {
      var objects := Concat(PagesOf(one));
      InventoryIsDetermined(ObservedRules(gatewayAddress), objects, a.value.inventory, b.value.inventory);
      ParsesOneChild(Observed, objects[1].objectID, objects[1].value, a.value.self, b.value.self);
    }
  }

  /** Objects that exceed the response cap are refused in one response, whatever
      length and count it states. */
  lemma OversizeIsRefused(gatewayAddress: string, r: Response, a: Option<ObservedResult>)
    requires HEADER_BYTES + Bytes(r.page.objects) > MAX_RESPONSE_BYTES && ObservedAs(gatewayAddress, [r], a)
    ensures a.None?
  {
    hide Bytes, SomeInventory, InventoryOf, GatewayEntry, Oversize, Misdeclared;
    assert !ResponseFits([r][0]);
  }

  function Blanks(n: nat): (blanks: string)
    ensures |blanks| == n
  {
    seq(n, i => ' ')
  }

  lemma {:induction false} TrimBlanks(text: string, n: nat)
    requires |text| > 0 && text[|text| - 1] != ' ' && text[|text| - 1] != 0 as char
    ensures TrimRight(text + Blanks(n)) == text
    decreases n
  {
    var value := text + Blanks(n);
    if n == 0 {
      assert value == text;
    } else {
      assert value[..|value| - 1] == text + Blanks(n - 1);
      TrimBlanks(text, n - 1);
    }
  }

  /** An entry of 254 bytes: a model, a one-digit unit, padding. */
  function PaddedEntry(digit: char): (value: string)
    ensures |value| == 254
  {
    "1=M;5=" + [digit] + Blanks(247)
  }

  function PaddedChild(objectID: uint8, digit: char): Child {
    EmptyChild(objectID).(model := "M", address := [digit])
  }

  /** The two attributes of a padded entry. */
  function PaddedPairs(digit: char): seq<Pair> {
    [Pair("1", "M"), Pair("5", [digit])]
  }

  lemma PaddedEntryParses(objectID: uint8, digit: char)
    requires IsDigit(digit)
    ensures Parses(Observed, objectID, PaddedEntry(digit), PaddedChild(objectID, digit))
  {
    hide Split, TrimRight, Printable, AcceptablePairs, ApplyAll, CanonicalUnit, PaddedPairs;
    var text := "1=M;5=" + [digit];
    PaddedTextSplits(digit);
    PaddedPairsApply(objectID, digit);
    TrimBlanks(text, 247);
    TextIsPrintable(text, digit);
    DigitIsUnit(digit);
    assert AcceptablePairs(Observed, Split(text, ';'), PaddedPairs(digit));
  }

  lemma PaddedTextSplits(digit: char)
    requires IsDigit(digit)
    ensures AcceptablePairs(Observed, Split("1=M;5=" + [digit], ';'), PaddedPairs(digit))
  {
    hide Split, Join;
    var pairs := PaddedPairs(digit);
    var parts := [PairText(pairs[0]), PairText(pairs[1])];
    JoinTwo(parts[0], parts[1]);
    assert "1=M;5=" + [digit] == Join(parts, ';');
    SplitOfJoin(parts, ';');
    CutOfText(pairs[0]);
    CutOfText(pairs[1]);
  }

  lemma PaddedPairsApply(objectID: uint8, digit: char)
    ensures ApplyAll(Observed, objectID, PaddedPairs(digit)) == PaddedChild(objectID, digit)
  {
    var pairs := PaddedPairs(digit);
    assert pairs[..1] == [pairs[0]] && [pairs[0]][..0] == [];
    assert ApplyAll(Observed, objectID, pairs[..1]) == EmptyChild(objectID).(model := "M");
  }

  lemma DigitIsUnit(digit: char)
    requires IsDigit(digit)
    ensures CanonicalUnit([digit])
  {
    var value := [digit];
    assert value[..|value| - 1] == [];
    assert Decimal(value) == Decimal([]) * 10 + Digit(value[0]);
    assert Decimal([]) == 0;
  }

  lemma JoinTwo(a: string, b: string)
    ensures Join([a, b], ';') == a + ";" + b
  {
    assert [a, b][1..] == [b];
  }

  lemma TextIsPrintable(text: string, digit: char)
    requires IsDigit(digit) && text == "1=M;5=" + [digit]
    ensures Printable(text)
  {
    forall i | 0 <= i < |text|
      ensures 0x20 as char <= text[i] <= 0x7e as char
    {
      if i < 6 {
        assert text[i] == "1=M;5="[i];
      }
    }
  }

  /** Six objects that are an inventory of four children, and their two halves. */
  function PaddedObject(i: nat): Object
    requires i < 10
  {
    Object(IdAt(i), if i == 0 then [5 as char] else PaddedEntry('0' + i as char))
  }

  function PaddedObjects(i: nat, j: nat): (objects: seq<Object>)
    requires i <= j <= 10
    ensures |objects| == j - i && forall k :: 0 <= k < j - i ==> objects[k] == PaddedObject(i + k)
  {
    seq(j - i, k requires 0 <= k < j - i => PaddedObject(i + k))
  }

  lemma {:induction false} PaddedBytes(i: nat, j: nat)
    requires i <= j <= 10
    ensures Bytes(PaddedObjects(i, j)) == 256 * (j - i) - if i == 0 < j then 253 else 0
    decreases j
  {
    if i < j {
      PaddedBytes(i, j - 1);
      BytesGrow(PaddedObjects(i, j - 1), PaddedObject(j - 1));
      assert PaddedObjects(i, j) == PaddedObjects(i, j - 1) + [PaddedObject(j - 1)];
    }
  }

  lemma PaddedChildIs(i: nat)
    requires 1 <= i < 6
    ensures i == 1 ==> SelfEntry(ObservedRules("1"), PaddedObject(i))
    ensures i > 1 ==> ChildEntry(ObservedRules("1"), PaddedObject(i), PaddedChild(IdAt(i), '0' + i as char))
  {
    hide Parses, IdAt;
    var child := PaddedChild(IdAt(i), '0' + i as char);
    PaddedEntryParses(IdAt(i), '0' + i as char);
    assert i == 1 ==> child.address == "1";
    assert i > 1 ==> child.address[0] != '0' && child.address[0] != '1';
  }

  lemma PaddedInventory()
    ensures SomeInventory(ObservedRules("1"), PaddedObjects(0, 6))
  {
    hide SelfEntry, ChildEntry, Bytes, IdAt, PaddedEntry, PaddedChild;
    var rules, objects := ObservedRules("1"), PaddedObjects(0, 6);
    var children := seq(4, k requires 0 <= k < 4 => PaddedChild(IdAt(k + 2), '0' + (k + 2) as char));
    PaddedBytes(0, 6);
    PaddedChildIs(1);
    forall k | 0 <= k < 4
      ensures ChildEntry(rules, objects[k + 2], children[k])
    {
      PaddedChildIs(k + 2);
    }
    assert DistinctAddresses(children) by { PaddedAddresses(children); }
    assert PrefixAccepted(rules, objects, children);
    assert ObjectsAccepted(rules, objects, children);
  }

  lemma PaddedAddresses(children: seq<Child>)
    requires |children| == 4 && forall k :: 0 <= k < 4 ==> children[k] == PaddedChild(IdAt(k + 2), '0' + (k + 2) as char)
    ensures DistinctAddresses(children)
  {
    hide IdAt;
    forall i, j | 0 <= i < j < |children|
      ensures children[i].address != children[j].address
    {
      assert children[i].address[0] != children[j].address[0];
    }
  }

  /** The size of each response does decide: the same inventory is refused in one
      response with an honest length, and accepted in two. */
  lemma ResponseSizeDecides() returns (gatewayAddress: string, one: seq<Response>, other: seq<Response>)
    ensures Paged(PagesOf(one)) && Paged(PagesOf(other)) && Concat(PagesOf(one)) == Concat(PagesOf(other))
    ensures forall r :: r in one + other ==>
      r.responseBytes == HEADER_BYTES + Bytes(r.page.objects) && r.declaredObjects == |r.page.objects|
    ensures forall a :: ObservedAs(gatewayAddress, one, a) ==> a.None?
    ensures forall b :: ObservedAs(gatewayAddress, other, b) ==> b.Some?
  {
    hide Parses, ObjectsAccepted, SomeInventory, Bytes, GatewayEntry, Oversize, Misdeclared;
    gatewayAddress := "1";
    var all, first, second := PaddedObjects(0, 6), PaddedObjects(0, 3), PaddedObjects(3, 6);
    assert all == first + second;
    PaddedBytes(0, 6);
    PaddedBytes(0, 3);
    PaddedBytes(3, 6);
    one := [Response(Page(false, 0, all), HEADER_BYTES + Bytes(all), 6)];
    other := [Response(Page(true, Next(IdAt(2)), first), HEADER_BYTES + Bytes(first), 3),
              Response(Page(false, 0, second), HEADER_BYTES + Bytes(second), 3)];
    assert Concat(PagesOf(one)) == all && Concat(PagesOf(other)) == all by {
      var p, q := PagesOf(one), PagesOf(other);
      assert p[..0] == [] && q[..1][..0] == [] && q[..1][0] == q[0];
    }
    PaddedInventory();
    assert WellSent(other);
    forall a | ObservedAs(gatewayAddress, one, a)
      ensures a.None?
    {
      OversizeIsRefused(gatewayAddress, one[0], a);
    }
  }
}
