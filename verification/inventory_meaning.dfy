/** What an accepted inventory is in the device's own terms, in both dialects: the
    objects by position, and the continuation fields that carry them. */
module InventoryMeaning {
  import opened Foundation
  import opened InventoryEntries
  import opened GatewayInventory
  import opened ObservedInventory

  /** Value bytes and two more for every object. */
  function Size(objects: seq<Object>): nat {
    if |objects| == 0 then 0 else |objects[0].value| + 2 + Size(objects[1..])
  }

  lemma {:induction false} SizeIsBytes(objects: seq<Object>)
    ensures Bytes(objects) == Size(objects)
    decreases |objects|
  {
    if |objects| > 0 {
      var front, last := objects[..|objects| - 1], objects[|objects| - 1];
      SizeIsBytes(front);
      SizeAppend(front, last);
      assert objects == front + [last];
    }
  }

  lemma {:induction false} SizeAppend(objects: seq<Object>, o: Object)
    ensures Size(objects + [o]) == Size(objects) + |o.value| + 2
    decreases |objects|
  {
    if |objects| > 0 {
      SizeAppend(objects[1..], o);
      assert (objects + [o])[1..] == objects[1..] + [o];
    } else {
      assert (objects + [o])[1..] == [];
    }
  }

  /** A count, the gateway's own entry, and one child for every further object, each
      under its own address; identities from 0x87 on, wrapping at eight bits. */
  ghost predicate Sequence(dialect: Dialect, objects: seq<Object>, children: seq<Child>) {
    && 2 <= |objects| <= 249 && |children| == |objects| - 2 && Size(objects) <= 65536
    && (forall i :: 0 <= i < |objects| ==> objects[i].objectID as int == (0x87 + i) % 256)
    && |objects[0].value| == 1
    && (forall k :: 0 <= k < |children| ==> Parses(dialect, objects[k + 2].objectID, objects[k + 2].value, children[k]))
    && (forall i, j :: 0 <= i < j < |children| ==> children[i].address != children[j].address)
  }

  /** The documentary dialect announces its children; the gateway is told by its model,
      and every child by another model and an address. */
  ghost predicate DocumentaryInventory(selfModel: string -> bool, objects: seq<Object>, inventory: Inventory) {
    && Sequence(Documentary, objects, inventory.children)
    && objects[0].value[0] as int == |inventory.children| == inventory.declared && inventory.declared <= 247
    && (exists self :: Parses(Documentary, objects[1].objectID, objects[1].value, self) && selfModel(self.model))
    && forall k :: 0 <= k < |inventory.children| ==> !selfModel(inventory.children[k].model) && inventory.children[k].address != ""
  }

  ghost predicate SomeDocumentary(selfModel: string -> bool, objects: seq<Object>) {
    exists i :: DocumentaryInventory(selfModel, objects, i)
  }

  lemma DocumentaryInventoryIff(selfModel: string -> bool, objects: seq<Object>, inventory: Inventory)
    ensures InventoryOf(DocumentaryRules(selfModel), objects, inventory) <==> DocumentaryInventory(selfModel, objects, inventory)
  {
    hide Parses, Bytes, Size;
    SizeIsBytes(objects);
    var rules := DocumentaryRules(selfModel);
    if InventoryOf(rules, objects, inventory) {
      forall k | 0 <= k < |inventory.children|
        ensures Parses(Documentary, objects[k + 2].objectID, objects[k + 2].value, inventory.children[k])
        ensures !selfModel(inventory.children[k].model) && inventory.children[k].address != ""
      {
        assert ChildEntry(rules, objects[k + 2], inventory.children[k]);
      }
    }
  }

  /** The observed dialect counts the gateway with its children; it is told by its
      address, and every child has another that is not 0. */
  ghost predicate ObservedInventoryOf(gatewayAddress: string, objects: seq<Object>, inventory: Inventory) {
    && Sequence(Observed, objects, inventory.children)
    && objects[0].value[0] as int == |inventory.children| + 1 == inventory.declared + 1
    && (exists self :: Parses(Observed, objects[1].objectID, objects[1].value, self) && self.address == gatewayAddress)
    && forall k :: 0 <= k < |inventory.children| ==>
        inventory.children[k].address != "0" && inventory.children[k].address != gatewayAddress
  }

  ghost predicate SomeObserved(gatewayAddress: string, objects: seq<Object>) {
    exists i :: ObservedInventoryOf(gatewayAddress, objects, i)
  }

  lemma ObservedInventoryIff(gatewayAddress: string, objects: seq<Object>, inventory: Inventory)
    ensures InventoryOf(ObservedRules(gatewayAddress), objects, inventory) <==> ObservedInventoryOf(gatewayAddress, objects, inventory)
  {
    hide Parses, Bytes, Size;
    SizeIsBytes(objects);
    var rules := ObservedRules(gatewayAddress);
    if InventoryOf(rules, objects, inventory) {
      forall k | 0 <= k < |inventory.children|
        ensures Parses(Observed, objects[k + 2].objectID, objects[k + 2].value, inventory.children[k])
        ensures inventory.children[k].address != "0" && inventory.children[k].address != gatewayAddress
      {
        assert ChildEntry(rules, objects[k + 2], inventory.children[k]);
      }
    }
  }

  /** Up to 248 pages, none empty; every page but the last names the identity behind its
      last object, the last one zero. */
  predicate LinkedPages(pages: seq<Page>) {
    && 1 <= |pages| <= 248
    && forall p :: 0 <= p < |pages| ==>
        && pages[p].objects != [] && (pages[p].more <==> p < |pages| - 1)
        && pages[p].nextObjectID as int ==
          if p < |pages| - 1 then (pages[p].objects[|pages[p].objects| - 1].objectID as int + 1) % 256 else 0
  }

  lemma LinkedIffPaged(pages: seq<Page>)
    ensures LinkedPages(pages) <==> Paged(pages)
  {
    if Paged(pages) {
      assert forall p :: 0 <= p < |pages| ==> PageLinked(pages[p], p == |pages| - 1);
    }
  }

  /** A documentary inventory is parsed exactly from linked pages, read while the change
      counter held still, whose objects are one. */
  lemma ParsedInventoryMeans(selfModel: string -> bool, counterBefore: uint16, counterAfter: uint16, pages: seq<Page>,
                             inventory: Option<Inventory>)
    requires ParsedAs(selfModel, counterBefore, counterAfter, pages, inventory)
    ensures inventory.Some? <==>
      counterBefore == counterAfter && LinkedPages(pages) && SomeDocumentary(selfModel, Concat(pages))
    ensures inventory.Some? ==> DocumentaryInventory(selfModel, Concat(pages), inventory.value)
  {
    hide InventoryOf, SomeInventory, DocumentaryInventory, DocumentaryRules, Paged, LinkedPages, Concat;
    LinkedIffPaged(pages);
    var rules, objects := DocumentaryRules(selfModel), Concat(pages);
    forall i
      ensures InventoryOf(rules, objects, i) <==> DocumentaryInventory(selfModel, objects, i)
    {
      DocumentaryInventoryIff(selfModel, objects, i);
    }
    SomeInventoryIff(rules, objects);
    assert SomeInventory(rules, objects) <==> SomeDocumentary(selfModel, objects);
  }

  lemma SomeInventoryIff(rules: Rules, objects: seq<Object>)
    ensures SomeInventory(rules, objects) <==> exists i :: InventoryOf(rules, objects, i)
  {
    hide ObjectsAccepted;
    if c :| ObjectsAccepted(rules, objects, c) {
      assert InventoryOf(rules, objects, Inventory(|c|, c));
    }
  }

  /** Linked responses, each stating the length its objects have on the wire, at most
      1024, and a count that fits a byte. */
  predicate HonestResponses(responses: seq<Response>) {
    && LinkedPages(PagesOf(responses))
    && forall p :: 0 <= p < |responses| ==>
        responses[p].responseBytes == 7 + Size(responses[p].page.objects) <= 1024 && 0 <= responses[p].declaredObjects < 256
  }

  lemma HonestIffWellSent(responses: seq<Response>)
    ensures HonestResponses(responses) <==> WellSent(responses)
  {
    hide LinkedPages, Paged, Bytes, Size;
    LinkedIffPaged(PagesOf(responses));
    forall p | 0 <= p < |responses|
      ensures Bytes(responses[p].page.objects) == Size(responses[p].page.objects)
    {
      SizeIsBytes(responses[p].page.objects);
    }
  }

  /** An observed inventory likewise, from honest responses. */
  lemma ParsedObservedMeans(gatewayAddress: string, responses: seq<Response>, result: Option<ObservedResult>)
    requires ObservedAs(gatewayAddress, responses, result)
    ensures var objects := Concat(PagesOf(responses));
      && (result.Some? <==> HonestResponses(responses) && SomeObserved(gatewayAddress, objects))
      && (result.Some? ==>
          && ObservedInventoryOf(gatewayAddress, objects, result.value.inventory)
          && |objects| > 1 && Parses(Observed, objects[1].objectID, objects[1].value, result.value.self)
          && result.value.self.address == gatewayAddress
          && result.value.anomalies.oversize == |set p: nat | p < |responses| && responses[p].responseBytes > 253|
          && result.value.anomalies.declaredDiffers ==
              |set p: nat | p < |responses| && (responses[p].declaredObjects != |responses[p].page.objects|)|)
  {
    hide InventoryOf, SomeInventory, ObservedInventoryOf, ObservedRules, WellSent, HonestResponses, Parses, Oversize, Misdeclared;
    AnomaliesAre(responses);
    HonestIffWellSent(responses);
    var objects := Concat(PagesOf(responses));
    forall i
      ensures InventoryOf(ObservedRules(gatewayAddress), objects, i) <==> ObservedInventoryOf(gatewayAddress, objects, i)
    {
      ObservedInventoryIff(gatewayAddress, objects, i);
    }
    SomeInventoryIff(ObservedRules(gatewayAddress), objects);
    InventoryHasEntries(gatewayAddress, responses, result);
  }

  lemma AnomaliesAre(responses: seq<Response>)
    ensures Oversize(responses, |responses|) == set p: nat | p < |responses| && responses[p].responseBytes > 253
    ensures Misdeclared(responses, |responses|) ==
      set p: nat | p < |responses| && responses[p].declaredObjects != |responses[p].page.objects|
  {
  }

  lemma InventoryHasEntries(gatewayAddress: string, responses: seq<Response>, result: Option<ObservedResult>)
    requires ObservedAs(gatewayAddress, responses, result)
    ensures result.Some? ==> |Concat(PagesOf(responses))| > 1
  {
    hide Oversize, Misdeclared, WellSent, GatewayEntry;
  }
}
