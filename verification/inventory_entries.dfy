/** Device-list entries: key=value pairs separated by semicolons, the child they
    decode to, and the opaque attributes read back from their retained text. */
module InventoryEntries {
  import opened Foundation

  // ---- splitting and joining ------------------------------------------------------------

  /** Position of the first c at or after from, |s| if there is none. */
  function IndexOf(s: string, c: char, from: nat := 0): (i: nat)
    requires from <= |s|
    ensures from <= i <= |s|
    ensures forall j :: from <= j < i ==> s[j] != c
    ensures i < |s| ==> s[i] == c
    decreases |s| - from
  {
    if from == |s| || s[from] == c then from else IndexOf(s, c, from + 1)
  }

  /** strings.Split on a one-character separator. */
  function Split(s: string, sep: char): (parts: seq<string>)
    ensures |parts| >= 1
    decreases |s|
  {
    var i := IndexOf(s, sep);
    if i == |s| then [s] else [s[..i]] + Split(s[i + 1..], sep)
  }

  function Join(parts: seq<string>, sep: char): string {
    if |parts| == 0 then ""
    else if |parts| == 1 then parts[0]
    else parts[0] + [sep] + Join(parts[1..], sep)
  }

  lemma IndexAfter(a: string, c: char, b: string)
    requires c !in a
    ensures IndexOf(a + [c] + b, c) == |a|
    ensures IndexOf(a, c) == |a|
  {
    var s := a + [c] + b;
    assert s[|a|] == c;
    assert forall j :: 0 <= j < |a| ==> s[j] == a[j] && a[j] in a;
  }

  /** Splitting undoes joining parts that do not contain the separator. */
  lemma {:induction false} SplitOfJoin(parts: seq<string>, sep: char)
    requires |parts| > 0 && forall i :: 0 <= i < |parts| ==> sep !in parts[i]
    ensures Split(Join(parts, sep), sep) == parts
    decreases |parts|
  {
    if |parts| == 1 {
      IndexAfter(parts[0], sep, "");
    } else {
      var rest := Join(parts[1..], sep);
      IndexAfter(parts[0], sep, rest);
      SplitOfJoin(parts[1..], sep);
      var s := parts[0] + [sep] + rest;
      assert s[..|parts[0]|] == parts[0] && s[|parts[0]| + 1..] == rest;
    }
  }

  lemma {:induction false} PartsLackSeparator(s: string, sep: char)
    ensures forall p :: p in Split(s, sep) ==> sep !in p
    decreases |s|
  {
    var i := IndexOf(s, sep);
    if i < |s| {
      PartsLackSeparator(s[i + 1..], sep);
      assert sep !in s[..i];
    }
  }

  // ---- pairs ----------------------------------------------------------------------------------

  datatype Pair = Pair(key: string, value: string)

  function PairText(p: Pair): string { p.key + "=" + p.value }

  /** strings.Cut at the first equals sign. */
  function Cut(text: string): Option<Pair> {
    var i := IndexOf(text, '=');
    if i == |text| then None else Some(Pair(text[..i], text[i + 1..]))
  }

  predicate WellFormedPair(p: Pair) {
    p.key != "" && p.value != "" && '=' !in p.key && '=' !in p.value && ';' !in p.key && ';' !in p.value
  }

  lemma CutOfText(p: Pair)
    requires '=' !in p.key
    ensures Cut(PairText(p)) == Some(p)
  {
    IndexAfter(p.key, '=', p.value);
    var text := PairText(p);
    assert text == p.key + ['='] + p.value;
    assert text[..|p.key|] == p.key && text[|p.key| + 1..] == p.value;
  }

  /** One attribute of an entry: a pair whose value holds no further equals sign. */
  function ParsePair(text: string): Option<Pair> {
    var cut := Cut(text);
    if cut.None? || cut.value.key == "" || cut.value.value == "" || '=' in cut.value.value then None else cut
  }

  lemma ParsedPairIsWellFormed(text: string)
    requires ParsePair(text).Some? && ';' !in text
    ensures WellFormedPair(ParsePair(text).value) && PairText(ParsePair(text).value) == text
  {
    var i, p := IndexOf(text, '='), ParsePair(text).value;
    assert text == text[..i] + ['='] + text[i + 1..];
    assert '=' !in text[..i];
    assert forall c :: c in p.key || c in p.value ==> c in text;
  }

  // ---- the retained child ----------------------------------------------------------------------------

  datatype Child = Child(
    objectID: uint8, model: string, softwareVersion: string, protocolVersion: string, address: string,
    featureVersion: string, productType: string, opaqueText: string)

  function EmptyChild(objectID: uint8): Child {
    Child(objectID, "", "", "", "", "", "", "")
  }

  /** retainOpaque: appended behind a separator, unless it is the first. */
  function RetainOpaque(retained: string, p: Pair): string {
    if retained != "" then retained + ";" + PairText(p) else PairText(p)
  }

  /** OpaqueAttributes, as the source's loop. */
  method OpaqueAttributes(retained: string) returns (attributes: seq<Pair>)
    ensures attributes == ReadBack(retained)
  {
    if retained == "" {
      return [];
    }
    attributes := [];
    var parts := Split(retained, ';');
    for i := 0 to |parts|
      invariant attributes == seq(i, k requires 0 <= k < i => CutOrAll(parts[k]))
    {
      attributes := attributes + [CutOrAll(parts[i])];
    }
  }

  /** The key and value of a part; without an equals sign all of it is the key. */
  function CutOrAll(text: string): Pair {
    var cut := Cut(text);
    if cut.Some? then cut.value else Pair(text, "")
  }

  function ReadBack(retained: string): seq<Pair> {
    if retained == "" then []
    else
      var parts := Split(retained, ';');
      seq(|parts|, k requires 0 <= k < |parts| => CutOrAll(parts[k]))
  }

  function Retain(pairs: seq<Pair>): string {
    if |pairs| == 0 then "" else RetainOpaque(Retain(pairs[..|pairs| - 1]), pairs[|pairs| - 1])
  }

  function Texts(pairs: seq<Pair>): (texts: seq<string>)
    ensures |texts| == |pairs| && forall i :: 0 <= i < |pairs| ==> texts[i] == PairText(pairs[i])
  {
    seq(|pairs|, i requires 0 <= i < |pairs| => PairText(pairs[i]))
  }

  lemma {:induction false} JoinAppend(parts: seq<string>, last: string, sep: char)
    requires |parts| > 0
    ensures Join(parts + [last], sep) == Join(parts, sep) + [sep] + last
    decreases |parts|
  {
    if |parts| > 1 {
      JoinAppend(parts[1..], last, sep);
      assert (parts + [last])[1..] == parts[1..] + [last];
    }
  }

  lemma {:induction false} RetainIsJoin(pairs: seq<Pair>)
    ensures Retain(pairs) == Join(Texts(pairs), ';')
    ensures |pairs| > 0 ==> Retain(pairs) != ""
  {
    if |pairs| > 0 {
      var front := pairs[..|pairs| - 1];
      RetainIsJoin(front);
      assert Texts(pairs) == Texts(front) + [PairText(pairs[|pairs| - 1])];
      if |front| > 0 {
        JoinAppend(Texts(front), PairText(pairs[|pairs| - 1]), ';');
      }
    }
  }

  /** Retaining well-formed pairs and reading them back is the identity, in order. */
  lemma RetainedReadsBack(pairs: seq<Pair>)
    requires forall i :: 0 <= i < |pairs| ==> WellFormedPair(pairs[i])
    ensures ReadBack(Retain(pairs)) == pairs
  {
    hide Join, Split, IndexOf;
    RetainIsJoin(pairs);
    if |pairs| > 0 {
      var texts := Texts(pairs);
      forall i | 0 <= i < |texts|
        ensures ';' !in texts[i]
      {
        assert texts[i] == pairs[i].key + "=" + pairs[i].value;
      }
      SplitOfJoin(texts, ';');
      forall i | 0 <= i < |pairs|
        ensures CutOrAll(texts[i]) == pairs[i]
      {
        CutOfText(pairs[i]);
      }
    }
  }

  // ---- parsing an entry --------------------------------------------------------------------------------

  predicate IsDigit(c: char) { '0' <= c <= '9' }

  function Digit(c: char): nat
    requires IsDigit(c)
  {
    c as int - '0' as int
  }

  function Decimal(s: string): nat
    requires forall i :: 0 <= i < |s| ==> IsDigit(s[i])
  {
    if |s| == 0 then 0 else Decimal(s[..|s| - 1]) * 10 + Digit(s[|s| - 1])
  }

  /** huaweiDescriptorKeyNumber: a canonical decimal from 1 to 255. */
  predicate CanonicalKey(key: string) {
    0 < |key| <= 3 && key[0] != '0' && (forall i :: 0 <= i < |key| ==> IsDigit(key[i])) && Decimal(key) <= 255
  }

  /** isHuaweiObservedUnit: a canonical decimal from 0 to 247. */
  predicate CanonicalUnit(value: string) {
    0 < |value| <= 3 && (|value| > 1 ==> value[0] != '0') && (forall i :: 0 <= i < |value| ==> IsDigit(value[i])) && Decimal(value) <= 247
  }

  /** The dialects differ in key 6: opaque in the documentary one, named in the
      observed one. */
  datatype Dialect = Documentary | Observed

  predicate NamedKey(dialect: Dialect, key: string) {
    key == "1" || key == "2" || key == "3" || key == "4" || key == "5" || key == "8" || (dialect.Observed? && key == "6")
  }

  /** One accepted attribute. */
  function Apply(dialect: Dialect, child: Child, p: Pair): Child {
    if p.key == "1" then child.(model := p.value)
    else if p.key == "2" then child.(softwareVersion := p.value)
    else if p.key == "3" then child.(protocolVersion := p.value)
    else if p.key == "4" then child
    else if p.key == "5" then child.(address := p.value)
    else if p.key == "8" then child.(productType := p.value)
    else if dialect.Observed? && p.key == "6" then child.(featureVersion := p.value)
    else child.(opaqueText := RetainOpaque(child.opaqueText, p))
  }

  function ApplyAll(dialect: Dialect, objectID: uint8, pairs: seq<Pair>): Child {
    if |pairs| == 0 then EmptyChild(objectID)
    else Apply(dialect, ApplyAll(dialect, objectID, pairs[..|pairs| - 1]), pairs[|pairs| - 1])
  }

  /** The attributes of a text that are all acceptable: parsed, keyed, distinct. */
  predicate AcceptablePairs(dialect: Dialect, parts: seq<string>, pairs: seq<Pair>) {
    && |pairs| == |parts|
    && (forall i :: 0 <= i < |parts| ==> ParsePair(parts[i]) == Some(pairs[i]))
    && (forall i :: 0 <= i < |pairs| ==> NamedKey(dialect, pairs[i].key) || CanonicalKey(pairs[i].key))
    && (forall i, j :: 0 <= i < j < |pairs| ==> pairs[i].key != pairs[j].key)
  }

  /** The loop both entry parsers share; the pairs are those of the parts, in order. */
  method ParsePairs(dialect: Dialect, objectID: uint8, parts: seq<string>) returns (child: Option<Child>, ghost pairs: seq<Pair>)
    ensures child.Some? <==> exists found :: AcceptablePairs(dialect, parts, found)
    ensures child.Some? ==> AcceptablePairs(dialect, parts, pairs) && child.value == ApplyAll(dialect, objectID, pairs)
  {
    var current := EmptyChild(objectID);
    var seen: set<string> := {};
    pairs := [];
    for n := 0 to |parts|
      invariant AcceptablePairs(dialect, parts[..n], pairs)
      invariant seen == set i | 0 <= i < n :: pairs[i].key
      invariant current == ApplyAll(dialect, objectID, pairs)
    {
      hide Apply, CanonicalKey;
      var parsed := ParsePair(parts[n]);
      AcceptablePart(dialect, parts, n, pairs);
      if parsed.None? || parsed.value.key in seen ||
         (!NamedKey(dialect, parsed.value.key) && !CanonicalKey(parsed.value.key))
      {
        return None, pairs;
      }
      seen := seen + {parsed.value.key};
      current := Apply(dialect, current, parsed.value);
      pairs := pairs + [parsed.value];
      assert pairs[..n] == pairs[..|pairs| - 1];
    }
    assert parts[..|parts|] == parts;
    child := Some(current);
  }

  /** One more part is acceptable exactly when it parses to a new, known or
      canonical key. */
  lemma AcceptablePart(dialect: Dialect, parts: seq<string>, n: nat, pairs: seq<Pair>)
    requires n < |parts| && AcceptablePairs(dialect, parts[..n], pairs)
    ensures var parsed := ParsePair(parts[n]);
      if parsed.Some? && (forall i :: 0 <= i < n ==> pairs[i].key != parsed.value.key) &&
         (NamedKey(dialect, parsed.value.key) || CanonicalKey(parsed.value.key))
      then AcceptablePairs(dialect, parts[..n + 1], pairs + [parsed.value])
      else !exists found :: AcceptablePairs(dialect, parts, found)
  {
    hide CanonicalKey, NamedKey;
    if found :| AcceptablePairs(dialect, parts, found) {
      forall i | 0 <= i < n
        ensures found[i] == pairs[i]
      {
        assert parts[..n][i] == parts[i];
      }
    }
  }

  function IsOpaque(dialect: Dialect, p: Pair): bool { !NamedKey(dialect, p.key) }

  /** The attributes a reader keeps as native evidence, in entry order. */
  function OpaquePairs(dialect: Dialect, pairs: seq<Pair>): (kept: seq<Pair>)
    ensures forall p :: p in kept <==> p in pairs && IsOpaque(dialect, p)
  {
    if |pairs| == 0 then []
    else
      var last := pairs[|pairs| - 1];
      assert pairs == pairs[..|pairs| - 1] + [last];
      var rest := OpaquePairs(dialect, pairs[..|pairs| - 1]);
      if IsOpaque(dialect, last) then rest + [last] else rest
  }

  lemma {:induction false} AppliedText(dialect: Dialect, objectID: uint8, pairs: seq<Pair>)
    ensures ApplyAll(dialect, objectID, pairs).opaqueText == Retain(OpaquePairs(dialect, pairs))
    ensures ApplyAll(dialect, objectID, pairs).objectID == objectID
  {
    if |pairs| > 0 {
      var front, last := pairs[..|pairs| - 1], pairs[|pairs| - 1];
      AppliedText(dialect, objectID, front);
      if IsOpaque(dialect, last) {
        var kept := OpaquePairs(dialect, pairs);
        assert kept[..|kept| - 1] == OpaquePairs(dialect, front);
      }
    }
  }

  /** For every accepted entry the retained opaque attributes read back exactly,
      in the order of the entry. */
  lemma OpaqueAttributesReadBack(dialect: Dialect, objectID: uint8, text: string, pairs: seq<Pair>)
    requires AcceptablePairs(dialect, Split(text, ';'), pairs)
    ensures ReadBack(ApplyAll(dialect, objectID, pairs).opaqueText) == OpaquePairs(dialect, pairs)
  {
    hide CanonicalKey, NamedKey;
    var parts := Split(text, ';');
    PartsLackSeparator(text, ';');
    forall p | p in pairs
      ensures WellFormedPair(p)
    {
      var i :| 0 <= i < |pairs| && pairs[i] == p;
      assert parts[i] in parts;
      ParsedPairIsWellFormed(parts[i]);
    }
    AppliedText(dialect, objectID, pairs);
    var kept := OpaquePairs(dialect, pairs);
    forall i | 0 <= i < |kept|
      ensures WellFormedPair(kept[i])
    {
      assert kept[i] in kept;
    }
    RetainedReadsBack(kept);
  }

  predicate Printable(value: string) {
    forall i :: 0 <= i < |value| ==> 0x20 as char <= value[i] <= 0x7e as char
  }

  const MAX_ENTRY_BYTES: int := 254

  /** bytes.TrimRight of NUL and space. */
  function TrimRight(value: string): (text: string)
    ensures text <= value
  {
    if |value| > 0 && (value[|value| - 1] == 0 as char || value[|value| - 1] == ' ') then TrimRight(value[..|value| - 1]) else value
  }

  /** The entries a parser accepts, and what it makes of them. */
  ghost predicate Parses(dialect: Dialect, objectID: uint8, value: string, child: Child) {
    var text := if dialect.Observed? then TrimRight(value) else value;
    && |value| > 0 && (dialect.Observed? ==> |value| <= MAX_ENTRY_BYTES && |text| > 0)
    && Printable(text)
    && (exists pairs :: AcceptablePairs(dialect, Split(text, ';'), pairs) && child == ApplyAll(dialect, objectID, pairs))
    && child.model != "" && (dialect.Observed? ==> CanonicalUnit(child.address))
  }

  lemma PairsAreUnique(dialect: Dialect, parts: seq<string>, a: seq<Pair>, b: seq<Pair>)
    requires AcceptablePairs(dialect, parts, a) && AcceptablePairs(dialect, parts, b)
    ensures a == b
  {
    hide CanonicalKey, NamedKey, ParsePair;
    forall i | 0 <= i < |parts|
      ensures a[i] == b[i]
    {
      assert ParsePair(parts[i]) == Some(a[i]) && ParsePair(parts[i]) == Some(b[i]);
    }
  }

  /** parseHuaweiDocumentaryInventoryChild and parseHuaweiObservedEntry. */
  method ParseEntry(dialect: Dialect, objectID: uint8, value: string) returns (child: Option<Child>)
    ensures child.Some? <==> exists c :: Parses(dialect, objectID, value, c)
    ensures child.Some? ==> Parses(dialect, objectID, value, child.value)
  {
    hide AcceptablePairs, ApplyAll, CanonicalUnit;
    if |value| == 0 || (dialect.Observed? && |value| > MAX_ENTRY_BYTES) {
      return None;
    }
    var text := if dialect.Observed? then TrimRight(value) else value;
    if (dialect.Observed? && |text| == 0) || !Printable(text) {
      return None;
    }
    ghost var pairs;
    child, pairs := ParsePairs(dialect, objectID, Split(text, ';'));
    if child.None? {
      return;
    }
    forall found | AcceptablePairs(dialect, Split(text, ';'), found)
      ensures found == pairs
    {
      PairsAreUnique(dialect, Split(text, ';'), found, pairs);
    }
    if child.value.model == "" || (dialect.Observed? && !CanonicalUnit(child.value.address)) {
      return None;
    }
    assert Parses(dialect, objectID, value, child.value);
  }

  /** What an accepted child retains: every opaque attribute of its entry, in
      order, and nothing of the sensitive key. */
  lemma ParsedChildRetains(dialect: Dialect, objectID: uint8, value: string, child: Child)
    requires Parses(dialect, objectID, value, child)
    ensures exists pairs ::
      && AcceptablePairs(dialect, Split(if dialect.Observed? then TrimRight(value) else value, ';'), pairs)
      && ReadBack(child.opaqueText) == OpaquePairs(dialect, pairs)
    ensures forall p :: p in ReadBack(child.opaqueText) ==> p.key != "4"
  {
    hide AcceptablePairs, ApplyAll, CanonicalUnit, ReadBack;
    var text := if dialect.Observed? then TrimRight(value) else value;
    var pairs :| AcceptablePairs(dialect, Split(text, ';'), pairs) && child == ApplyAll(dialect, objectID, pairs);
    OpaqueAttributesReadBack(dialect, objectID, text, pairs);
  }
}
