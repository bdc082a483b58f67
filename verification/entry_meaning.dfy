/** What an accepted device-list entry says: which attribute each field of the child
    is, which keys and addresses are canonical, and what is trimmed. */
module EntryMeaning {
  import opened Foundation
  import opened InventoryEntries

  // ---- canonical numbers ------------------------------------------------------------------

  lemma {:induction false} DecimalOfNumeral(n: nat)
    ensures forall i :: 0 <= i < |Numeral(n)| ==> IsDigit(Numeral(n)[i])
    ensures Decimal(Numeral(n)) == n
    ensures |Numeral(n)| > 1 || n > 0 ==> Numeral(n)[0] != '0'
    ensures n < 1000 ==> |Numeral(n)| <= 3
    decreases n
  {
    var text := Numeral(n);
    if n < 10 {
      assert text[..0] == [];
    } else {
      DecimalOfNumeral(n / 10);
      assert text[..|text| - 1] == Numeral(n / 10);
      if n < 1000 {
        LengthOfTenth(n);
      }
    }
  }

  lemma LengthOfTenth(n: nat)
    requires 10 <= n < 1000
    ensures |Numeral(n)| <= 3
  {
    assert |Numeral(n / 10)| <= 2;
  }

  lemma {:induction false} NumeralOfDecimal(text: string)
    requires |text| > 0 && (forall i :: 0 <= i < |text| ==> IsDigit(text[i])) && (|text| > 1 ==> text[0] != '0')
    ensures Numeral(Decimal(text)) == text
    ensures text[0] != '0' ==> Decimal(text) > 0
    decreases |text|
  {
    var front, last := text[..|text| - 1], text[|text| - 1];
    assert DigitOf(Digit(last)) == last;
    if |text| > 1 {
      NumeralOfDecimal(front);
      assert Decimal(text) / 10 == Decimal(front) && Decimal(text) % 10 == Digit(last);
    } else {
      assert Decimal(front) == 0;
    }
    assert text == front + [last];
  }

  /** The canonical keys are exactly the decimal texts of 1 to 255. */
  lemma CanonicalKeyIsNumeral(key: string)
    ensures CanonicalKey(key) <==> exists n :: 1 <= n <= 255 && key == Numeral(n)
  {
    if CanonicalKey(key) {
      NumeralOfDecimal(key);
      assert 1 <= Decimal(key) <= 255 && key == Numeral(Decimal(key));
    }
    if n :| 1 <= n <= 255 && key == Numeral(n) {
      DecimalOfNumeral(n);
    }
  }

  /** The canonical addresses are exactly the decimal texts of 0 to 247. */
  lemma CanonicalUnitIsNumeral(value: string)
    ensures CanonicalUnit(value) <==> exists n :: 0 <= n <= 247 && value == Numeral(n)
  {
    if CanonicalUnit(value) {
      NumeralOfDecimal(value);
      assert 0 <= Decimal(value) <= 247 && value == Numeral(Decimal(value));
    }
    if n :| 0 <= n <= 247 && value == Numeral(n) {
      DecimalOfNumeral(n);
    }
  }

  // ---- padding ------------------------------------------------------------------------------

  predicate IsPadding(c: char) { c == ' ' || c as int == 0 }

  /** What is trimmed is exactly the padding at the end. */
  lemma {:induction false} TrimIsPadding(value: string, text: string)
    ensures text == TrimRight(value) <==>
      && text <= value && (forall i :: |text| <= i < |value| ==> IsPadding(value[i]))
      && (|text| > 0 ==> !IsPadding(text[|text| - 1]))
    decreases |value|
  {
    if |value| > 0 && IsPadding(value[|value| - 1]) {
      TrimIsPadding(value[..|value| - 1], text);
    }
  }

  // ---- attributes and fields -------------------------------------------------------------------

  /** value is what the pairs give for the key, empty if they do not. */
  predicate Gives(pairs: seq<Pair>, key: string, value: string) {
    (exists p :: p in pairs && p.key == key && p.value == value) || (value == "" && forall p :: p in pairs ==> p.key != key)
  }

  /** Every field of the child is the attribute of its own key. */
  predicate FieldsGiven(dialect: Dialect, objectID: uint8, pairs: seq<Pair>, child: Child) {
    && child.objectID == objectID
    && Gives(pairs, "1", child.model) && Gives(pairs, "2", child.softwareVersion) && Gives(pairs, "3", child.protocolVersion)
    && Gives(pairs, "5", child.address) && Gives(pairs, "8", child.productType)
    && (if dialect.Observed? then Gives(pairs, "6", child.featureVersion) else child.featureVersion == "")
  }

  predicate DistinctKeys(pairs: seq<Pair>) {
    forall i, j :: 0 <= i < j < |pairs| ==> pairs[i].key != pairs[j].key
  }

  lemma GivesLonger(front: seq<Pair>, last: Pair, key: string, value: string)
    requires DistinctKeys(front + [last])
    ensures last.key == key ==> Gives(front + [last], key, last.value)
    ensures last.key != key && Gives(front, key, value) ==> Gives(front + [last], key, value)
  {
    var pairs := front + [last];
    assert last in pairs;
    assert forall p :: p in pairs <==> p in front || p == last;
  }

  lemma {:induction false} AppliedFields(dialect: Dialect, objectID: uint8, pairs: seq<Pair>)
    requires DistinctKeys(pairs)
    ensures FieldsGiven(dialect, objectID, pairs, ApplyAll(dialect, objectID, pairs))
    decreases |pairs|
  {
    hide Gives, RetainOpaque;
    if |pairs| == 0 {
      NothingGiven();
    } else {
      var front, last := pairs[..|pairs| - 1], pairs[|pairs| - 1];
      assert pairs == front + [last];
      AppliedFields(dialect, objectID, front);
      var child := ApplyAll(dialect, objectID, front);
      GivesLonger(front, last, "1", child.model);
      GivesLonger(front, last, "2", child.softwareVersion);
      GivesLonger(front, last, "3", child.protocolVersion);
      GivesLonger(front, last, "5", child.address);
      GivesLonger(front, last, "6", child.featureVersion);
      GivesLonger(front, last, "8", child.productType);
    }
  }

  lemma NothingGiven()
    ensures forall key :: Gives([], key, "")
  {
  }

  /** An accepted entry: its parts are key=value pairs, none with a further equals
      sign, no key twice, every key a decimal text of 1 to 255; and the child's fields
      and opaque attributes are those of the pairs. */
  lemma ParsedEntryMeans(dialect: Dialect, objectID: uint8, value: string, child: Child)
    requires Parses(dialect, objectID, value, child)
    ensures var text := if dialect.Observed? then TrimRight(value) else value;
      exists pairs: seq<Pair> ::
        && |pairs| == |Split(text, ';')| && DistinctKeys(pairs)
        && (forall i :: 0 <= i < |pairs| ==>
            WellFormedPair(pairs[i]) && Split(text, ';')[i] == pairs[i].key + "=" + pairs[i].value && KeyText(pairs[i].key))
        && FieldsGiven(dialect, objectID, pairs, child)
        && ReadBack(child.opaqueText) == OpaquePairs(dialect, pairs)
    ensures child.model != ""
    ensures dialect.Observed? ==> exists n :: 0 <= n <= 247 && child.address == Numeral(n)
  {
    hide ApplyAll, CanonicalUnit, ReadBack, Gives, ParsePair, CanonicalKey, WellFormedPair, FieldsGiven;
    var text := if dialect.Observed? then TrimRight(value) else value;
    var parts := Split(text, ';');
    var pairs: seq<Pair> :| AcceptablePairs(dialect, parts, pairs) && child == ApplyAll(dialect, objectID, pairs);
    PartsLackSeparator(text, ';');
    forall i | 0 <= i < |pairs|
      ensures WellFormedPair(pairs[i]) && parts[i] == pairs[i].key + "=" + pairs[i].value && KeyText(pairs[i].key)
    {
      assert parts[i] in parts;
      ParsedPairIsWellFormed(parts[i]);
      NamedKeyIsNumeral(dialect, pairs[i].key);
    }
    AppliedFields(dialect, objectID, pairs);
    OpaqueAttributesReadBack(dialect, objectID, text, pairs);
    CanonicalUnitIsNumeral(child.address);
  }

  ghost predicate KeyText(key: string) {
    exists n :: 1 <= n <= 255 && key == Numeral(n)
  }

  lemma NamedKeyIsNumeral(dialect: Dialect, key: string)
    ensures NamedKey(dialect, key) || CanonicalKey(key) ==> KeyText(key)
  {
    CanonicalKeyIsNumeral(key);
    assert Numeral(1) == "1" && Numeral(2) == "2" && Numeral(3) == "3" && Numeral(4) == "4" && Numeral(5) == "5"
        && Numeral(6) == "6" && Numeral(8) == "8";
  }
}
