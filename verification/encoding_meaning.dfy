/** Reading the canonical encodings back: the bytes of a number, and a reader of each
    encoding that recovers what was encoded. */
module EncodingMeaning {
  import opened Foundation
  import opened RuntimeEncoding

  /** Numbers are eight bytes, the most significant first: from left to right each byte
      counts 256 times the next. */
  lemma NumberBytes(n: uint64)
    ensures var b := Number(n);
      n == ((((((b[0] as int * 256 + b[1]) * 256 + b[2]) * 256 + b[3]) * 256 + b[4]) * 256 + b[5]) * 256 + b[6]) * 256 + b[7]
  {
    hide Shifted, Number;
    EightBytes();
    ShiftedOut(n, 8);
    ByteOf(n, 0);
    ByteOf(n, 1);
    ByteOf(n, 2);
    ByteOf(n, 3);
    ByteOf(n, 4);
    ByteOf(n, 5);
    ByteOf(n, 6);
    ByteOf(n, 7);
  }

  /** n without its low bytes. */
  function Shifted(n: nat, bytes: nat): nat {
    if bytes == 0 then n else Shifted(n / 0x100, bytes - 1)
  }

  lemma {:induction false} ShiftedOut(n: nat, width: nat)
    requires n < Power(width)
    ensures Shifted(n, width) == 0
  {
    if width > 0 {
      ShiftedOut(n / 0x100, width - 1);
    }
  }

  lemma {:induction false} ShiftedOnce(n: nat, bytes: nat)
    ensures Shifted(n, bytes + 1) == Shifted(n, bytes) / 0x100
  {
    if bytes > 0 {
      ShiftedOnce(n / 0x100, bytes - 1);
    }
  }

  lemma {:induction false} ByteIs(n: nat, width: nat, i: nat)
    requires i < width
    ensures BigEndian(n, width)[i] as int == Shifted(n, width - 1 - i) % 0x100
  {
    if i < width - 1 {
      ByteIs(n / 0x100, width - 1, i);
    }
  }

  lemma ByteOf(n: uint64, i: nat)
    requires i < 8
    ensures Shifted(n, 7 - i) == Shifted(n, 8 - i) * 256 + Number(n)[i] as int
    ensures Shifted(n, 0) == n
  {
    hide Shifted;
    ByteIs(n, 8, i);
    ShiftedOnce(n, 7 - i);
    assert Shifted(n, 0) == n by { ShiftedByNone(n); }
  }

  lemma ShiftedByNone(n: nat)
    ensures Shifted(n, 0) == n
  {
  }

  // ---- a reader -------------------------------------------------------------------------------

  datatype Taken<T> = Taken(value: T, rest: Text)

  /** A number in front of the rest. */
  function TakeNumber(bytes: Text): Option<Taken<nat>> {
    if |bytes| < 8 then None else Some(Taken(Value(bytes[..8]), bytes[8..]))
  }

  /** A length and that many bytes in front of the rest. */
  function TakeText(bytes: Text): Option<Taken<Text>> {
    var size := TakeNumber(bytes);
    if size.None? || |size.value.rest| < size.value.value then None
    else Some(Taken(size.value.rest[..size.value.value], size.value.rest[size.value.value..]))
  }

  lemma TakenNumber(n: uint64, rest: Text)
    ensures TakeNumber(Number(n) + rest) == Some(Taken(n as nat, rest))
  {
    EightBytes();
    ValueOfBigEndian(n, 8);
    assert (Number(n) + rest)[..8] == Number(n) && (Number(n) + rest)[8..] == rest;
  }

  lemma TakenText(v: Text, rest: Text)
    requires Measured(v)
    ensures TakeText(Prefixed(v) + rest) == Some(Taken(v, rest))
  {
    hide Number, Prefixed;
    PrefixedIs(v, rest);
    TakenNumber(|v|, v + rest);
    assert (v + rest)[..|v|] == v && (v + rest)[|v|..] == rest;
  }

  /** Identity and version of every dependency, in order, and nothing behind. */
  function ReadDependencies(bytes: Text, count: nat): Option<seq<Dependency>> {
    if count == 0 then (if bytes == [] then Some([]) else None)
    else
      var id := TakeText(bytes);
      if id.None? then None
      else
        var version := TakeText(id.value.rest);
        if version.None? then None
        else
          var others := ReadDependencies(version.value.rest, count - 1);
          if others.None? then None else Some([Dependency(id.value.value, version.value.value)] + others.value)
  }

  function ReadSet(bytes: Text): Option<seq<Dependency>> {
    if !(DEPENDENCY_DOMAIN <= bytes) then None
    else
      var count := TakeNumber(bytes[|DEPENDENCY_DOMAIN|..]);
      if count.None? then None else ReadDependencies(count.value.rest, count.value.value)
  }

  lemma {:induction false} DependenciesReadBack(ds: seq<Dependency>)
    requires MeasuredSet(ds)
    ensures ReadDependencies(Body(ds), |ds|) == Some(ds)
    decreases |ds|
  {
    hide Prefixed, TakeText;
    if |ds| > 0 {
      TakenText(ds[0].id, Prefixed(ds[0].version) + Body(ds[1..]));
      TakenText(ds[0].version, Body(ds[1..]));
      DependenciesReadBack(ds[1..]);
      assert ds == [Dependency(ds[0].id, ds[0].version)] + ds[1..];
    }
  }

  /** The canonical encoding of an ordered dependency set reads back as that set. */
  lemma EncodedSetReadsBack(ds: seq<Dependency>)
    requires MeasuredSet(ds)
    ensures ReadSet(Encoded(ds)) == Some(ds)
  {
    hide Body, ReadDependencies;
    var rest := Number(|ds|) + Body(ds);
    assert Encoded(ds)[|DEPENDENCY_DOMAIN|..] == rest;
    TakenNumber(|ds|, Body(ds));
    DependenciesReadBack(ds);
  }

  /** Ordinal, sequence and outcome of every claim from position n on. */
  function ReadClaimsFrom(bytes: Text, n: nat, count: nat): Option<seq<Claim>>
    requires n <= count
    decreases count - n
  {
    if n == count then (if bytes == [] then Some([]) else None)
    else
      var ordinal := TakeNumber(bytes);
      if ordinal.None? || ordinal.value.value != n then None
      else
        var sequence := TakeNumber(ordinal.value.rest);
        if sequence.None? || sequence.value.value > MAX_UINT64 then None
        else
          var outcome := TakeText(sequence.value.rest);
          if outcome.None? then None
          else
            var others := ReadClaimsFrom(outcome.value.rest, n + 1, count);
            if others.None? then None else Some([Claim(sequence.value.value, outcome.value.value)] + others.value)
  }

  function ReadClaims(bytes: Text): Option<seq<Claim>> {
    if !(CLAIM_DOMAIN <= bytes) then None
    else
      var count := TakeNumber(bytes[|CLAIM_DOMAIN|..]);
      if count.None? then None else ReadClaimsFrom(count.value.rest, 0, count.value.value)
  }

  lemma {:induction false} ClaimsReadBackFrom(cs: seq<Claim>, n: nat)
    requires MeasuredClaims(cs) && n <= |cs|
    ensures ReadClaimsFrom(ClaimsFrom(cs, n), n, |cs|) == Some(cs[n..])
    decreases |cs| - n
  {
    hide Prefixed, TakeText, TakeNumber, Number;
    if n < |cs| {
      TakenNumber(n, Number(cs[n].sequence) + (Prefixed(cs[n].outcome) + ClaimsFrom(cs, n + 1)));
      TakenNumber(cs[n].sequence, Prefixed(cs[n].outcome) + ClaimsFrom(cs, n + 1));
      TakenText(cs[n].outcome, ClaimsFrom(cs, n + 1));
      ClaimsReadBackFrom(cs, n + 1);
      assert cs[n..] == [Claim(cs[n].sequence, cs[n].outcome)] + cs[n + 1..];
    } else {
      assert cs[n..] == [];
    }
  }

  /** The preimage of the claim digest reads back as the claims. */
  lemma PreimageReadsBack(cs: seq<Claim>)
    requires MeasuredClaims(cs)
    ensures ReadClaims(Preimage(cs)) == Some(cs)
  {
    hide ClaimsFrom, ReadClaimsFrom;
    var rest := Number(|cs|) + ClaimsFrom(cs, 0);
    assert Preimage(cs)[|CLAIM_DOMAIN|..] == rest;
    TakenNumber(|cs|, ClaimsFrom(cs, 0));
    ClaimsReadBackFrom(cs, 0);
    assert cs[0..] == cs;
  }
}
