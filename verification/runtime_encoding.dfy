/** The two canonical byte encodings behind runtime digests: the ordered
    dependency set and the claim outcomes of one attempt. */
module RuntimeEncoding {
  import opened Foundation

  type byte = uint8

  type Text = seq<byte>

  /** An ordered dependency: its identity and version texts. */
  datatype Dependency = Dependency(id: Text, version: Text)

  datatype Claim = Claim(sequence: uint64, outcome: Text)

  /** The bytes of an ASCII text. */
  function Bytes(text: string): (bytes: Text)
    ensures |bytes| == |text|
    ensures forall i :: 0 <= i < |text| && text[i] as int < 0x80 ==> bytes[i] == text[i] as int
  {
    seq(|text|, i requires 0 <= i < |text| => text[i] as int % 0x100)
  }

  const DEPENDENCY_DOMAIN: Text := Bytes("helianthus.modbusreg.runtime-dependent-identities/v1") + [0]
  const CLAIM_DOMAIN: Text := Bytes("helianthus.modbusreg.claim-outcomes/v1") + [0]

  // ---- big-endian numbers ----------------------------------------------------------------------

  function BigEndian(n: nat, width: nat): (bytes: Text)
    ensures |bytes| == width
  {
    if width == 0 then [] else BigEndian(n / 0x100, width - 1) + [n % 0x100]
  }

  function Value(bytes: Text): nat {
    if |bytes| == 0 then 0 else Value(bytes[..|bytes| - 1]) * 0x100 + bytes[|bytes| - 1]
  }

  function Power(width: nat): (p: nat)
    ensures p > 0
  {
    if width == 0 then 1 else Power(width - 1) * 0x100
  }

  /** Reading a number back. */
  lemma {:induction false} ValueOfBigEndian(n: nat, width: nat)
    requires n < Power(width)
    ensures Value(BigEndian(n, width)) == n
  {
    if width > 0 {
      ValueOfBigEndian(n / 0x100, width - 1);
      var bytes := BigEndian(n, width);
      assert bytes[..|bytes| - 1] == BigEndian(n / 0x100, width - 1);
    }
  }

  lemma EightBytes()
    ensures Power(8) == 0x1_0000_0000_0000_0000
  {
    assert Power(1) == 0x100;
    assert Power(2) == 0x1_0000;
    assert Power(3) == 0x100_0000;
    assert Power(4) == 0x1_0000_0000;
    assert Power(5) == 0x100_0000_0000;
    assert Power(6) == 0x1_0000_0000_0000;
    assert Power(7) == 0x100_0000_0000_0000;
  }

  function Number(n: uint64): (bytes: Text)
    ensures |bytes| == 8
  {
    BigEndian(n, 8)
  }

  lemma NumberIsInjective(a: uint64, b: uint64)
    requires Number(a) == Number(b)
    ensures a == b
  {
    EightBytes();
    ValueOfBigEndian(a, 8);
    ValueOfBigEndian(b, 8);
  }

  // ---- length-prefixed texts ----------------------------------------------------------------------

  predicate Measured(v: Text) { |v| <= 0xFFFF_FFFF_FFFF_FFFF }

  function Prefixed(v: Text): (bytes: Text)
    requires Measured(v)
    ensures |bytes| == 8 + |v|
  {
    Number(|v|) + v
  }

  /** Front and rest of equal sequences with fronts of one length. */
  lemma SplitsAt(a: Text, x: Text, b: Text, y: Text)
    requires a + x == b + y && |a| == |b|
    ensures a == b && x == y
  {
    assert (a + x)[..|a|] == a && (b + y)[..|a|] == b;
    assert (a + x)[|a|..] == x && (b + y)[|a|..] == y;
  }

  /** A number in front of anything is read off uniquely. */
  lemma NumberSplits(a: uint64, x: Text, b: uint64, y: Text)
    requires Number(a) + x == Number(b) + y
    ensures a == b && x == y
  {
    SplitsAt(Number(a), x, Number(b), y);
    NumberIsInjective(a, b);
  }

  lemma PrefixedIs(v: Text, x: Text)
    requires Measured(v)
    ensures Prefixed(v) + x == Number(|v|) + (v + x)
  {
    hide Number;
  }

  /** A prefixed text in front of anything is read off uniquely. */
  lemma PrefixedSplits(v: Text, x: Text, w: Text, y: Text)
    requires Measured(v) && Measured(w) && Prefixed(v) + x == Prefixed(w) + y
    ensures v == w && x == y
  {
    hide Prefixed, Number;
    PrefixedIs(v, x);
    PrefixedIs(w, y);
    NumberSplits(|v|, v + x, |w|, w + y);
    SplitsAt(v, x, w, y);
  }

  // ---- the dependency set ------------------------------------------------------------------------------

  predicate MeasuredSet(ds: seq<Dependency>) {
    |ds| <= 0xFFFF_FFFF_FFFF_FFFF && forall i :: 0 <= i < |ds| ==> Measured(ds[i].id) && Measured(ds[i].version)
  }

  function Body(ds: seq<Dependency>): Text
    requires forall i :: 0 <= i < |ds| ==> Measured(ds[i].id) && Measured(ds[i].version)
  {
    if |ds| == 0 then [] else Prefixed(ds[0].id) + (Prefixed(ds[0].version) + Body(ds[1..]))
  }

  /** The canonical encoding: domain, count, then every identity and version. */
  function Encoded(ds: seq<Dependency>): Text
    requires MeasuredSet(ds)
  {
    DEPENDENCY_DOMAIN + (Number(|ds|) + Body(ds))
  }

  lemma {:induction false} BodyIsInjective(a: seq<Dependency>, b: seq<Dependency>)
    requires MeasuredSet(a) && MeasuredSet(b) && |a| == |b| && Body(a) == Body(b)
    ensures a == b
    decreases |a|
  {
    if |a| > 0 {
      PrefixedSplits(a[0].id, Prefixed(a[0].version) + Body(a[1..]), b[0].id, Prefixed(b[0].version) + Body(b[1..]));
      PrefixedSplits(a[0].version, Body(a[1..]), b[0].version, Body(b[1..]));
      BodyIsInjective(a[1..], b[1..]);
      assert a == [a[0]] + a[1..] && b == [b[0]] + b[1..];
    }
  }

  /** Different ordered dependency lists never share an encoding. */
  lemma EncodingIsInjective(a: seq<Dependency>, b: seq<Dependency>)
    requires MeasuredSet(a) && MeasuredSet(b) && Encoded(a) == Encoded(b)
    ensures a == b
  {
    var x, y := Number(|a|) + Body(a), Number(|b|) + Body(b);
    assert (DEPENDENCY_DOMAIN + x)[|DEPENDENCY_DOMAIN|..] == x && (DEPENDENCY_DOMAIN + y)[|DEPENDENCY_DOMAIN|..] == y;
    NumberSplits(|a|, Body(a), |b|, Body(b));
    BodyIsInjective(a, b);
  }

  function BodySize(ds: seq<Dependency>): nat {
    if |ds| == 0 then 0
    else BodySize(ds[..|ds| - 1]) + 16 + |ds[|ds| - 1].id| + |ds[|ds| - 1].version|
  }

  lemma Regroup(a: Text, b: Text, c: Text, d: Text)
    ensures a + (b + (c + d)) == a + (b + c) + d
  {
  }

  lemma {:induction false} BodyAppend(ds: seq<Dependency>, d: Dependency)
    requires MeasuredSet(ds) && Measured(d.id) && Measured(d.version)
    ensures Body(ds + [d]) == Body(ds) + Prefixed(d.id) + Prefixed(d.version)
    decreases |ds|
  {
    hide Prefixed;
    var longer := ds + [d];
    if |ds| == 0 {
      assert longer[1..] == [];
      assert Body(longer) == Prefixed(d.id) + (Prefixed(d.version) + []);
    } else {
      var head, middle, tail := Prefixed(ds[0].id), Prefixed(ds[0].version), Prefixed(d.id) + Prefixed(d.version);
      assert longer[1..] == ds[1..] + [d];
      BodyAppend(ds[1..], d);
      assert Body(longer[1..]) == Body(ds[1..]) + tail;
      Regroup(head, middle, Body(ds[1..]), tail);
      assert Body(ds) + tail == Body(ds) + Prefixed(d.id) + Prefixed(d.version);
    }
  }

  /** Nonempty texts, and room for every one of them. */
  predicate Encodable(ds: seq<Dependency>, maximum: int) {
    && |ds| > 0 && maximum > 0
    && (forall i :: 0 <= i < |ds| ==> ds[i].id != [] && ds[i].version != [])
    && |DEPENDENCY_DOMAIN| + 8 + BodySize(ds) <= maximum
  }

  lemma {:induction false} BodySizeGrows(ds: seq<Dependency>, n: nat)
    requires n <= |ds|
    ensures BodySize(ds[..n]) <= BodySize(ds)
    decreases |ds|
  {
    if n < |ds| {
      BodySizeGrows(ds[..|ds| - 1], n);
      assert ds[..|ds| - 1][..n] == ds[..n];
    } else {
      assert ds[..n] == ds;
    }
  }

  /** The guards of the size loop for one text, written so nothing overflows. */
  predicate Room(size: nat, v: Text, maximum: int) {
    v != [] && !(size > maximum - 8 || |v| > maximum - size - 8)
  }

  /** The size pass: refuses exactly what does not fit, and computes the exact size. */
  method Measure(ds: seq<Dependency>, maximum: int) returns (size: Option<nat>)
    requires |ds| > 0 && maximum > 0
    ensures size.Some? <==> Encodable(ds, maximum)
    ensures size.Some? ==> size.value == |DEPENDENCY_DOMAIN| + 8 + BodySize(ds)
  {
    var total := |DEPENDENCY_DOMAIN| + 8;
    for n := 0 to |ds|
      invariant total == |DEPENDENCY_DOMAIN| + 8 + BodySize(ds[..n])
      invariant forall i :: 0 <= i < n ==> ds[i].id != [] && ds[i].version != []
      invariant n > 0 ==> total <= maximum
    {
      assert ds[..n + 1][..n] == ds[..n];
      BodySizeGrows(ds, n + 1);
      if !Room(total, ds[n].id, maximum) {
        return None;
      }
      total := total + 8 + |ds[n].id|;
      if !Room(total, ds[n].version, maximum) {
        return None;
      }
      total := total + 8 + |ds[n].version|;
    }
    assert ds[..|ds|] == ds;
    if total > maximum {
      return None;
    }
    return Some(total);
  }

  lemma BodyStep(ds: seq<Dependency>, n: nat)
    requires MeasuredSet(ds) && n < |ds|
    ensures Body(ds[..n + 1]) == Body(ds[..n]) + Prefixed(ds[n].id) + Prefixed(ds[n].version)
    ensures BodySize(ds[..n + 1]) == BodySize(ds[..n]) + |Prefixed(ds[n].id)| + |Prefixed(ds[n].version)|
  {
    hide Body, Prefixed;
    assert ds[..n + 1] == ds[..n] + [ds[n]] && ds[..n + 1][..n] == ds[..n];
    BodyAppend(ds[..n], ds[n]);
  }

  lemma NoBody(ds: seq<Dependency>)
    ensures Body(ds[..0]) == [] && BodySize(ds[..0]) == 0
  {
  }

  /** encodeRuntimeDependencySet: the bytes written are the canonical encoding,
      of exactly the precomputed size, never above the maximum. */
  method Encode(ds: seq<Dependency>, maximum: int) returns (encoded: Option<Text>)
    requires maximum <= 0xFFFF_FFFF_FFFF_FFFF && |ds| <= 0xFFFF_FFFF_FFFF_FFFF
    ensures encoded.Some? <==> Encodable(ds, maximum)
    ensures encoded.Some? ==> MeasuredSet(ds) && encoded.value == Encoded(ds)
    ensures encoded.Some? ==> |encoded.value| == |DEPENDENCY_DOMAIN| + 8 + BodySize(ds) <= maximum
  {
    hide Body, BodySize, Prefixed;
    if |ds| == 0 || maximum <= 0 {
      return None;
    }
    var size := Measure(ds, maximum);
    if size.None? {
      return None;
    }
    MeasuredByRoom(ds, maximum);
    NoBody(ds);
    var body: Text := [];
    for n := 0 to |ds|
      invariant body == Body(ds[..n]) && |body| == BodySize(ds[..n])
    {
      BodyStep(ds, n);
      body := body + Prefixed(ds[n].id) + Prefixed(ds[n].version);
    }
    assert ds[..|ds|] == ds;
    return Some(DEPENDENCY_DOMAIN + (Number(|ds|) + body));
  }

  lemma {:induction false} MeasuredByRoom(ds: seq<Dependency>, maximum: int)
    requires |ds| <= 0xFFFF_FFFF_FFFF_FFFF && BodySize(ds) <= maximum <= 0xFFFF_FFFF_FFFF_FFFF
    ensures MeasuredSet(ds)
    decreases |ds|
  {
    if |ds| > 0 {
      MeasuredByRoom(ds[..|ds| - 1], maximum);
      forall i | 0 <= i < |ds| - 1
        ensures Measured(ds[i].id) && Measured(ds[i].version)
      {
        assert ds[i] == ds[..|ds| - 1][i];
      }
    }
  }

  // ---- claim outcomes -------------------------------------------------------------------------------------

  predicate MeasuredClaims(cs: seq<Claim>) {
    |cs| <= 0xFFFF_FFFF_FFFF_FFFF && forall i :: 0 <= i < |cs| ==> Measured(cs[i].outcome)
  }

  /** Ordinal, sequence, length and outcome of every claim from position n on. */
  function ClaimsFrom(cs: seq<Claim>, n: nat): Text
    requires MeasuredClaims(cs) && n <= |cs|
    decreases |cs| - n
  {
    if n == |cs| then [] else Number(n) + (Number(cs[n].sequence) + (Prefixed(cs[n].outcome) + ClaimsFrom(cs, n + 1)))
  }

  /** The preimage publishedProjection hashes. */
  function Preimage(cs: seq<Claim>): Text
    requires MeasuredClaims(cs)
  {
    CLAIM_DOMAIN + (Number(|cs|) + ClaimsFrom(cs, 0))
  }

  lemma {:induction false} ClaimsAreInjective(a: seq<Claim>, b: seq<Claim>, n: nat)
    requires MeasuredClaims(a) && MeasuredClaims(b) && |a| == |b| && n <= |a| && ClaimsFrom(a, n) == ClaimsFrom(b, n)
    ensures a[n..] == b[n..]
    decreases |a| - n
  {
    if n < |a| {
      var x, y := Prefixed(a[n].outcome) + ClaimsFrom(a, n + 1), Prefixed(b[n].outcome) + ClaimsFrom(b, n + 1);
      NumberSplits(n, Number(a[n].sequence) + x, n, Number(b[n].sequence) + y);
      NumberSplits(a[n].sequence, x, b[n].sequence, y);
      PrefixedSplits(a[n].outcome, ClaimsFrom(a, n + 1), b[n].outcome, ClaimsFrom(b, n + 1));
      ClaimsAreInjective(a, b, n + 1);
      assert a[n..] == [a[n]] + a[n + 1..] && b[n..] == [b[n]] + b[n + 1..];
    }
  }

  /** Different claim outcomes never share a digest preimage. */
  lemma PreimageIsInjective(a: seq<Claim>, b: seq<Claim>)
    requires MeasuredClaims(a) && MeasuredClaims(b) && Preimage(a) == Preimage(b)
    ensures a == b
  {
    var x, y := Number(|a|) + ClaimsFrom(a, 0), Number(|b|) + ClaimsFrom(b, 0);
    assert (CLAIM_DOMAIN + x)[|CLAIM_DOMAIN|..] == x && (CLAIM_DOMAIN + y)[|CLAIM_DOMAIN|..] == y;
    NumberSplits(|a|, ClaimsFrom(a, 0), |b|, ClaimsFrom(b, 0));
    ClaimsAreInjective(a, b, 0);
    assert a[0..] == a && b[0..] == b;
  }

  lemma ClaimStep(bytes: Text, cs: seq<Claim>, n: nat)
    requires MeasuredClaims(cs) && n < |cs|
    ensures bytes + ClaimsFrom(cs, n) ==
      bytes + Number(n) + Number(cs[n].sequence) + Prefixed(cs[n].outcome) + ClaimsFrom(cs, n + 1)
  {
    hide Number, Prefixed;
    Chain(bytes, Number(n), Number(cs[n].sequence), Prefixed(cs[n].outcome), ClaimsFrom(cs, n + 1));
  }

  lemma Chain(a: Text, b: Text, c: Text, d: Text, e: Text)
    ensures a + (b + (c + (d + e))) == a + b + c + d + e
  {
  }

  lemma NoMoreClaims(cs: seq<Claim>)
    requires MeasuredClaims(cs)
    ensures ClaimsFrom(cs, |cs|) == [] && CLAIM_DOMAIN + Number(|cs|) + ClaimsFrom(cs, 0) == Preimage(cs)
  {
    assert ClaimsFrom(cs, |cs|) == [];
    hide Number, Bytes, ClaimsFrom;
    Associates(CLAIM_DOMAIN, Number(|cs|), ClaimsFrom(cs, 0));
  }

  lemma Associates(a: Text, b: Text, c: Text)
    ensures a + b + c == a + (b + c)
  {
  }

  /** The hash writes of publishedProjection, in order. */
  method WritePreimage(cs: seq<Claim>) returns (bytes: Text)
    requires MeasuredClaims(cs)
    ensures bytes == Preimage(cs)
  {
    hide Bytes, Prefixed, Number, ClaimsFrom;
    NoMoreClaims(cs);
    bytes := CLAIM_DOMAIN + Number(|cs|);
    for n := 0 to |cs|
      invariant bytes + ClaimsFrom(cs, n) == Preimage(cs)
    {
      ClaimStep(bytes, cs, n);
      bytes := bytes + Number(n) + Number(cs[n].sequence) + Prefixed(cs[n].outcome);
    }
  }
}
