/**
 The signed installer capsule: sections appended to an installer, each followed
 by a footer of eight magic bytes and a little endian length, and read back from
 the end. Signatures, hashing and metadata decoding are parameters.
 */
module Capsule {
  import opened Common

  const FOOTER_SIZE := 16
  const SIGNATURE_SIZE := 64

  const PAYLOAD_MAGIC: Bytes := [67, 80, 65, 75, 80, 65, 89, 49]
  const COMPANION_MAGIC: Bytes := [67, 80, 65, 75, 70, 86, 83, 49]
  const BRAND_MAGIC: Bytes := [67, 80, 65, 75, 73, 67, 78, 49]
  const CAPSULE_MAGIC: Bytes := [67, 80, 65, 75, 65, 80, 80, 49]

  /** What the magics spell. */
  lemma MagicsSpell(i: nat)
    requires i < 8
    ensures PAYLOAD_MAGIC[i] == "CPAKPAY1"[i] as int && COMPANION_MAGIC[i] == "CPAKFVS1"[i] as int
    ensures BRAND_MAGIC[i] == "CPAKICN1"[i] as int && CAPSULE_MAGIC[i] == "CPAKAPP1"[i] as int
  {
  }

  datatype Failure =
    | Truncated | FooterMissing | LengthInvalid
    | SignatureInvalid | MetadataInvalid | ArchitectureWrong | DigestWrong
    | SignatureLengthWrong | TooLarge

  datatype Result<T> = Ok(value: T) | Err(failure: Failure) {
    predicate IsFailure() { Err? }
    function PropagateFailure<U>(): Result<U> requires Err? { Err(failure) }
    function Extract(): T requires Ok? { value }
  }

  // ---------- lengths ----------

  function LittleEndian(n: nat, width: nat): (r: Bytes)
    ensures |r| == width
  {
    if width == 0 then [] else [n % 256] + LittleEndian(n / 256, width - 1)
  }

  function Number(bytes: Bytes): nat
  {
    if bytes == [] then 0 else bytes[0] + 256 * Number(bytes[1..])
  }

  function Range(width: nat): nat
  {
    if width == 0 then 1 else 256 * Range(width - 1)
  }

  lemma {:induction false} NumberOfLittleEndian(n: nat, width: nat)
    requires n < Range(width)
    ensures Number(LittleEndian(n, width)) == n
  {
    if width > 0 {
      NumberOfLittleEndian(n / 256, width - 1);
      assert LittleEndian(n, width)[1..] == LittleEndian(n / 256, width - 1);
    }
  }

  lemma {:induction false} LittleEndianOfNumber(bytes: Bytes)
    ensures LittleEndian(Number(bytes), |bytes|) == bytes
  {
    if bytes != [] {
      LittleEndianOfNumber(bytes[1..]);
      assert Number(bytes) % 256 == bytes[0] && Number(bytes) / 256 == Number(bytes[1..]);
      assert bytes == [bytes[0]] + bytes[1..];
    }
  }

  lemma RangeOfEight()
    ensures Range(8) > MAXIMUM
  {
    assert Range(2) == 65536;
    assert Range(4) == 256 * (256 * Range(2));
    assert Range(6) == 256 * (256 * Range(4));
    assert Range(8) == 256 * (256 * Range(6));
  }

  lemma DivideTwice(n: nat, k: nat)
    requires k > 0
    ensures n / 256 / k == n / (256 * k)
  {
    var q, r := n / 256 / k, n / 256 % k;
    assert n == 256 * (k * q + r) + n % 256;
    QuotientIs(n, 256 * k, q, 256 * r + n % 256);
  }

  lemma QuotientIs(n: nat, k: nat, q: nat, r: nat)
    requires 0 < k && r < k && n == k * q + r
    ensures n / k == q
  {
    var p := n / k;
    assert n == k * p + n % k;
    assert p < q ==> k * (p + 1) <= k * q;
    assert q < p ==> k * (q + 1) <= k * p;
  }

  /** The lowest byte comes first: each weighs 256 times the one in front of it. */
  lemma {:induction false} ByteOfLength(n: nat, width: nat, i: nat)
    requires i < width
    ensures Range(i) > 0 && LittleEndian(n, width)[i] == n / Range(i) % 256
  {
    if i > 0 {
      ByteOfLength(n / 256, width - 1, i - 1);
      DivideTwice(n, Range(i - 1));
    }
  }

  // ---------- writing ----------

  function Footer(magic: Bytes, length: nat): Bytes { magic + LittleEndian(length, 8) }

  function Section(magic: Bytes, body: Bytes): Bytes { body + Footer(magic, |body|) }

  /** An empty optional part leaves no section behind. */
  function OptionalSection(magic: Bytes, body: Bytes): Bytes
  {
    if body == [] then [] else Section(magic, body)
  }

  function Packed(installer: Bytes, payload: Bytes, companion: Bytes, brand: Bytes): Bytes
  {
    installer + OptionalSection(BRAND_MAGIC, brand) + OptionalSection(COMPANION_MAGIC, companion)
    + Section(PAYLOAD_MAGIC, payload)
  }

  function Signed(installer: Bytes, metadata: Bytes, signature: Bytes): Bytes
  {
    installer + metadata + signature + Footer(CAPSULE_MAGIC, |metadata|)
  }

  function Sum(parts: seq<int>): int
  {
    if parts == [] then 0 else Sum(parts[..|parts| - 1]) + parts[|parts| - 1]
  }

  predicate NonNegative(parts: seq<int>) { forall i | 0 <= i < |parts| :: parts[i] >= 0 }

  lemma {:induction false} SumGrows(parts: seq<int>, i: nat)
    requires i <= |parts| && NonNegative(parts)
    ensures 0 <= Sum(parts[..i]) <= Sum(parts)
    decreases |parts|
  {
    if parts != [] {
      var rest := parts[..|parts| - 1];
      if i == |parts| {
        SumGrows(rest, |rest|);
        assert parts[..i] == parts && rest[..|rest|] == rest;
      } else {
        SumGrows(rest, i);
        assert rest[..i] == parts[..i];
      }
    }
  }

  /** Adds sizes without ever exceeding the platform limit. */
  method CheckedCapacity(parts: seq<int>) returns (r: Result<nat>)
    ensures r.Ok? <==> NonNegative(parts) && Sum(parts) <= MAXIMUM
    ensures r.Ok? ==> r.value == Sum(parts)
  {
    var capacity := 0;
    for i := 0 to |parts|
      invariant NonNegative(parts[..i])
      invariant 0 <= capacity == Sum(parts[..i]) <= MAXIMUM
    {
      SumStep(parts, i);
      if parts[i] < 0 || parts[i] > MAXIMUM - capacity {
        if NonNegative(parts) { SumGrows(parts, i + 1); }
        return Err(TooLarge);
      }
      capacity := capacity + parts[i];
    }
    assert parts[..|parts|] == parts;
    r := Ok(capacity);
  }

  method PackInstallerWithAssets(installer: Bytes, payload: Bytes, companion: Bytes, brand: Bytes)
    returns (r: Result<Bytes>)
    ensures r.Ok? <==> |installer| + |brand| + |companion| + |payload| + 3 * FOOTER_SIZE <= MAXIMUM
    ensures r.Ok? ==> r.value == Packed(installer, payload, companion, brand)
    ensures r.Ok? ==> |r.value| <= MAXIMUM
  {
    var parts := [|installer|, |brand|, FOOTER_SIZE, |companion|, FOOTER_SIZE, |payload|, FOOTER_SIZE];
    SumOfSeven(parts);
    var capacity := CheckedCapacity(parts);
    if capacity.Err? {
      return Err(capacity.failure);
    }
    var result := installer;
    if |brand| > 0 {
      result := result + brand;
      result := result + Footer(BRAND_MAGIC, |brand|);
    }
    assert result == installer + OptionalSection(BRAND_MAGIC, brand);
    if |companion| > 0 {
      result := result + companion;
      result := result + Footer(COMPANION_MAGIC, |companion|);
    }
    assert result == installer + OptionalSection(BRAND_MAGIC, brand) + OptionalSection(COMPANION_MAGIC, companion);
    result := result + payload;
    result := result + Footer(PAYLOAD_MAGIC, |payload|);
    r := Ok(result);
  }

  lemma {:induction false} SumOfSeven(p: seq<int>)
    requires |p| == 7
    ensures Sum(p) == p[0] + p[1] + p[2] + p[3] + p[4] + p[5] + p[6]
  {
    SumStep(p, 6); SumStep(p, 5); SumStep(p, 4); SumStep(p, 3); SumStep(p, 2); SumStep(p, 1); SumStep(p, 0);
    assert p[..7] == p && p[..0] == [];
  }

  lemma SumStep(p: seq<int>, i: nat)
    requires i < |p|
    ensures Sum(p[..i + 1]) == Sum(p[..i]) + p[i]
  {
    assert p[..i + 1][..i] == p[..i];
  }

  method AppendSignedMetadata(installer: Bytes, metadata: Bytes, signature: Bytes) returns (r: Result<Bytes>)
    ensures r.Ok? <==>
            |signature| == SIGNATURE_SIZE && |installer| + |metadata| + SIGNATURE_SIZE + FOOTER_SIZE <= MAXIMUM
    ensures r.Ok? ==> r.value == Signed(installer, metadata, signature) && |r.value| <= MAXIMUM
  {
    if |signature| != SIGNATURE_SIZE {
      return Err(SignatureLengthWrong);
    }
    var parts := [|installer|, |metadata|, SIGNATURE_SIZE, FOOTER_SIZE];
    SumStep(parts, 3); SumStep(parts, 2); SumStep(parts, 1); SumStep(parts, 0);
    assert parts[..4] == parts && parts[..0] == [];
    var capacity := CheckedCapacity(parts);
    if capacity.Err? {
      return Err(capacity.failure);
    }
    var result := installer;
    result := result + metadata;
    result := result + signature;
    result := result + Footer(CAPSULE_MAGIC, |metadata|);
    r := Ok(result);
  }

  // ---------- reading ----------

  /** Where a section lies: it begins at `offset`, and its body has `length` bytes. */
  datatype Extent = Extent(offset: nat, length: nat)

  predicate FooterIs(bytes: Bytes, magic: Bytes)
    requires |bytes| >= FOOTER_SIZE
  {
    bytes[|bytes| - 16..|bytes| - 8] == magic
  }

  function FooterLength(bytes: Bytes): nat
    requires |bytes| >= FOOTER_SIZE
  {
    Number(bytes[|bytes| - 8..])
  }

  /** The bytes end as a section of this kind does. */
  predicate Carries(bytes: Bytes, magic: Bytes)
  {
    |bytes| >= FOOTER_SIZE && FooterIs(bytes, magic)
  }

  /** Finds the section that ends where `bytes` ends, with `trailing` bytes between body and footer. */
  function Locate(bytes: Bytes, magic: Bytes, trailing: nat): (r: Result<Extent>)
    ensures r.Ok? ==> r.value.offset + r.value.length + trailing + FOOTER_SIZE == |bytes|
  {
    if |bytes| < FOOTER_SIZE + trailing then Err(Truncated)
    else if !FooterIs(bytes, magic) then Err(FooterMissing)
    else
      var length := FooterLength(bytes);
      if length > |bytes| - FOOTER_SIZE - trailing then Err(LengthInvalid)
      else Ok(Extent(|bytes| - FOOTER_SIZE - trailing - length, length))
  }

  /** The same, when the section may be absent. */
  function LocateOptional(bytes: Bytes, magic: Bytes): (r: Result<Option<Extent>>)
    ensures r.Ok? && r.value.Some? ==> r.value.value.offset + r.value.value.length + FOOTER_SIZE == |bytes|
  {
    if |bytes| < FOOTER_SIZE || !FooterIs(bytes, magic) then Ok(None)
    else
      var extent :- Locate(bytes, magic, 0);
      Ok(Some(extent))
  }

  /** The judgements the reader takes from elsewhere. */
  datatype Judges<!M> = Judges(
    verifies: (Bytes, Bytes) -> bool,
    decode: Bytes -> Option<M>,
    valid: M -> bool,
    runsHere: M -> bool,
    pinned: M -> Bytes,
    sha256: Bytes -> Bytes)

  /** The extents of everything a capsule carries. */
  datatype Layout = Layout(metadata: Extent, payload: Extent, companion: Option<Extent>, brand: Option<Extent>)

  datatype Contents<M> = Contents(metadata: M, payload: Bytes, companion: Bytes, brand: Bytes)

  function Body(bytes: Bytes, e: Extent): Bytes
    requires e.offset + e.length <= |bytes|
  {
    bytes[e.offset..e.offset + e.length]
  }

  function OptionalBody(bytes: Bytes, e: Option<Extent>): Bytes
    requires e.Some? ==> e.value.offset + e.value.length <= |bytes|
  {
    if e.None? then [] else Body(bytes, e.value)
  }

  /** Everything between the installer and the metadata, from the end backwards. */
  function LocateParts(base: Bytes): (r: Result<(Extent, Option<Extent>, Option<Extent>)>)
    ensures r.Ok? ==> r.value.0.offset + r.value.0.length + FOOTER_SIZE == |base|
    ensures r.Ok? && r.value.1.Some? ==>
            r.value.1.value.offset + r.value.1.value.length + FOOTER_SIZE == r.value.0.offset
    ensures r.Ok? && r.value.2.Some? ==>
              r.value.2.value.offset + r.value.2.value.length + FOOTER_SIZE ==
              if r.value.1.Some? then r.value.1.value.offset else r.value.0.offset
  {
    var payload :- Locate(base, PAYLOAD_MAGIC, 0);
    var companion :- LocateOptional(base[..payload.offset], COMPANION_MAGIC);
    var end := if companion.Some? then companion.value.offset else payload.offset;
    var brand :- LocateOptional(base[..end], BRAND_MAGIC);
    Ok((payload, companion, brand))
  }

  function ReadCapsule<M>(judges: Judges<M>, source: Bytes): (r: Result<(Layout, Contents<M>)>)
  {
    var metadata :- Locate(source, CAPSULE_MAGIC, SIGNATURE_SIZE);
    var encoded := Body(source, metadata);
    var signature := source[metadata.offset + metadata.length..metadata.offset + metadata.length + SIGNATURE_SIZE];
    if !judges.verifies(encoded, signature) then Err(SignatureInvalid)
    else
      var decoded := judges.decode(encoded);
      if decoded.None? || !judges.valid(decoded.value) then Err(MetadataInvalid)
      else if !judges.runsHere(decoded.value) then Err(ArchitectureWrong)
      else
        var base := source[..metadata.offset];
        if judges.sha256(base) != judges.pinned(decoded.value) then Err(DigestWrong)
        else
          var parts :- LocateParts(base);
          Ok((Layout(metadata, parts.0, parts.1, parts.2),
              Contents(decoded.value, Body(base, parts.0), OptionalBody(base, parts.1), OptionalBody(base, parts.2))))
  }

  // ---------- what an accepted file is made of ----------

  /** A footer that was read is the footer that would be written for the same length. */
  lemma {:induction false} FooterRead(bytes: Bytes, magic: Bytes)
    requires |bytes| >= FOOTER_SIZE && FooterIs(bytes, magic)
    ensures bytes[|bytes| - 16..] == Footer(magic, FooterLength(bytes))
  {
    var tail := bytes[|bytes| - 8..];
    LittleEndianOfNumber(tail);
    assert bytes[|bytes| - 16..] == bytes[|bytes| - 16..|bytes| - 8] + tail;
  }

  lemma {:induction false} LocatedSection(bytes: Bytes, magic: Bytes, trailing: nat, e: Extent)
    requires Locate(bytes, magic, trailing) == Ok(e)
    ensures bytes ==
            bytes[..e.offset] + Body(bytes, e) + bytes[e.offset + e.length..|bytes| - 16] + Footer(magic, e.length)
  {
    FooterRead(bytes, magic);
    InFour(bytes, e.offset, e.offset + e.length, |bytes| - 16);
  }

  lemma InFour(bytes: Bytes, a: nat, b: nat, c: nat)
    requires a <= b <= c <= |bytes|
    ensures bytes == bytes[..a] + bytes[a..b] + bytes[b..c] + bytes[c..]
  {
  }

  function PresentSection(magic: Bytes, bytes: Bytes, e: Option<Extent>): Bytes
    requires e.Some? ==> e.value.offset + e.value.length <= |bytes|
  {
    if e.None? then [] else Section(magic, Body(bytes, e.value))
  }

  /** Where the installer ends: in front of the first section found. */
  function Start(l: Layout): nat
  {
    if l.brand.Some? then l.brand.value.offset
    else if l.companion.Some? then l.companion.value.offset
    else l.payload.offset
  }

  /** The extents lie one behind the other, in front of the signature and the last footer. */
  predicate InOrder(l: Layout, size: nat)
  {
    && l.payload.offset + l.payload.length + FOOTER_SIZE == l.metadata.offset
    && l.metadata.offset + l.metadata.length + SIGNATURE_SIZE + FOOTER_SIZE == size
    && (l.companion.Some? ==> l.companion.value.offset + l.companion.value.length + FOOTER_SIZE == l.payload.offset)
    && (l.brand.Some? ==> l.brand.value.offset + l.brand.value.length + FOOTER_SIZE ==
                          if l.companion.Some? then l.companion.value.offset else l.payload.offset)
  }

  function SignatureIn(source: Bytes, l: Layout): Bytes
    requires InOrder(l, |source|)
  {
    source[l.metadata.offset + l.metadata.length..|source| - FOOTER_SIZE]
  }

  /** The file is the installer, then the sections found, the signed metadata and its footer, without gap or overlap. */
  ghost predicate Tiles(source: Bytes, l: Layout)
    requires InOrder(l, |source|)
  {
    && source[..l.metadata.offset] ==
         source[..Start(l)]
         + PresentSection(BRAND_MAGIC, source, l.brand)
         + PresentSection(COMPANION_MAGIC, source, l.companion)
         + Section(PAYLOAD_MAGIC, Body(source, l.payload))
    && source == Signed(source[..l.metadata.offset], Body(source, l.metadata), SignatureIn(source, l))
  }

  /** Where the companion, or the payload without one, begins. */
  function BrandEnd(l: Layout): nat { if l.companion.Some? then l.companion.value.offset else l.payload.offset }

  /** An optional section is left out only where the bytes do not end as one does. */
  predicate LooksForAll(source: Bytes, l: Layout)
    requires InOrder(l, |source|)
  {
    && (l.companion.None? ==> !Carries(source[..l.payload.offset], COMPANION_MAGIC))
    && (l.brand.None? ==> !Carries(source[..BrandEnd(l)], BRAND_MAGIC))
  }

  /**
   What is returned are the bodies of the sections; the metadata is signed, valid
   and for this architecture, and the digest it pins is that of all in front of it.
   */
  ghost predicate Returns<M>(judges: Judges<M>, source: Bytes, l: Layout, c: Contents<M>)
    requires InOrder(l, |source|)
  {
    && c.payload == Body(source, l.payload)
    && c.companion == OptionalBody(source, l.companion)
    && c.brand == OptionalBody(source, l.brand)
    && judges.verifies(Body(source, l.metadata), SignatureIn(source, l))
    && judges.decode(Body(source, l.metadata)) == Some(c.metadata)
    && judges.valid(c.metadata) && judges.runsHere(c.metadata)
    && judges.pinned(c.metadata) == judges.sha256(source[..l.metadata.offset])
  }

  lemma {:induction false} AcceptedTiling(source: Bytes, l: Layout)
    requires Locate(source, CAPSULE_MAGIC, SIGNATURE_SIZE) == Ok(l.metadata) && InOrder(l, |source|)
    requires LocateParts(source[..l.metadata.offset]) == Ok((l.payload, l.companion, l.brand))
    ensures Tiles(source, l)
  {
    LocatedSection(source, CAPSULE_MAGIC, SIGNATURE_SIZE, l.metadata);
    PartsTile(source[..l.metadata.offset]);
    SectionsOfPrefix(source, l);
  }

  /** The sections of the part in front of the metadata are those of the file. */
  lemma {:induction false} SectionsOfPrefix(source: Bytes, l: Layout)
    requires InOrder(l, |source|)
    ensures var base := source[..l.metadata.offset];
            && base[..Start(l)] == source[..Start(l)]
            && PresentSection(BRAND_MAGIC, base, l.brand) == PresentSection(BRAND_MAGIC, source, l.brand)
            && PresentSection(COMPANION_MAGIC, base, l.companion) ==
               PresentSection(COMPANION_MAGIC, source, l.companion)
            && Body(base, l.payload) == Body(source, l.payload)
  {
    BodyOfPrefix(source, l.metadata.offset, l.payload);
    if l.companion.Some? { BodyOfPrefix(source, l.metadata.offset, l.companion.value); }
    if l.brand.Some? { BodyOfPrefix(source, l.metadata.offset, l.brand.value); }
  }

  /**
   Every file the reader accepts is an installer followed, without gap or
   overlap, by the sections it found, the signed metadata and its footer; what
   it returns are exactly the bodies of those sections; and the digest it
   checked covers everything in front of the metadata.
   */
  lemma AcceptedTiles<M>(judges: Judges<M>, source: Bytes)
    requires ReadCapsule(judges, source).Ok?
    ensures var (l, c) := ReadCapsule(judges, source).value;
            InOrder(l, |source|) && Tiles(source, l) && LooksForAll(source, l) && Returns(judges, source, l, c)
  {
    var (l, c) := ReadCapsule(judges, source).value;
    AcceptedLocates(judges, source);
    AcceptedTiling(source, l);
    AcceptedLooks(source, l);
    BodiesOfBase(source, l);
  }

  lemma AcceptedLooks(source: Bytes, l: Layout)
    requires InOrder(l, |source|) && LocateParts(source[..l.metadata.offset]) == Ok((l.payload, l.companion, l.brand))
    ensures LooksForAll(source, l)
  {
    PrefixesOfBase(source, l);
  }

  /** What the reader found, and what it asked. */
  lemma AcceptedLocates<M>(judges: Judges<M>, source: Bytes)
    requires ReadCapsule(judges, source).Ok?
    ensures var (l, c) := ReadCapsule(judges, source).value;
            var base := source[..l.metadata.offset];
            && InOrder(l, |source|)
            && Locate(source, CAPSULE_MAGIC, SIGNATURE_SIZE) == Ok(l.metadata)
            && LocateParts(base) == Ok((l.payload, l.companion, l.brand))
            && judges.verifies(Body(source, l.metadata), SignatureIn(source, l))
            && judges.decode(Body(source, l.metadata)) == Some(c.metadata)
            && judges.valid(c.metadata) && judges.runsHere(c.metadata)
            && judges.pinned(c.metadata) == judges.sha256(base)
            && c.payload == Body(base, l.payload)
            && c.companion == OptionalBody(base, l.companion) && c.brand == OptionalBody(base, l.brand)
  {
  }

  /** The bodies are the same in the part in front of the metadata. */
  lemma BodiesOfBase(source: Bytes, l: Layout)
    requires InOrder(l, |source|)
    ensures var base := source[..l.metadata.offset];
            && Body(base, l.payload) == Body(source, l.payload)
            && OptionalBody(base, l.companion) == OptionalBody(source, l.companion)
            && OptionalBody(base, l.brand) == OptionalBody(source, l.brand)
  {
    BodyOfPrefix(source, l.metadata.offset, l.payload);
    if l.companion.Some? { BodyOfPrefix(source, l.metadata.offset, l.companion.value); }
    if l.brand.Some? { BodyOfPrefix(source, l.metadata.offset, l.brand.value); }
  }

  lemma BodyOfPrefix(bytes: Bytes, n: nat, e: Extent)
    requires e.offset + e.length <= n <= |bytes|
    ensures Body(bytes[..n], e) == Body(bytes, e)
  {
  }

  lemma PartsTile(base: Bytes)
    requires LocateParts(base).Ok?
    ensures var (payload, companion, brand) := LocateParts(base).value;
            var start :=
              if brand.Some? then brand.value.offset
              else if companion.Some? then companion.value.offset
              else payload.offset;
            base == base[..start]
                    + PresentSection(BRAND_MAGIC, base, brand) + PresentSection(COMPANION_MAGIC, base, companion)
                    + Section(PAYLOAD_MAGIC, Body(base, payload))
  {
    var (payload, companion, brand) := LocateParts(base).value;
    TileOne(base, PAYLOAD_MAGIC);
    var front := base[..payload.offset];
    if companion.Some? {
      TileOne(front, COMPANION_MAGIC);
      BodyOfPrefix(base, payload.offset, companion.value);
    }
    var cut := if companion.Some? then companion.value.offset else payload.offset;
    assert front[..cut] == base[..cut];
    if brand.Some? {
      TileOne(base[..cut], BRAND_MAGIC);
      BodyOfPrefix(base, cut, brand.value);
      assert base[..cut][..brand.value.offset] == base[..brand.value.offset];
    }
  }

  lemma TileOne(bytes: Bytes, magic: Bytes)
    requires Locate(bytes, magic, 0).Ok?
    ensures var e := Locate(bytes, magic, 0).value;
            bytes == bytes[..e.offset] + Section(magic, Body(bytes, e))
  {
    var e := Locate(bytes, magic, 0).value;
    LocatedSection(bytes, magic, 0, e);
    assert bytes[e.offset + e.length..|bytes| - 16] == [];
  }

  // ---------- reading back what was written ----------

  lemma LocateAppended(front: Bytes, magic: Bytes, body: Bytes, trailing: Bytes)
    requires |magic| == 8 && |body| <= MAXIMUM
    ensures Locate(front + body + trailing + Footer(magic, |body|), magic, |trailing|) == Ok(Extent(|front|, |body|))
  {
    var bytes := front + body + trailing + Footer(magic, |body|);
    RangeOfEight();
    NumberOfLittleEndian(|body|, 8);
    assert bytes[|bytes| - 16..|bytes| - 8] == magic;
    assert bytes[|bytes| - 8..] == LittleEndian(|body|, 8);
  }

  lemma LocateSection(front: Bytes, magic: Bytes, body: Bytes)
    requires |magic| == 8 && |body| <= MAXIMUM
    ensures var bytes := front + Section(magic, body);
            && Locate(bytes, magic, 0) == Ok(Extent(|front|, |body|))
            && bytes[..|front|] == front && Body(bytes, Extent(|front|, |body|)) == body
            && LocateOptional(bytes, magic) == Ok(Some(Extent(|front|, |body|)))
            && |bytes| >= FOOTER_SIZE && FooterIs(bytes, magic)
  {
    var bytes := front + Section(magic, body);
    LocateAppended(front, magic, body, []);
    assert bytes == front + body + [] + Footer(magic, |body|);
    assert bytes[|bytes| - 16..|bytes| - 8] == magic;
  }

  lemma MagicsDiffer()
    ensures COMPANION_MAGIC[4] == 70 && BRAND_MAGIC[4] == 73
    ensures |PAYLOAD_MAGIC| == |COMPANION_MAGIC| == |BRAND_MAGIC| == |CAPSULE_MAGIC| == 8
  {
  }

  lemma PrefixesOfBase(source: Bytes, l: Layout)
    requires InOrder(l, |source|)
    ensures var base := source[..l.metadata.offset];
            base[..l.payload.offset] == source[..l.payload.offset] && base[..BrandEnd(l)] == source[..BrandEnd(l)]
  {
  }

  /** The optional section at the end of these bytes is found, or there is none to be found. */
  lemma OptionalFound(bytes: Bytes, magic: Bytes, e: Option<Extent>, front: Bytes, whole: Bytes)
    requires |magic| == 8 && |bytes| <= |whole| <= MAXIMUM && (e.None? ==> !Carries(bytes, magic))
    requires e.Some? ==> e.value.offset == |front| && e.value.offset + e.value.length <= |whole|
    requires bytes == front + PresentSection(magic, whole, e)
    ensures LocateOptional(bytes, magic) == Ok(e)
  {
    if e.Some? {
      LocateSection(front, magic, Body(whole, e.value));
    }
  }

  /** What lies in front of each section. */
  lemma FrontsOfTiled(source: Bytes, l: Layout, brand: Bytes, companion: Bytes)
    requires InOrder(l, |source|) && Tiles(source, l)
    requires brand == PresentSection(BRAND_MAGIC, source, l.brand)
    requires companion == PresentSection(COMPANION_MAGIC, source, l.companion)
    ensures source[..BrandEnd(l)] == source[..Start(l)] + brand
    ensures source[..l.payload.offset] == source[..Start(l)] + brand + companion
  {
    MagicsDiffer();
    var fronts, payload := source[..Start(l)] + brand + companion, Section(PAYLOAD_MAGIC, Body(source, l.payload));
    assert source[..l.metadata.offset] == fronts + payload;
    assert |fronts| == l.payload.offset;
    assert source[..l.payload.offset] == (fronts + payload)[..|fronts|];
    assert |source[..Start(l)] + brand| == BrandEnd(l);
    assert source[..BrandEnd(l)] == fronts[..BrandEnd(l)];
  }

  lemma PayloadFound(source: Bytes, l: Layout)
    requires |source| <= MAXIMUM && InOrder(l, |source|) && Tiles(source, l)
    ensures Locate(source[..l.metadata.offset], PAYLOAD_MAGIC, 0) == Ok(l.payload)
  {
    MagicsDiffer();
    FrontsOfTiled(source, l, PresentSection(BRAND_MAGIC, source, l.brand),
                  PresentSection(COMPANION_MAGIC, source, l.companion));
    LocateSection(source[..l.payload.offset], PAYLOAD_MAGIC, Body(source, l.payload));
  }

  lemma PartsFound(source: Bytes, l: Layout)
    requires |source| <= MAXIMUM && InOrder(l, |source|) && Tiles(source, l) && LooksForAll(source, l)
    ensures LocateParts(source[..l.metadata.offset]) == Ok((l.payload, l.companion, l.brand))
  {
    MagicsDiffer();
    var brand := PresentSection(BRAND_MAGIC, source, l.brand);
    var companion := PresentSection(COMPANION_MAGIC, source, l.companion);
    FrontsOfTiled(source, l, brand, companion);
    PrefixesOfBase(source, l);
    PayloadFound(source, l);
    OptionalFound(source[..l.payload.offset], COMPANION_MAGIC, l.companion, source[..BrandEnd(l)], source);
    OptionalFound(source[..BrandEnd(l)], BRAND_MAGIC, l.brand, source[..Start(l)], source);
  }

  lemma MetadataFound(source: Bytes, l: Layout)
    requires |source| <= MAXIMUM && InOrder(l, |source|) && Tiles(source, l)
    ensures Locate(source, CAPSULE_MAGIC, SIGNATURE_SIZE) == Ok(l.metadata)
    ensures source[l.metadata.offset + l.metadata.length..l.metadata.offset + l.metadata.length + SIGNATURE_SIZE] ==
            SignatureIn(source, l)
  {
    MagicsDiffer();
    LocateAppended(source[..l.metadata.offset], CAPSULE_MAGIC, Body(source, l.metadata), SignatureIn(source, l));
  }

  /**
   The reader accepts a file, and returns just this, if and only if the file is
   tiled by an installer, the sections it looks for, the signed metadata and its
   footer, and the metadata is signed, valid, for this architecture, and pins
   what lies in front of it.
   */
  lemma AcceptedExactly<M>(judges: Judges<M>, source: Bytes, l: Layout, c: Contents<M>)
    requires |source| <= MAXIMUM
    ensures ReadCapsule(judges, source) == Ok((l, c)) <==>
            InOrder(l, |source|) && Tiles(source, l) && LooksForAll(source, l) && Returns(judges, source, l, c)
  {
    if ReadCapsule(judges, source) == Ok((l, c)) {
      AcceptedTiles(judges, source);
    }
    if InOrder(l, |source|) && Tiles(source, l) && LooksForAll(source, l) && Returns(judges, source, l, c) {
      TiledIsRead(judges, source, l, c);
    }
  }

  lemma TiledIsRead<M>(judges: Judges<M>, source: Bytes, l: Layout, c: Contents<M>)
    requires |source| <= MAXIMUM && InOrder(l, |source|) && Tiles(source, l) && LooksForAll(source, l)
    requires Returns(judges, source, l, c)
    ensures ReadCapsule(judges, source) == Ok((l, c))
  {
    MetadataFound(source, l);
    PartsFound(source, l);
    BodiesOfBase(source, l);
  }

  /** No brand section, or one without a body, is read at the end of these bytes. */
  predicate NoBrandIn(bytes: Bytes)
  {
    Carries(bytes, BRAND_MAGIC) ==> FooterLength(bytes) == 0
  }

  /**
   When the reader returns what was packed. With a brand icon, always. Without
   one, the end of the installer must not read as the footer of a section the
   reader still looks for, unless that section would have no body.
   */
  predicate Unambiguous(installer: Bytes, companion: Bytes, brand: Bytes)
  {
    || brand != []
    || (if companion == [] && Carries(installer, COMPANION_MAGIC)
        then FooterLength(installer) == 0 && NoBrandIn(installer[..|installer| - FOOTER_SIZE])
        else NoBrandIn(installer))
  }

  /** The bodies the reader finds in front of the payload. */
  ghost predicate Finds(base: Bytes, payload: Bytes, companion: Bytes, brand: Bytes)
  {
    && LocateParts(base).Ok?
    && Body(base, LocateParts(base).value.0) == payload
    && OptionalBody(base, LocateParts(base).value.1) == companion
    && OptionalBody(base, LocateParts(base).value.2) == brand
  }

  /** The optional sections alone, in front of a payload that was already found. */
  function LocateAssets(front: Bytes): (r: Result<(Option<Extent>, Option<Extent>)>)
    ensures r.Ok? && r.value.0.Some? ==> r.value.0.value.offset + r.value.0.value.length + FOOTER_SIZE == |front|
    ensures r.Ok? && r.value.1.Some? ==>
              r.value.1.value.offset + r.value.1.value.length + FOOTER_SIZE ==
              if r.value.0.Some? then r.value.0.value.offset else |front|
  {
    var companion :- LocateOptional(front, COMPANION_MAGIC);
    var brand :- LocateOptional(if companion.Some? then front[..companion.value.offset] else front, BRAND_MAGIC);
    Ok((companion, brand))
  }

  ghost predicate FindsAssets(front: Bytes, companion: Bytes, brand: Bytes)
  {
    && LocateAssets(front).Ok?
    && OptionalBody(front, LocateAssets(front).value.0) == companion
    && OptionalBody(front, LocateAssets(front).value.1) == brand
  }

  lemma PartsOfPacked(front: Bytes, payload: Bytes, companion: Bytes, brand: Bytes)
    requires |payload| <= MAXIMUM
    ensures Finds(front + Section(PAYLOAD_MAGIC, payload), payload, companion, brand) <==>
            FindsAssets(front, companion, brand)
  {
    var base := front + Section(PAYLOAD_MAGIC, payload);
    LocateSection(front, PAYLOAD_MAGIC, payload);
    assert base[..|front|] == front;
    if LocateAssets(front).Ok? {
      var (c, b) := LocateAssets(front).value;
      if c.Some? {
        assert base[..c.value.offset] == front[..c.value.offset];
        BodyOfPrefix(base, |front|, c.value);
      }
      if b.Some? { BodyOfPrefix(base, |front|, b.value); }
    } else {
      var c := LocateOptional(front, COMPANION_MAGIC);
      if c.Ok? && c.value.Some? { assert base[..c.value.value.offset] == front[..c.value.value.offset]; }
    }
  }

  lemma AssetsOfPacked(installer: Bytes, companion: Bytes, brand: Bytes)
    requires |companion| <= MAXIMUM && |brand| <= MAXIMUM
    ensures FindsAssets(installer + OptionalSection(BRAND_MAGIC, brand) + OptionalSection(COMPANION_MAGIC, companion),
                        companion, brand)
            <==> Unambiguous(installer, companion, brand)
  {
    MagicsDiffer();
    var branded := installer + OptionalSection(BRAND_MAGIC, brand);
    var front := branded + OptionalSection(COMPANION_MAGIC, companion);
    if brand != [] {
      LocateSection(installer, BRAND_MAGIC, brand);
    } else {
      assert branded == installer;
    }
    if companion != [] {
      LocateSection(branded, COMPANION_MAGIC, companion);
      if brand != [] {
        BodyOfPrefix(front, |branded|, Extent(|installer|, |brand|));
      } else {
        BrandOfInstaller(installer);
      }
    } else {
      assert front == branded;
      if brand != [] {
        assert !FooterIs(front, COMPANION_MAGIC);
      } else if Carries(installer, COMPANION_MAGIC) {
        BrandOfInstaller(installer[..|installer| - FOOTER_SIZE]);
      } else {
        BrandOfInstaller(installer);
      }
    }
  }

  /** Looking for a brand section where none was packed finds nothing exactly when none can be read there. */
  lemma BrandOfInstaller(bytes: Bytes)
    ensures var r := LocateOptional(bytes, BRAND_MAGIC);
            (r.Ok? && OptionalBody(bytes, r.value) == []) <==> NoBrandIn(bytes)
  {
  }

  /**
   Packing, signing and reading returns the payload, companion, brand icon and
   metadata that went in, exactly when the packed file is unambiguous. The
   judges are asked for what signing provides: a signature that verifies and
   metadata that decodes, is acceptable here and pins the digest of the file.
   */
  lemma RoundTrip<M>(judges: Judges<M>, installer: Bytes, payload: Bytes, companion: Bytes, brand: Bytes,
                     encoded: Bytes, signature: Bytes, metadata: M)
    requires |payload| <= MAXIMUM && |companion| <= MAXIMUM && |brand| <= MAXIMUM && |encoded| <= MAXIMUM
    requires |signature| == SIGNATURE_SIZE
    requires judges.verifies(encoded, signature) && judges.decode(encoded) == Some(metadata)
    requires judges.valid(metadata) && judges.runsHere(metadata)
    requires judges.pinned(metadata) == judges.sha256(Packed(installer, payload, companion, brand))
    ensures var r := ReadCapsule(judges, Signed(Packed(installer, payload, companion, brand), encoded, signature));
            (r.Ok? && r.value.1 == Contents(metadata, payload, companion, brand)) <==>
            Unambiguous(installer, companion, brand)
  {
    var packed := Packed(installer, payload, companion, brand);
    var source := Signed(packed, encoded, signature);
    MagicsDiffer();
    LocateAppended(packed, CAPSULE_MAGIC, encoded, signature);
    assert Body(source, Extent(|packed|, |encoded|)) == encoded;
    assert source[|packed| + |encoded|..|packed| + |encoded| + SIGNATURE_SIZE] == signature;
    assert source[..|packed|] == packed;
    var front := installer + OptionalSection(BRAND_MAGIC, brand) + OptionalSection(COMPANION_MAGIC, companion);
    PartsOfPacked(front, payload, companion, brand);
    AssetsOfPacked(installer, companion, brand);
  }

  /**
   An installer that itself ends like a companion section with a body, packed
   without a companion: the reader takes that body for one.
   */
  lemma AmbiguousInstaller(front: Bytes, hidden: Bytes)
    requires hidden != [] && |hidden| <= MAXIMUM && !Carries(front, BRAND_MAGIC)
    ensures var installer := front + Section(COMPANION_MAGIC, hidden);
            && Packed(installer, [], [], []) == installer + Section(PAYLOAD_MAGIC, [])
            && FindsAssets(installer, hidden, []) && !FindsAssets(installer, [], []) && !Unambiguous(installer, [], [])
  {
    MagicsDiffer();
    LocateSection(front, COMPANION_MAGIC, hidden);
    var installer := front + Section(COMPANION_MAGIC, hidden);
    assert installer + [] == installer;
  }
}
