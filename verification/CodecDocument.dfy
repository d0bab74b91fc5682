/** Complete encoded values: magic, version, body, byte limit. */
module CodecDocument {
  import opened Bytes
  import opened Scalars
  import opened Model
  import opened Codec
  import opened CodecCanonical

  // ---- Which types need the production codec ----------------------------------------------------

  datatype Visit = Visit(found: bool, seen: set<U64>)

  function VisitType(catalog: Catalog, ty: ScalarType, seen: set<U64>, depth: nat): Option<Visit>
    decreases MAX_DEPTH - depth, 0, 0
  {
    if depth >= MAX_DEPTH then None else
    match ty
    case TUuid => Some(Visit(true, seen))
    case TDate => Some(Visit(true, seen))
    case TTimestamp => Some(Visit(true, seen))
    case TDuration => Some(Visit(true, seen))
    case TBytes => Some(Visit(true, seen))
    case TMap(_) => Some(Visit(true, seen))
    case TDecimal(p, s) => if ValidDecimalType(p, s) then Some(Visit(true, seen)) else None
    case TRef(id) =>
      if id in seen then Some(Visit(false, seen))
      else if id !in catalog then None
      else VisitType(catalog, catalog[id], seen + {id}, depth + 1)
    case TRecord(columns) => VisitTypes(catalog, seq(|columns|, i requires 0 <= i < |columns| => columns[i].ty), seen,
                                        depth + 1)
    case TEnum(variants) => VisitTypes(catalog, ArgTypes(variants), seen, depth + 1)
    case TTuple(items) => VisitTypes(catalog, items, seen, depth + 1)
    case TOption(inner) => VisitType(catalog, inner, seen, depth + 1)
    case TList(inner) => VisitType(catalog, inner, seen, depth + 1)
    case TNamed(_) => None
    case _ => Some(Visit(false, seen))
  }

  function VisitTypes(catalog: Catalog, types: seq<ScalarType>, seen: set<U64>, depth: nat): Option<Visit>
    decreases MAX_DEPTH - depth, 1, |types|
  {
    if types == [] then Some(Visit(false, seen)) else
    var first := VisitType(catalog, types[0], seen, depth);
    if first.None? then None else
    var rest := VisitTypes(catalog, types[1..], first.value.seen, depth);
    if rest.None? then None else Some(Visit(first.value.found || rest.value.found, rest.value.seen))
  }

  function ArgTypes(variants: seq<Variant>): seq<ScalarType> {
    if variants == [] then [] else variants[0].args + ArgTypes(variants[1..])
  }

  /** The version check shared by both directions. */
  predicate Permitted(catalog: Catalog, ty: ScalarType, version: nat) {
    var needs := VisitType(catalog, ty, {}, 0);
    && VALUE_CODEC_VERSION <= version <= MAP_VALUE_CODEC_VERSION
    && needs.Some? && (needs.value.found ==> version >= PRODUCTION_VALUE_CODEC_VERSION)
  }

  // ---- Documents --------------------------------------------------------------------------------

  const HEADER: nat := 6

  function EncodeDocument(catalog: Catalog, ty: ScalarType, v: Value, version: nat): Option<Bytestring> {
    if !Permitted(catalog, ty, version) then None else
    var body := Encode(catalog, ty, v, version, 0);
    if body.None? || HEADER + |body.value| > MAX_VALUE_BYTES then None
    else Some(MAGIC + BigEndian(version, 2) + body.value)
  }

  function DecodeDocument(catalog: Catalog, ty: ScalarType, b: Bytestring): Option<Value> {
    if |b| > MAX_VALUE_BYTES || |b| < HEADER || b[..4] != MAGIC then None else
    var version := FromBigEndian(b[4..6]);
    if !Permitted(catalog, ty, version) then None else
    var v := Decode(catalog, ty, b[6..], version, 0);
    if v.None? || v.value.rest != [] then None else Some(v.value.value)
  }

  function DocumentVersion(b: Bytestring): nat {
    if |b| < HEADER then 0 else FromBigEndian(b[4..6])
  }

  lemma HeaderParts(version: nat, body: Bytestring)
    requires version < 256
    ensures var b := MAGIC + BigEndian(version, 2) + body;
            |b| == HEADER + |body| && b[..4] == MAGIC && b[4..6] == BigEndian(version, 2) && b[6..] == body
            && FromBigEndian(b[4..6]) == version
  {
    Pow256Values();
    BigEndianRoundTrip(version, 2);
  }

  /** A document decodes to the value it was made from. */
  lemma DocumentRoundTrip(catalog: Catalog, ty: ScalarType, v: Value, version: nat)
    requires WellFormedCatalog(catalog) && WellFormed(ty) && WellTyped(catalog, ty, v, 0)
    requires EncodeDocument(catalog, ty, v, version).Some?
    ensures DecodeDocument(catalog, ty, EncodeDocument(catalog, ty, v, version).value) == Some(v)
    ensures DocumentVersion(EncodeDocument(catalog, ty, v, version).value) == version
  {
    hide Encode, Decode, WellTyped, VisitType, BigEndian, FromBigEndian;
    var body := Encode(catalog, ty, v, version, 0).value;
    HeaderParts(version, body);
    RoundTrip(catalog, ty, v, version, 0, []);
    assert body + [] == body;
  }

  /** No accepted document is a proper prefix of another: truncating one, or appending
      to one, is always rejected. */
  lemma DocumentPrefixFree(catalog: Catalog, ty: ScalarType, a: Bytestring, b: Bytestring)
    requires DecodeDocument(catalog, ty, a).Some? && DecodeDocument(catalog, ty, b).Some? && a <= b
    ensures a == b
  {
    hide Decode, VisitType, FromBigEndian;
    var version, more := DocumentVersion(a), b[|a|..];
    assert b == a + more;
    assert a[4..6] == b[4..6] && b[6..] == a[6..] + more;
    DecodeExtends(catalog, ty, a[6..], more, version, 0);
    assert [] + more == more;
  }

  /** Every accepted document holds a normal-form value whose own document has the same
      length and decodes to it again. */
  lemma DocumentReencodes(catalog: Catalog, ty: ScalarType, b: Bytestring)
    requires WellFormedCatalog(catalog) && WellFormed(ty) && DecodeDocument(catalog, ty, b).Some?
    ensures var v := DecodeDocument(catalog, ty, b).value;
            && WellTyped(catalog, ty, v, 0)
            && var again := EncodeDocument(catalog, ty, v, DocumentVersion(b));
            && again.Some? && |again.value| == |b|
            && DecodeDocument(catalog, ty, again.value) == Some(v)
  {
    hide Encode, Decode, WellTyped, VisitType, FromBigEndian;
    var v, version := DecodeDocument(catalog, ty, b).value, DocumentVersion(b);
    Reencodes(catalog, ty, b[6..], version, 0);
    DocumentRoundTrip(catalog, ty, v, version);
  }
}
