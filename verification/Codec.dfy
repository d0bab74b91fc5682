/** The versioned, type-directed value encoding, as functions on byte strings:
    what the encoder writes, what the decoder accepts, and why they agree. */
module Codec {
  import opened Bytes
  import opened Scalars
  import opened Model

  type Bytestring = seq<Byte>

  const MAGIC: Bytestring := [85, 73, 68, 86]
  const VALUE_CODEC_VERSION: nat := 1
  const PRODUCTION_VALUE_CODEC_VERSION: nat := 2
  const MAP_VALUE_CODEC_VERSION: nat := 3
  const MAX_VALUE_BYTES: int := 16 * 1024 * 1024
  const MAX_COLLECTION_ITEMS: int := 1_000_000
  const U32_LIMIT: int := 0x1_0000_0000

  // ---- Encoding ---------------------------------------------------------------------------------

  function Length(n: nat): Option<Bytestring> {
    if n < U32_LIMIT then Some(BigEndian(n, 4)) else None
  }

  function Sized(s: Bytestring): Option<Bytestring> {
    Concat(Length(|s|), Some(s))
  }

  /** The bytes of a value nested `depth` levels deep, or None where the encoder fails
      for a reason other than the byte limit. */
  function Encode(catalog: Catalog, ty: ScalarType, v: Value, version: nat, depth: nat): Option<Bytestring>
    decreases MAX_DEPTH - depth, 0, 0
  {
    if depth >= MAX_DEPTH then None else
    match ty
    case TRef(id) =>
      if v.Named? && v.typeId == id && id in catalog
      then Concat(Some(BigEndian(id, 8)), Encode(catalog, catalog[id], v.value, version, depth + 1)) else None
    case TRecord(columns) =>
      if v.Record?
      then Concat(Length(|columns|), EncodeFields(catalog, ById(columns), v.fields, version, depth + 1)) else None
    case TTuple(types) =>
      if v.Tuple? && |v.items| == |types|
      then Concat(Length(|types|), EncodeItems(catalog, types, v.items, version, depth + 1)) else None
    case TOption(inner) =>
      if !v.Opt? then None
      else if v.opt.None? then Some([0])
      else Concat(Some([1]), Encode(catalog, inner, v.opt.value, version, depth + 1))
    case TList(inner) =>
      if v.List? && |v.items| <= MAX_COLLECTION_ITEMS
      then Concat(Length(|v.items|), EncodeList(catalog, inner, v.items, version, depth + 1)) else None
    case TMap(inner) =>
      if version >= MAP_VALUE_CODEC_VERSION && v.Map? && |v.entries| <= MAX_MAP_ENTRIES
      then Concat(Length(|v.entries|), EncodeEntries(catalog, inner, v.entries, version, depth + 1)) else None
    case TEnum(variants) =>
      if !v.Enum? then None else
      var variant := FindVariant(variants, v.id);
      if variant.None? || |v.args| != |variant.value.args| then None
      else Concat(Concat(Some(BigEndian(v.id, 8)), Length(|v.args|)),
                  EncodeItems(catalog, variant.value.args, v.args, version, depth + 1))
    case TNamed(_) => None
    case _ => EncodeScalar(ty, v)
  }

  predicate IsScalar(ty: ScalarType) {
    || ty.TInt? || ty.TFloat? || ty.TBool? || ty.TText? || ty.TUuid? || ty.TDate?
    || ty.TTimestamp? || ty.TDuration? || ty.TBytes? || ty.TDecimal?
  }

  function EncodeScalar(ty: ScalarType, v: Value): Option<Bytestring>
    requires IsScalar(ty)
  {
    match ty
    case TInt => if v.Int? then Some(BigEndian(ToWord(v.i, TWO_64), 8)) else None
    case TFloat => if v.Float? && IsFinite(v.bits) then Some(BigEndian(NormalFloat(v.bits), 8)) else None
    case TBool => if v.Bool? then Some([BoolRank(v.b)]) else None
    case TUuid => if v.Uuid? then Some(v.uuid) else None
    case TDate => if v.Date? then Some(BigEndian(ToWord(v.days, U32_LIMIT), 4)) else None
    case TTimestamp => if v.Timestamp? then Some(BigEndian(ToWord(v.at, TWO_64), 8)) else None
    case TDuration => if v.Duration? then Some(BigEndian(ToWord(v.micros, TWO_64), 8)) else None
    case TDecimal(_, _) => if v.Decimal? then Some(BigEndian(ToWord(v.coefficient, TWO_128), 16)) else None
    case TBytes => if v.Bytes? then Sized(v.blob) else None
    case TText => if v.Text? then Sized(v.text) else None
  }

  function EncodeItems(
    catalog: Catalog, types: seq<ScalarType>, vs: seq<Value>, version: nat, depth: nat): Option<Bytestring>
    requires |types| == |vs|
    decreases MAX_DEPTH - depth, 1, |types|
  {
    if types == [] then Some([])
    else Concat(Encode(catalog, types[0], vs[0], version, depth),
                EncodeItems(catalog, types[1..], vs[1..], version, depth))
  }

  function EncodeField(
    catalog: Catalog, c: Column, fields: map<string, Value>, version: nat, depth: nat): Option<Bytestring>
    decreases MAX_DEPTH - depth, 1, 0
  {
    if c.name !in fields then None
    else Concat(Some(BigEndian(c.id, 8)), Encode(catalog, c.ty, fields[c.name], version, depth))
  }

  function EncodeFields(
    catalog: Catalog, columns: seq<Column>, fields: map<string, Value>, version: nat, depth: nat): Option<Bytestring>
    decreases MAX_DEPTH - depth, 2, |columns|
  {
    if columns == [] then Some([])
    else Concat(EncodeField(catalog, columns[0], fields, version, depth),
                EncodeFields(catalog, columns[1..], fields, version, depth))
  }

  function EncodeList(catalog: Catalog, inner: ScalarType, vs: seq<Value>, version: nat, depth: nat): Option<Bytestring>
    decreases MAX_DEPTH - depth, 1, |vs|
  {
    if vs == [] then Some([])
    else Concat(Encode(catalog, inner, vs[0], version, depth), EncodeList(catalog, inner, vs[1..], version, depth))
  }

  function EncodeEntry(catalog: Catalog, inner: ScalarType, e: Entry, version: nat, depth: nat): Option<Bytestring>
    decreases MAX_DEPTH - depth, 1, 0
  {
    if |e.key| > MAX_MAP_KEY_BYTES then None
    else Concat(Sized(e.key), Encode(catalog, inner, e.value, version, depth))
  }

  function EncodeEntries(
    catalog: Catalog, inner: ScalarType, es: seq<Entry>, version: nat, depth: nat): Option<Bytestring>
    decreases MAX_DEPTH - depth, 2, |es|
  {
    if es == [] then Some([])
    else Concat(EncodeEntry(catalog, inner, es[0], version, depth),
                EncodeEntries(catalog, inner, es[1..], version, depth))
  }

  // ---- Decoding ---------------------------------------------------------------------------------

  /** What was read and what is left. */
  datatype Read<+T> = Read(value: T, rest: Bytestring)

  function Take(input: Bytestring, n: nat): Option<Read<Bytestring>> {
    if n <= |input| then Some(Read(input[..n], input[n..])) else None
  }

  function Word(input: Bytestring, width: nat): (r: Option<Read<nat>>)
    ensures r.Some? ==> r.value.value < Pow256(width)
  {
    if width <= |input| then Some(Read(FromBigEndian(input[..width]), input[width..])) else None
  }

  function StableId(input: Bytestring): Option<Read<U64>> {
    Pow256Values();
    var w := Word(input, 8);
    if w.None? then None else Some(Read(w.value.value, w.value.rest))
  }

  function TakeSized(input: Bytestring): Option<Read<Bytestring>> {
    var n := Word(input, 4);
    if n.None? then None else Take(n.value.rest, n.value.value)
  }

  function Decode(catalog: Catalog, ty: ScalarType, input: Bytestring, version: nat, depth: nat): Option<Read<Value>>
    decreases MAX_DEPTH - depth, 0, 0
  {
    if depth >= MAX_DEPTH then None else
    match ty
    case TRef(id) =>
      var actual := StableId(input);
      if actual.None? || actual.value.value != id || id !in catalog then None else
      var v := Decode(catalog, catalog[id], actual.value.rest, version, depth + 1);
      if v.None? then None else Some(Read(Named(id, v.value.value), v.value.rest))
    case TRecord(columns) =>
      var count := Word(input, 4);
      if count.None? || count.value.value != |columns| then None else
      var fields := DecodeFields(catalog, columns, |columns|, {}, map[], count.value.rest, version, depth + 1);
      if fields.None? then None else Some(Read(Record(fields.value.value), fields.value.rest))
    case TTuple(types) =>
      var count := Word(input, 4);
      if count.None? || count.value.value != |types| then None else
      var items := DecodeItems(catalog, types, count.value.rest, version, depth + 1);
      if items.None? then None else Some(Read(Tuple(items.value.value), items.value.rest))
    case TOption(inner) =>
      var tag := Word(input, 1);
      if tag.None? || tag.value.value > 1 then None
      else if tag.value.value == 0 then Some(Read(Opt(None), tag.value.rest)) else
      var v := Decode(catalog, inner, tag.value.rest, version, depth + 1);
      if v.None? then None else Some(Read(Opt(Some(v.value.value)), v.value.rest))
    case TList(inner) =>
      var count := Word(input, 4);
      if count.None? || count.value.value > MAX_COLLECTION_ITEMS
         || count.value.value > |count.value.rest| then None else
      var items := DecodeList(catalog, inner, count.value.value, count.value.rest, version, depth + 1);
      if items.None? then None else Some(Read(List(items.value.value), items.value.rest))
    case TMap(inner) =>
      var count := Word(input, 4);
      if version < MAP_VALUE_CODEC_VERSION || count.None? || count.value.value > MAX_MAP_ENTRIES then None else
      var entries := DecodeEntries(catalog, inner, count.value.value, None, count.value.rest, version, depth + 1);
      if entries.None? then None else Some(Read(Map(entries.value.value), entries.value.rest))
    case TEnum(variants) =>
      var id := StableId(input);
      if id.None? then None else
      var variant := FindVariant(variants, id.value.value);
      var count := Word(id.value.rest, 4);
      if variant.None? || count.None? || count.value.value != |variant.value.args| then None else
      var args := DecodeItems(catalog, variant.value.args, count.value.rest, version, depth + 1);
      if args.None? then None
      else Some(Read(Enum(variant.value.name, args.value.value, variant.value.id), args.value.rest))
    case TNamed(_) => None
    case _ => DecodeScalar(ty, input)
  }

  function DecodeScalar(ty: ScalarType, input: Bytestring): Option<Read<Value>>
    requires IsScalar(ty)
  {
    match ty
    case TText =>
      var s := TakeSized(input);
      if s.None? || !IsUtf8(s.value.value) then None else Some(Read(Text(s.value.value), s.value.rest))
    case TBytes =>
      var s := TakeSized(input);
      if s.None? || |s.value.value| > MAX_BYTES then None else Some(Read(Bytes(s.value.value), s.value.rest))
    case TUuid =>
      var s := Take(input, 16);
      if s.None? then None else Some(Read(Uuid(s.value.value), s.value.rest))
    case _ =>
      var w := Word(input, WordWidth(ty));
      if w.None? then None else
      var v := FromScalarWord(ty, w.value.value);
      if v.None? then None else Some(Read(v.value, w.value.rest))
  }

  predicate IsWordType(ty: ScalarType) {
    IsScalar(ty) && !ty.TText? && !ty.TBytes? && !ty.TUuid?
  }

  function WordWidth(ty: ScalarType): nat
    requires IsWordType(ty)
  {
    match ty
    case TBool => 1
    case TDate => 4
    case TDecimal(_, _) => 16
    case _ => 8
  }

  function FromScalarWord(ty: ScalarType, w: nat): Option<Value>
    requires IsWordType(ty) && w < Pow256(WordWidth(ty))
  {
    Pow256Values();
    match ty
    case TInt => Some(Int(FromWord(w, TWO_64)))
    case TFloat => if IsFinite(w) then Some(Float(NormalFloat(w))) else None
    case TBool => if w <= 1 then Some(Bool(w == 1)) else None
    case TDate => if IsDate(FromWord(w, U32_LIMIT)) then Some(Date(FromWord(w, U32_LIMIT))) else None
    case TTimestamp => if IsTimestamp(FromWord(w, TWO_64)) then Some(Timestamp(FromWord(w, TWO_64))) else None
    case TDuration => Some(Duration(FromWord(w, TWO_64)))
    case TDecimal(p, s) =>
      if FitsDecimal(FromWord(w, TWO_128), p, s) then Some(Decimal(FromWord(w, TWO_128), s)) else None
  }

  function DecodeItems(
    catalog: Catalog, types: seq<ScalarType>, input: Bytestring, version: nat,
    depth: nat): (r: Option<Read<seq<Value>>>)
    ensures r.Some? ==> |r.value.value| == |types|
    decreases MAX_DEPTH - depth, 1, |types|
  {
    if types == [] then Some(Read([], input)) else
    var v := Decode(catalog, types[0], input, version, depth);
    if v.None? then None else
    var vs := DecodeItems(catalog, types[1..], v.value.rest, version, depth);
    if vs.None? then None else Some(Read([v.value.value] + vs.value.value, vs.value.rest))
  }

  /** Fields arrive in any order, each known column once. */
  function DecodeFields(catalog: Catalog, columns: seq<Column>, count: nat, seen: set<U64>, fields: map<string, Value>,
                        input: Bytestring, version: nat, depth: nat): Option<Read<map<string, Value>>>
    decreases MAX_DEPTH - depth, 1, count
  {
    if count == 0 then Some(Read(fields, input)) else
    var id := StableId(input);
    if id.None? then None else
    var column := FindColumn(columns, id.value.value);
    if column.None? || column.value.id in seen then None else
    var v := Decode(catalog, column.value.ty, id.value.rest, version, depth);
    if v.None? then None
    else DecodeFields(catalog, columns, count - 1, seen + {column.value.id}, fields[column.value.name := v.value.value],
                      v.value.rest, version, depth)
  }

  function DecodeList(
    catalog: Catalog, inner: ScalarType, count: nat, input: Bytestring, version: nat,
    depth: nat): (r: Option<Read<seq<Value>>>)
    ensures r.Some? ==> |r.value.value| == count
    decreases MAX_DEPTH - depth, 1, count
  {
    if count == 0 then Some(Read([], input)) else
    var v := Decode(catalog, inner, input, version, depth);
    if v.None? then None else
    var vs := DecodeList(catalog, inner, count - 1, v.value.rest, version, depth);
    if vs.None? then None else Some(Read([v.value.value] + vs.value.value, vs.value.rest))
  }

  function DecodeEntries(catalog: Catalog, inner: ScalarType, count: nat, previous: Option<Text>,
                         input: Bytestring, version: nat, depth: nat): (r: Option<Read<seq<Entry>>>)
    ensures r.Some? ==> |r.value.value| == count
    decreases MAX_DEPTH - depth, 1, count
  {
    if count == 0 then Some(Read([], input)) else
    var key := TakeSized(input);
    if key.None? || |key.value.value| > MAX_MAP_KEY_BYTES || !IsUtf8(key.value.value) then None
    else if previous.Some? && !Precedes(previous.value, key.value.value) then None else
    var v := Decode(catalog, inner, key.value.rest, version, depth);
    if v.None? then None else
    var es := DecodeEntries(catalog, inner, count - 1, Some(key.value.value), v.value.rest, version, depth);
    if es.None? then None else Some(Read([Entry(key.value.value, v.value.value)] + es.value.value, es.value.rest))
  }

  // ---- Normal form ------------------------------------------------------------------------------

  /** A value of the type as coercion leaves it: one zero, exact decimals, every field
      present and no other, the variant's own name, map entries in key order. */
  predicate WellTyped(catalog: Catalog, ty: ScalarType, v: Value, depth: nat)
    decreases MAX_DEPTH - depth, 0
  {
    depth < MAX_DEPTH &&
    match ty
    case TInt => v.Int?
    case TFloat => v.Float? && IsFinite(v.bits) && NormalFloat(v.bits) == v.bits
    case TBool => v.Bool?
    case TText => v.Text?
    case TUuid => v.Uuid?
    case TDate => v.Date?
    case TTimestamp => v.Timestamp?
    case TDuration => v.Duration?
    case TBytes => v.Bytes?
    case TDecimal(p, s) => v.Decimal? && v.scale == s && FitsDecimal(v.coefficient, p, s)
    case TRef(id) => v.Named? && v.typeId == id && id in catalog && WellTyped(catalog, catalog[id], v.value, depth + 1)
    case TRecord(columns) =>
      && v.Record? && v.fields.Keys == Names(columns)
      && forall c <- columns :: WellTyped(catalog, c.ty, v.fields[c.name], depth + 1)
    case TTuple(types) =>
      && v.Tuple? && |v.items| == |types|
      && forall k :: 0 <= k < |types| ==> WellTyped(catalog, types[k], v.items[k], depth + 1)
    case TOption(inner) => v.Opt? && (v.opt.Some? ==> WellTyped(catalog, inner, v.opt.value, depth + 1))
    case TList(inner) => v.List? && forall x <- v.items :: WellTyped(catalog, inner, x, depth + 1)
    case TMap(inner) =>
      && v.Map? && AscendingKeys(v.entries)
      && forall e <- v.entries :: WellTyped(catalog, inner, e.value, depth + 1)
    case TEnum(variants) =>
      && v.Enum?
      && var variant := FindVariant(variants, v.id);
      && variant.Some? && v.variant == variant.value.name && |v.args| == |variant.value.args|
      && forall k :: 0 <= k < |v.args| ==> WellTyped(catalog, variant.value.args[k], v.args[k], depth + 1)
    case TNamed(_) => false
  }

  // ---- Round trip -------------------------------------------------------------------------------

  lemma HeadTail<T>(s: seq<T>)
    requires s != []
    ensures s == [s[0]] + s[1..]
  {}

  lemma ReadBack(n: nat, width: nat, rest: Bytestring)
    requires n < Pow256(width)
    ensures Word(BigEndian(n, width) + rest, width) == Some(Read(n, rest))
  {
    BigEndianRoundTrip(n, width);
    var b := BigEndian(n, width) + rest;
    assert b[..width] == BigEndian(n, width) && b[width..] == rest;
  }

  lemma ReadBackId(id: U64, rest: Bytestring)
    ensures StableId(BigEndian(id, 8) + rest) == Some(Read(id, rest))
  {
    Pow256Values();
    ReadBack(id, 8, rest);
  }

  lemma ReadBackTag(tag: Byte, rest: Bytestring)
    ensures Word([tag] + rest, 1) == Some(Read(tag, rest))
  {
    assert BigEndian(tag, 1) == BigEndian(0, 0) + [tag] == [tag];
    ReadBack(tag, 1, rest);
  }

  lemma ReadBackLength(n: nat, tail: Bytestring, rest: Bytestring)
    requires Length(n).Some?
    ensures Word(Length(n).value + tail + rest, 4) == Some(Read(n, tail + rest))
  {
    Pow256Values();
    ReadBack(n, 4, tail + rest);
    assert Length(n).value + tail + rest == Length(n).value + (tail + rest);
  }

  lemma ReadBackSized(s: Bytestring, rest: Bytestring)
    requires Sized(s).Some?
    ensures TakeSized(Sized(s).value + rest) == Some(Read(s, rest))
    ensures |Sized(s).value| >= 4
  {
    ReadBackLength(|s|, s, rest);
    assert (s + rest)[..|s|] == s && (s + rest)[|s|..] == rest;
  }

  lemma ScalarRoundTrip(catalog: Catalog, ty: ScalarType, v: Value, version: nat, depth: nat, rest: Bytestring)
    requires IsScalar(ty) && WellTyped(catalog, ty, v, depth)
    ensures var e := Encode(catalog, ty, v, version, depth);
            e.Some? ==> |e.value| >= 1 && DecodeScalar(ty, e.value + rest) == Some(Read(v, rest))
  {
    hide BigEndian, FromBigEndian, Pow10, Word, Sized, TakeSized, IsUtf8;
    Pow256Values();
    match ty
    case TText => if Sized(v.text).Some? { ReadBackSized(v.text, rest); }
    case TBytes => if Sized(v.blob).Some? { ReadBackSized(v.blob, rest); }
    case TUuid => assert (v.uuid + rest)[..16] == v.uuid && (v.uuid + rest)[16..] == rest;
    case TBool => ReadBackTag(BoolRank(v.b), rest);
    case _ => NumberRoundTrip(catalog, ty, v, version, depth, rest);
  }

  lemma NumberRoundTrip(catalog: Catalog, ty: ScalarType, v: Value, version: nat, depth: nat, rest: Bytestring)
    requires IsScalar(ty) && !ty.TText? && !ty.TBytes? && !ty.TUuid? && !ty.TBool? && WellTyped(catalog, ty, v, depth)
    ensures var e := Encode(catalog, ty, v, version, depth);
            e.Some? ==> |e.value| >= 1 && DecodeScalar(ty, e.value + rest) == Some(Read(v, rest))
  {
    hide BigEndian, FromBigEndian, Pow10, Word;
    Pow256Values();
    match ty
    case TInt => ReadBack(ToWord(v.i, TWO_64), 8, rest);
    case TFloat => ReadBack(NormalFloat(v.bits), 8, rest);
    case TDate => ReadBack(ToWord(v.days, U32_LIMIT), 4, rest);
    case TTimestamp => ReadBack(ToWord(v.at, TWO_64), 8, rest);
    case TDuration => ReadBack(ToWord(v.micros, TWO_64), 8, rest);
    case TDecimal(_, _) => ReadBack(ToWord(v.coefficient, TWO_128), 16, rest);
  }

  /** Whatever follows, decoding an encoding gives the value back and stops exactly at
      its end. */
  lemma {:induction false} RoundTrip(
    catalog: Catalog, ty: ScalarType, v: Value, version: nat, depth: nat, rest: Bytestring)
    requires WellFormedCatalog(catalog) && WellFormed(ty)
    requires WellTyped(catalog, ty, v, depth) && Encode(catalog, ty, v, version, depth).Some?
    ensures |Encode(catalog, ty, v, version, depth).value| >= 1
    ensures Decode(catalog, ty, Encode(catalog, ty, v, version, depth).value + rest, version, depth) ==
            Some(Read(v, rest))
    decreases MAX_DEPTH - depth, 0, 0
  {
    hide Encode, Decode, DecodeScalar, WellFormed, WellFormedCatalog;
    match ty
    case TRef(_) => RefRoundTrip(catalog, ty, v, version, depth, rest);
    case TOption(_) => OptionRoundTrip(catalog, ty, v, version, depth, rest);
    case TRecord(_) => RecordRoundTrip(catalog, ty, v, version, depth, rest);
    case TTuple(_) => TupleRoundTrip(catalog, ty, v, version, depth, rest);
    case TList(_) => ListRoundTrip(catalog, ty, v, version, depth, rest);
    case TMap(_) => MapRoundTrip(catalog, ty, v, version, depth, rest);
    case TEnum(_) => EnumRoundTrip(catalog, ty, v, version, depth, rest);
    case TNamed(_) =>
    case _ => DirectRoundTrip(catalog, ty, v, version, depth, rest);
  }

  lemma DirectRoundTrip(catalog: Catalog, ty: ScalarType, v: Value, version: nat, depth: nat, rest: Bytestring)
    requires IsScalar(ty) && WellTyped(catalog, ty, v, depth) && Encode(catalog, ty, v, version, depth).Some?
    ensures |Encode(catalog, ty, v, version, depth).value| >= 1
    ensures Decode(catalog, ty, Encode(catalog, ty, v, version, depth).value + rest, version, depth) ==
            Some(Read(v, rest))
  {
    hide Encode, DecodeScalar;
    ScalarRoundTrip(catalog, ty, v, version, depth, rest);
  }

  lemma {:induction false} RefRoundTrip(
    catalog: Catalog, ty: ScalarType, v: Value, version: nat, depth: nat, rest: Bytestring)
    requires WellFormedCatalog(catalog) && WellFormed(ty) && ty.TRef?
    requires WellTyped(catalog, ty, v, depth) && Encode(catalog, ty, v, version, depth).Some?
    ensures |Encode(catalog, ty, v, version, depth).value| >= 1
    ensures Decode(catalog, ty, Encode(catalog, ty, v, version, depth).value + rest, version, depth) ==
            Some(Read(v, rest))
    decreases MAX_DEPTH - depth - 1, 3, 0
  {
    hide BigEndian, StableId, WellFormed;
    var inner := catalog[ty.typeId];
    var e := Encode(catalog, inner, v.value, version, depth + 1).value;
    RoundTrip(catalog, inner, v.value, version, depth + 1, rest);
    ReadBackId(ty.typeId, e + rest);
    assert BigEndian(ty.typeId, 8) + e + rest == BigEndian(ty.typeId, 8) + (e + rest);
  }

  lemma {:induction false} OptionRoundTrip(
    catalog: Catalog, ty: ScalarType, v: Value, version: nat, depth: nat, rest: Bytestring)
    requires WellFormedCatalog(catalog) && WellFormed(ty) && ty.TOption?
    requires WellTyped(catalog, ty, v, depth) && Encode(catalog, ty, v, version, depth).Some?
    ensures |Encode(catalog, ty, v, version, depth).value| >= 1
    ensures Decode(catalog, ty, Encode(catalog, ty, v, version, depth).value + rest, version, depth) ==
            Some(Read(v, rest))
    decreases MAX_DEPTH - depth - 1, 3, 0
  {
    hide Word, WellFormedCatalog;
    if v.opt.None? {
      ReadBackTag(0, rest);
    } else {
      var e := Encode(catalog, ty.inner, v.opt.value, version, depth + 1).value;
      RoundTrip(catalog, ty.inner, v.opt.value, version, depth + 1, rest);
      ReadBackTag(1, e + rest);
      assert [1] + e + rest == [1] + (e + rest);
    }
  }

  lemma {:induction false} TupleRoundTrip(
    catalog: Catalog, ty: ScalarType, v: Value, version: nat, depth: nat, rest: Bytestring)
    requires WellFormedCatalog(catalog) && WellFormed(ty) && ty.TTuple?
    requires WellTyped(catalog, ty, v, depth) && Encode(catalog, ty, v, version, depth).Some?
    ensures |Encode(catalog, ty, v, version, depth).value| >= 1
    ensures Decode(catalog, ty, Encode(catalog, ty, v, version, depth).value + rest, version, depth) ==
            Some(Read(v, rest))
    decreases MAX_DEPTH - depth - 1, 3, 0
  {
    hide Word, EncodeItems, DecodeItems, WellFormedCatalog;
    ReadBackLength(|ty.items|, EncodeItems(catalog, ty.items, v.items, version, depth + 1).value, rest);
    ItemsRoundTrip(catalog, ty.items, v.items, version, depth + 1, rest);
  }

  lemma {:induction false} RecordRoundTrip(
    catalog: Catalog, ty: ScalarType, v: Value, version: nat, depth: nat, rest: Bytestring)
    requires WellFormedCatalog(catalog) && WellFormed(ty) && ty.TRecord?
    requires WellTyped(catalog, ty, v, depth) && Encode(catalog, ty, v, version, depth).Some?
    ensures |Encode(catalog, ty, v, version, depth).value| >= 1
    ensures Decode(catalog, ty, Encode(catalog, ty, v, version, depth).value + rest, version, depth) ==
            Some(Read(v, rest))
    decreases MAX_DEPTH - depth - 1, 3, 0
  {
    hide EncodeFields, DecodeFields, ById, WellFormedCatalog, Word, Restrict;
    var columns := ty.columns;
    var sorted := ById(columns);
    ReadBackLength(|columns|, EncodeFields(catalog, sorted, v.fields, version, depth + 1).value, rest);
    ByIdKeeps(columns);
    FieldsRoundTrip(catalog, columns, sorted, {}, map[], v.fields, version, depth + 1, rest);
    RestrictAll(v.fields, sorted);
  }

  lemma RestrictAll(fields: map<string, Value>, columns: seq<Column>)
    requires fields.Keys == Names(columns)
    ensures map[] + Restrict(fields, columns) == fields
  {}

  lemma ByIdKeeps(columns: seq<Column>)
    requires DistinctColumns(columns)
    ensures DistinctColumns(ById(columns))
    ensures forall c :: c in ById(columns) <==> c in columns
    ensures Names(ById(columns)) == Names(columns)
  {
    hide ById;
    var sorted := ById(columns);
    assert forall c :: c in sorted <==> c in multiset(sorted);
    assert forall c :: c in columns <==> c in multiset(columns);
    forall i, j | 0 <= i < j < |sorted|
      ensures sorted[i].id != sorted[j].id && sorted[i].name != sorted[j].name
    {
      SortedDistinct(columns, sorted, i, j);
    }
  }

  lemma SortedDistinct(columns: seq<Column>, sorted: seq<Column>, i: nat, j: nat)
    requires DistinctColumns(columns) && multiset(sorted) == multiset(columns)
    requires i < j < |sorted|
    ensures sorted[i].id != sorted[j].id && sorted[i].name != sorted[j].name
  {
    var c, d := sorted[i], sorted[j];
    assert c in multiset(sorted) && d in multiset(sorted);
    if c.id == d.id || c.name == d.name {
      DistinctOnce(columns, c, d);
      TwiceInMultiset(sorted, i, j);
      OnceInMultiset(columns, c);
    }
  }

  lemma DistinctOnce(columns: seq<Column>, c: Column, d: Column)
    requires DistinctColumns(columns) && c in columns && d in columns
    requires c.id == d.id || c.name == d.name
    ensures c == d
  {
    var i :| 0 <= i < |columns| && columns[i] == c;
    var j :| 0 <= j < |columns| && columns[j] == d;
  }

  lemma TwiceInMultiset<T>(s: seq<T>, i: nat, j: nat)
    requires i < j < |s| && s[i] == s[j]
    ensures multiset(s)[s[i]] >= 2
  {
    assert s == s[..j] + [s[j]] + s[j+1..];
    assert s[i] in s[..j];
  }

  lemma {:induction false} OnceInMultiset(columns: seq<Column>, c: Column)
    requires DistinctColumns(columns)
    ensures multiset(columns)[c] <= 1
  {
    if columns != [] {
      OnceInMultiset(columns[1..], c);
      assert columns == [columns[0]] + columns[1..];
      if columns[0] == c {
        assert c !in columns[1..];
      }
    }
  }

  function Restrict(fields: map<string, Value>, columns: seq<Column>): map<string, Value> {
    map name | name in Names(columns) && name in fields :: fields[name]
  }

  lemma RestrictStep(done: map<string, Value>, fields: map<string, Value>, todo: seq<Column>)
    requires todo != [] && todo[0].name in fields
    ensures done[todo[0].name := fields[todo[0].name]] + Restrict(fields, todo[1..]) == done + Restrict(fields, todo)
  {
    assert Names(todo) == {todo[0].name} + Names(todo[1..]) by {
      assert todo == [todo[0]] + todo[1..];
    }
  }

  /** Reading one field of a record. */
  lemma FieldStep(
    catalog: Catalog, columns: seq<Column>, count: nat, seen: set<U64>, done: map<string, Value>, c: Column,
    e: Bytestring, more: Bytestring, v: Value, version: nat, depth: nat)
    requires count > 0 && FindColumn(columns, c.id) == Some(c) && c.id !in seen
    requires Decode(catalog, c.ty, e + more, version, depth) == Some(Read(v, more))
    ensures DecodeFields(catalog, columns, count, seen, done, BigEndian(c.id, 8) + (e + more), version, depth) ==
            DecodeFields(catalog, columns, count - 1, seen + {c.id}, done[c.name := v], more, version, depth)
  {
    hide Decode, FindColumn, BigEndian, StableId;
    ReadBackId(c.id, e + more);
  }

  lemma {:induction false} FieldsRoundTrip(
    catalog: Catalog, columns: seq<Column>, todo: seq<Column>, seen: set<U64>, done: map<string, Value>,
    fields: map<string, Value>, version: nat, depth: nat, rest: Bytestring)
    requires WellFormedCatalog(catalog) && WellFormed(TRecord(columns)) && DistinctColumns(todo)
    requires forall c <- todo ::
               c in columns && c.id !in seen && c.name in fields && WellTyped(catalog, c.ty, fields[c.name], depth)
    requires EncodeFields(catalog, todo, fields, version, depth).Some?
    ensures DecodeFields(catalog, columns, |todo|, seen, done,
                         EncodeFields(catalog, todo, fields, version, depth).value + rest, version, depth)
            == Some(Read(done + Restrict(fields, todo), rest))
    decreases MAX_DEPTH - depth, 2, |todo|
  {
    hide Encode, Decode, WellTyped, WellFormedCatalog, FindColumn, BigEndian;
    if todo == [] {
      assert [] + rest == rest && done + Restrict(fields, todo) == done;
    } else {
      var c := todo[0];
      var e := Encode(catalog, c.ty, fields[c.name], version, depth).value;
      var tail := EncodeFields(catalog, todo[1..], fields, version, depth).value;
      RoundTrip(catalog, c.ty, fields[c.name], version, depth, tail + rest);
      Regroup(BigEndian(c.id, 8), e, tail + rest);
      Regroup(BigEndian(c.id, 8) + e, tail, rest);
      DistinctOnce(columns, c, FindColumn(columns, c.id).value);
      FieldStep(catalog, columns, |todo|, seen, done, c, e, tail + rest, fields[c.name], version, depth);
      FieldsRoundTrip(catalog, columns, todo[1..], seen + {c.id}, done[c.name := fields[c.name]], fields, version,
                      depth, rest);
      RestrictStep(done, fields, todo);
    }
  }

  lemma {:induction false} ItemsRoundTrip(
    catalog: Catalog, types: seq<ScalarType>, vs: seq<Value>, version: nat, depth: nat, rest: Bytestring)
    requires WellFormedCatalog(catalog) && forall t <- types :: WellFormed(t)
    requires |types| == |vs| && forall k :: 0 <= k < |vs| ==> WellTyped(catalog, types[k], vs[k], depth)
    requires EncodeItems(catalog, types, vs, version, depth).Some?
    ensures DecodeItems(catalog, types, EncodeItems(catalog, types, vs, version, depth).value + rest, version, depth) ==
            Some(Read(vs, rest))
    decreases MAX_DEPTH - depth, 1, |types|
  {
    hide Encode, Decode, WellTyped, WellFormed, WellFormedCatalog;
    if types == [] {
      assert [] + rest == rest;
    } else {
      var e, tail := Encode(catalog, types[0], vs[0], version, depth).value,
                     EncodeItems(catalog, types[1..], vs[1..], version, depth).value;
      RoundTrip(catalog, types[0], vs[0], version, depth, tail + rest);
      ItemsRoundTrip(catalog, types[1..], vs[1..], version, depth, rest);
      Regroup(e, tail, rest);
      HeadTail(vs);
    }
  }

  lemma {:induction false} EnumRoundTrip(
    catalog: Catalog, ty: ScalarType, v: Value, version: nat, depth: nat, rest: Bytestring)
    requires WellFormedCatalog(catalog) && WellFormed(ty) && ty.TEnum?
    requires WellTyped(catalog, ty, v, depth) && Encode(catalog, ty, v, version, depth).Some?
    ensures |Encode(catalog, ty, v, version, depth).value| >= 1
    ensures Decode(catalog, ty, Encode(catalog, ty, v, version, depth).value + rest, version, depth) ==
            Some(Read(v, rest))
    decreases MAX_DEPTH - depth - 1, 3, 0
  {
    hide EncodeItems, DecodeItems, Word, StableId, BigEndian, FindVariant, WellFormedCatalog;
    var variant := FindVariant(ty.variants, v.id).value;
    var n, tail := Length(|v.args|).value, EncodeItems(catalog, variant.args, v.args, version, depth + 1).value;
    ItemsRoundTrip(catalog, variant.args, v.args, version, depth + 1, rest);
    ReadBackLength(|v.args|, tail, rest);
    ReadBackId(v.id, n + tail + rest);
    assert BigEndian(v.id, 8) + n + tail + rest == BigEndian(v.id, 8) + (n + tail + rest);
  }

  lemma {:induction false} ListRoundTrip(
    catalog: Catalog, ty: ScalarType, v: Value, version: nat, depth: nat, rest: Bytestring)
    requires WellFormedCatalog(catalog) && WellFormed(ty) && ty.TList?
    requires WellTyped(catalog, ty, v, depth) && Encode(catalog, ty, v, version, depth).Some?
    ensures |Encode(catalog, ty, v, version, depth).value| >= 1
    ensures Decode(catalog, ty, Encode(catalog, ty, v, version, depth).value + rest, version, depth) ==
            Some(Read(v, rest))
    decreases MAX_DEPTH - depth - 1, 3, 0
  {
    hide EncodeList, DecodeList, Word, BigEndian, WellFormedCatalog;
    ReadBackLength(|v.items|, EncodeList(catalog, ty.inner, v.items, version, depth + 1).value, rest);
    ElementsRoundTrip(catalog, ty.inner, v.items, version, depth + 1, rest);
  }

  lemma {:induction false} ElementsRoundTrip(
    catalog: Catalog, inner: ScalarType, vs: seq<Value>, version: nat, depth: nat, rest: Bytestring)
    requires WellFormedCatalog(catalog) && WellFormed(inner)
    requires forall x <- vs :: WellTyped(catalog, inner, x, depth)
    requires EncodeList(catalog, inner, vs, version, depth).Some?
    ensures |EncodeList(catalog, inner, vs, version, depth).value| >= |vs|
    ensures DecodeList(catalog, inner, |vs|, EncodeList(catalog, inner, vs, version, depth).value + rest, version,
                       depth) == Some(Read(vs, rest))
    decreases MAX_DEPTH - depth, 1, |vs|
  {
    hide Encode, Decode, WellTyped, WellFormed, WellFormedCatalog;
    if vs == [] {
      assert [] + rest == rest;
    } else {
      var e, tail := Encode(catalog, inner, vs[0], version, depth).value,
                     EncodeList(catalog, inner, vs[1..], version, depth).value;
      RoundTrip(catalog, inner, vs[0], version, depth, tail + rest);
      ElementsRoundTrip(catalog, inner, vs[1..], version, depth, rest);
      Regroup(e, tail, rest);
      HeadTail(vs);
    }
  }

  lemma {:induction false} MapRoundTrip(
    catalog: Catalog, ty: ScalarType, v: Value, version: nat, depth: nat, rest: Bytestring)
    requires WellFormedCatalog(catalog) && WellFormed(ty) && ty.TMap?
    requires WellTyped(catalog, ty, v, depth) && Encode(catalog, ty, v, version, depth).Some?
    ensures |Encode(catalog, ty, v, version, depth).value| >= 1
    ensures Decode(catalog, ty, Encode(catalog, ty, v, version, depth).value + rest, version, depth) ==
            Some(Read(v, rest))
    decreases MAX_DEPTH - depth - 1, 3, 0
  {
    hide EncodeEntries, DecodeEntries, Word, BigEndian, WellFormedCatalog;
    ReadBackLength(|v.entries|, EncodeEntries(catalog, ty.inner, v.entries, version, depth + 1).value, rest);
    EntriesRoundTrip(catalog, ty.inner, None, v.entries, version, depth + 1, rest);
  }

  lemma EntryStep(
    catalog: Catalog, inner: ScalarType, count: nat, previous: Option<Text>, first: Entry, e: Bytestring,
    after: Bytestring,
                  es: seq<Entry>, rest: Bytestring, version: nat, depth: nat)
    requires count > 0 && |first.key| <= MAX_MAP_KEY_BYTES && (previous.Some? ==> Precedes(previous.value, first.key))
    requires Decode(catalog, inner, e + after, version, depth) == Some(Read(first.value, after))
    requires DecodeEntries(catalog, inner, count - 1, Some(first.key), after, version, depth) == Some(Read(es, rest))
    ensures Sized(first.key).Some?
    ensures DecodeEntries(catalog, inner, count, previous, Sized(first.key).value + (e + after), version, depth)
            == Some(Read([first] + es, rest))
  {
    hide Decode, IsUtf8, Compare, Sized, TakeSized;
    assert Sized(first.key).Some? by { SizedFits(first.key); }
    ReadBackSized(first.key, e + after);
  }

  lemma SizedFits(s: Bytestring)
    requires |s| < U32_LIMIT
    ensures Sized(s).Some?
  {}

  lemma {:induction false} EntriesRoundTrip(
    catalog: Catalog, inner: ScalarType, previous: Option<Text>, es: seq<Entry>, version: nat, depth: nat,
    rest: Bytestring)
    requires WellFormedCatalog(catalog) && WellFormed(inner)
    requires AscendingKeys(es) && (previous.Some? && es != [] ==> Precedes(previous.value, es[0].key))
    requires forall e <- es :: WellTyped(catalog, inner, e.value, depth)
    requires EncodeEntries(catalog, inner, es, version, depth).Some?
    ensures DecodeEntries(catalog, inner, |es|, previous,
                          EncodeEntries(catalog, inner, es, version, depth).value + rest, version,
                            depth) == Some(Read(es, rest))
    decreases MAX_DEPTH - depth, 2, |es|
  {
    hide Encode, Decode, WellTyped, WellFormed, WellFormedCatalog, IsUtf8, Compare;
    if es == [] {
      assert [] + rest == rest;
    } else {
      var k, e := Sized(es[0].key).value, Encode(catalog, inner, es[0].value, version, depth).value;
      var tail := EncodeEntries(catalog, inner, es[1..], version, depth).value;
      RoundTrip(catalog, inner, es[0].value, version, depth, tail + rest);
      EntriesRoundTrip(catalog, inner, Some(es[0].key), es[1..], version, depth, rest);
      EntryStep(catalog, inner, |es|, previous, es[0], e, tail + rest, es[1..], rest, version, depth);
      Regroup(k, e, tail + rest);
      Regroup(k + e, tail, rest);
      HeadTail(es);
    }
  }
}
