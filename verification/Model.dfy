/** The algebraic type language, typed values, the catalog of named types, and the
    two comparisons the database defines on values: structural equality and the
    typed order. */
module Model {
  import opened Bytes
  import opened Scalars

  const MAX_DEPTH: int := 64
  const MAX_MAP_ENTRIES: int := 4_096
  const MAX_MAP_KEY_BYTES: int := 4_096

  datatype Option<+T> = None | Some(value: T)

  datatype ScalarType =
    | TInt | TFloat | TBool | TText | TUuid | TDate | TTimestamp | TDuration | TBytes
    | TDecimal(precision: U8, scale: U8)
    | TEnum(variants: seq<Variant>)
    | TRecord(columns: seq<Column>)
    | TTuple(items: seq<ScalarType>)
    | TOption(inner: ScalarType)
    | TList(inner: ScalarType)
    | TMap(inner: ScalarType)
    | TNamed(name: string)
    | TRef(typeId: U64)

  datatype Variant = Variant(name: string, args: seq<ScalarType>, id: U64)

  datatype Column = Column(name: string, ty: ScalarType, id: U64)

  datatype Value =
    | Int(i: I64)
    | Float(bits: U64)
    | Bool(b: bool)
    | Text(text: Text)
    | Uuid(uuid: Uuid)
    | Date(days: Days)
    | Timestamp(at: Micros)
    | Duration(micros: I64)
    | Decimal(coefficient: I128, scale: U8)
    | Bytes(blob: Blob)
    | Null
    | Enum(variant: string, args: seq<Value>, id: U64)
    | Record(fields: map<string, Value>)
    | Tuple(items: seq<Value>)
    | List(items: seq<Value>)
    | Map(entries: seq<Entry>)
    | Opt(opt: Option<Value>)
    | Named(typeId: U64, value: Value)

  /** One entry of a text-keyed map. A map value holds its entries in key order. */
  datatype Entry = Entry(key: Text, value: Value)

  /** Bound definitions by stable type ID. */
  type Catalog = map<U64, ScalarType>

  function Concat(a: Option<seq<Byte>>, b: Option<seq<Byte>>): Option<seq<Byte>> {
    if a.Some? && b.Some? then Some(a.value + b.value) else None
  }

  lemma ConcatEmpty(e: Option<seq<Byte>>)
    ensures e == Concat(Some([]), e)
  {
    if e.Some? { assert [] + e.value == e.value; }
  }

  lemma ConcatNothing(e: Option<seq<Byte>>)
    ensures Concat(e, Some([])) == e
  {
    if e.Some? { assert e.value + [] == e.value; }
  }

  lemma ConcatAssoc(a: Option<seq<Byte>>, b: Option<seq<Byte>>, c: Option<seq<Byte>>)
    ensures Concat(a, Concat(b, c)) == Concat(Concat(a, b), c)
  {
    if a.Some? && b.Some? && c.Some? { assert a.value + b.value + c.value == a.value + (b.value + c.value); }
  }

  // ---- Columns and variants ---------------------------------------------------------------------

  function FindVariant(variants: seq<Variant>, id: U64): (r: Option<Variant>)
    ensures r.Some? ==> r.value in variants && r.value.id == id
    ensures r.None? ==> forall v <- variants :: v.id != id
  {
    if variants == [] then None
    else if variants[0].id == id then Some(variants[0])
    else FindVariant(variants[1..], id)
  }

  function FindColumn(columns: seq<Column>, id: U64): (r: Option<Column>)
    ensures r.Some? ==> r.value in columns && r.value.id == id
    ensures r.None? ==> forall c <- columns :: c.id != id
  {
    if columns == [] then None
    else if columns[0].id == id then Some(columns[0])
    else FindColumn(columns[1..], id)
  }

  function InsertById(c: Column, sorted: seq<Column>): (r: seq<Column>)
    ensures multiset(r) == multiset{c} + multiset(sorted)
  {
    if sorted == [] || c.id <= sorted[0].id then [c] + sorted
    else
      assert sorted == [sorted[0]] + sorted[1..];
      [sorted[0]] + InsertById(c, sorted[1..])
  }

  /** Columns in ascending stable-ID order. */
  function ById(columns: seq<Column>): (r: seq<Column>)
    ensures multiset(r) == multiset(columns)
    ensures |r| == |columns|
  {
    if columns == [] then []
    else
      assert columns == [columns[0]] + columns[1..];
      var r := InsertById(columns[0], ById(columns[1..]));
      assert |multiset(r)| == |multiset(columns)|;
      r
  }

  predicate DistinctColumns(columns: seq<Column>) {
    forall i, j :: 0 <= i < j < |columns| ==>
      columns[i].id != columns[j].id && columns[i].name != columns[j].name
  }

  function Names(columns: seq<Column>): set<string> {
    set c <- columns :: c.name
  }

  lemma NewName(columns: seq<Column>)
    requires DistinctColumns(columns) && columns != []
    ensures columns[0].name !in Names(columns[1..])
  {
    forall c <- columns[1..] ensures c.name != columns[0].name {
      var i :| 0 <= i < |columns[1..]| && columns[1..][i] == c;
      assert columns[i+1] == c;
    }
  }

  lemma {:induction false} NamesCount(columns: seq<Column>)
    requires DistinctColumns(columns)
    ensures |Names(columns)| == |columns|
  {
    if columns != [] {
      NamesCount(columns[1..]);
      assert columns == [columns[0]] + columns[1..];
      assert Names(columns) == {columns[0].name} + Names(columns[1..]);
      assert columns[0].name !in Names(columns[1..]) by { NewName(columns); }
    }
  }

  lemma SubsetOfSameSize<T>(a: set<T>, b: set<T>)
    requires a <= b && |a| == |b|
    ensures a == b
  {
    assert |b - a| == |b| - |a|;
  }

  predicate DistinctVariants(variants: seq<Variant>) {
    forall i, j :: 0 <= i < j < |variants| ==> variants[i].id != variants[j].id
  }

  /** What resolving a type guarantees at every node: distinct field IDs and names,
      distinct variant IDs. */
  predicate WellFormed(ty: ScalarType) {
    match ty
    case TRecord(columns) => DistinctColumns(columns) && forall c <- columns :: WellFormed(c.ty)
    case TEnum(variants) => DistinctVariants(variants) && forall v <- variants :: forall a <- v.args :: WellFormed(a)
    case TTuple(items) => forall t <- items :: WellFormed(t)
    case TOption(inner) => WellFormed(inner)
    case TList(inner) => WellFormed(inner)
    case TMap(inner) => WellFormed(inner)
    case _ => true
  }

  predicate WellFormedCatalog(catalog: Catalog) {
    forall id <- catalog :: WellFormed(catalog[id])
  }

  predicate AscendingKeys(entries: seq<Entry>) {
    forall i, j :: 0 <= i < j < |entries| ==> Precedes(entries[i].key, entries[j].key)
  }

  // ---- Structural equality ----------------------------------------------------------------------

  function Unwrapped(v: Value): Value {
    if v.Named? then Unwrapped(v.value) else v
  }

  predicate EqualValues(a: Value, b: Value)
    decreases a
  {
    match a
    case Int(x) => b.Int? && x == b.i
    case Float(x) => b.Float? && !IsNan(x) && !IsNan(b.bits) && CompareFloat(x, b.bits) == Equal
    case Bool(x) => b.Bool? && x == b.b
    case Text(x) => b.Text? && x == b.text
    case Uuid(x) => b.Uuid? && x == b.uuid
    case Date(x) => b.Date? && x == b.days
    case Timestamp(x) => b.Timestamp? && x == b.at
    case Duration(x) => b.Duration? && x == b.micros
    case Decimal(x, s) => b.Decimal? && x == b.coefficient && s == b.scale
    case Bytes(x) => b.Bytes? && x == b.blob
    case Null => b.Null?
    case Named(t, x) => b.Named? && t == b.typeId && EqualValues(x, b.value)
    case Enum(n, xs, i) =>
      && b.Enum? && i == b.id && (i == 0 ==> n == b.variant)
      && |xs| == |b.args| && forall k :: 0 <= k < |xs| ==> EqualValues(xs[k], b.args[k])
    case Record(f) =>
      b.Record? && |f| == |b.fields| && forall k <- f :: k in b.fields && EqualValues(f[k], b.fields[k])
    case Tuple(xs) =>
      b.Tuple? && |xs| == |b.items| && forall k :: 0 <= k < |xs| ==> EqualValues(xs[k], b.items[k])
    case List(xs) =>
      b.List? && |xs| == |b.items| && forall k :: 0 <= k < |xs| ==> EqualValues(xs[k], b.items[k])
    case Map(xs) =>
      // Both sides hold their entries in key order, so equal maps agree entry by entry.
      && b.Map? && |xs| == |b.entries|
      && forall k :: 0 <= k < |xs| ==> xs[k].key == b.entries[k].key && EqualValues(xs[k].value, b.entries[k].value)
    case Opt(x) =>
      b.Opt? && x.Some? == b.opt.Some? && (x.Some? ==> EqualValues(x.value, b.opt.value))
  }

  // ---- The typed order --------------------------------------------------------------------------

  /** The order of one bound type, or None where the source reports a mismatch, an
      unknown type, or more than MAX_DEPTH levels. */
  function CompareTyped(catalog: Catalog, ty: ScalarType, l: Value, r: Value, depth: nat): Option<Ordering>
    decreases MAX_DEPTH - depth, 0, 0
  {
    if depth >= MAX_DEPTH then None else
    match ty
    case TInt => if l.Int? && r.Int? then Some(CompareInt(l.i, r.i)) else None
    case TFloat =>
      if l.Float? && r.Float? && IsFinite(l.bits) && IsFinite(r.bits)
      then Some(CompareFloat(l.bits, r.bits)) else None
    case TBool => if l.Bool? && r.Bool? then Some(CompareInt(BoolRank(l.b), BoolRank(r.b))) else None
    case TText => if l.Text? && r.Text? then Some(Compare(l.text, r.text)) else None
    case TUuid => if l.Uuid? && r.Uuid? then Some(Compare(l.uuid, r.uuid)) else None
    case TDate => if l.Date? && r.Date? then Some(CompareInt(l.days, r.days)) else None
    case TTimestamp => if l.Timestamp? && r.Timestamp? then Some(CompareInt(l.at, r.at)) else None
    case TDuration => if l.Duration? && r.Duration? then Some(CompareInt(l.micros, r.micros)) else None
    case TDecimal(_, scale) =>
      if l.Decimal? && r.Decimal? && l.scale == scale && r.scale == scale
      then Some(CompareInt(l.coefficient, r.coefficient)) else None
    case TBytes => if l.Bytes? && r.Bytes? then Some(Compare(l.blob, r.blob)) else None
    case TRef(id) =>
      if l.Named? && r.Named? && l.typeId == id && r.typeId == id && id in catalog
      then CompareTyped(catalog, catalog[id], l.value, r.value, depth + 1) else None
    case TEnum(variants) =>
      if !l.Enum? || !r.Enum? || l.id == 0 || r.id == 0 then None else
      var lv, rv := FindVariant(variants, l.id), FindVariant(variants, r.id);
      if lv.None? || rv.None? || |l.args| != |lv.value.args| || |r.args| != |rv.value.args| then None
      else if l.id != r.id then Some(CompareInt(l.id, r.id))
      else CompareItems(catalog, lv.value.args, l.args, r.args, depth + 1)
    case TRecord(columns) =>
      if l.Record? && r.Record? && |l.fields| == |columns| && |r.fields| == |columns|
      then CompareFields(catalog, ById(columns), l.fields, r.fields, depth + 1) else None
    case TTuple(types) =>
      if l.Tuple? && r.Tuple? && |l.items| == |types| && |r.items| == |types|
      then CompareItems(catalog, types, l.items, r.items, depth + 1) else None
    case TOption(inner) =>
      if !l.Opt? || !r.Opt? then None
      else if l.opt.None? || r.opt.None? then Some(CompareInt(OptionRank(l.opt), OptionRank(r.opt)))
      else CompareTyped(catalog, inner, l.opt.value, r.opt.value, depth + 1)
    case TList(inner) =>
      if l.List? && r.List? then CompareLists(catalog, inner, l.items, r.items, depth + 1) else None
    case TMap(inner) =>
      if l.Map? && r.Map? then CompareEntries(catalog, inner, l.entries, r.entries, depth + 1) else None
    case TNamed(_) => None
  }

  function BoolRank(b: bool): int { if b then 1 else 0 }

  function OptionRank<T>(o: Option<T>): int { if o.Some? then 1 else 0 }

  function CompareItems(
    catalog: Catalog, types: seq<ScalarType>, ls: seq<Value>, rs: seq<Value>, depth: nat): Option<Ordering>
    requires |types| == |ls| == |rs|
    decreases MAX_DEPTH - depth, 1, |types|
  {
    if types == [] then Some(Equal) else
    var first := CompareTyped(catalog, types[0], ls[0], rs[0], depth);
    if first != Some(Equal) then first
    else CompareItems(catalog, types[1..], ls[1..], rs[1..], depth)
  }

  function CompareFields(
    catalog: Catalog, columns: seq<Column>, l: map<string, Value>, r: map<string, Value>, depth: nat): Option<Ordering>
    decreases MAX_DEPTH - depth, 1, |columns|
  {
    if columns == [] then Some(Equal) else
    var name := columns[0].name;
    if name !in l || name !in r then None else
    var first := CompareTyped(catalog, columns[0].ty, l[name], r[name], depth);
    if first != Some(Equal) then first
    else CompareFields(catalog, columns[1..], l, r, depth)
  }

  function CompareLists(
    catalog: Catalog, inner: ScalarType, ls: seq<Value>, rs: seq<Value>, depth: nat): Option<Ordering>
    decreases MAX_DEPTH - depth, 1, |ls|
  {
    if ls == [] || rs == [] then Some(CompareInt(|ls|, |rs|)) else
    var first := CompareTyped(catalog, inner, ls[0], rs[0], depth);
    if first != Some(Equal) then first
    else CompareLists(catalog, inner, ls[1..], rs[1..], depth)
  }

  function CompareEntries(
    catalog: Catalog, inner: ScalarType, ls: seq<Entry>, rs: seq<Entry>, depth: nat): Option<Ordering>
    decreases MAX_DEPTH - depth, 1, |ls|
  {
    if ls == [] || rs == [] then Some(CompareInt(|ls|, |rs|)) else
    var key := Compare(ls[0].key, rs[0].key);
    if key != Equal then Some(key) else
    var first := CompareTyped(catalog, inner, ls[0].value, rs[0].value, depth);
    if first != Some(Equal) then first
    else CompareEntries(catalog, inner, ls[1..], rs[1..], depth)
  }
}
