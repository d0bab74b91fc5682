/** Tables and index definitions: how a row's fields are addressed, which rows an
    index includes, and the key it files them under. */
module Schema {
  import opened Model
  import opened OrderedKey

  type Fields = map<string, Value>

  type RowId = nat

  datatype Row = Row(id: RowId, fields: Fields)

  const MAX_COMPLETE_INDEX_KEY_BYTES: int := 64 * 1024
  const MAX_INDEXED_BYTES: int := 8 * 1024

  // ---- Field paths ------------------------------------------------------------------------------

  /** The parts of a dotted path before and after its first dot. */
  function SplitDot(path: string): (r: Option<(string, string)>)
    ensures r.Some? ==> path == r.value.0 + "." + r.value.1 && '.' !in r.value.0
    ensures r.None? ==> '.' !in path
  {
    if path == "" then None
    else if path[0] == '.' then Some(("", path[1..])) else
    var tail := SplitDot(path[1..]);
    if tail.None? then None
    else
      assert path == [path[0]] + path[1..];
      Some(([path[0]] + tail.value.0, tail.value.1))
  }

  function NestedField(v: Value, path: string): Option<Value>
    decreases |path|
  {
    var record := Unwrapped(v);
    if !record.Record? then None else
    var split := SplitDot(path);
    var head := if split.Some? then split.value.0 else path;
    if head !in record.fields then None
    else if split.None? then Some(record.fields[head])
    else NestedField(record.fields[head], split.value.1)
  }

  function RowField(fields: Fields, path: string): Option<Value> {
    if path in fields then Some(fields[path]) else
    var split := SplitDot(path);
    if split.None? || split.value.0 !in fields then None
    else NestedField(fields[split.value.0], split.value.1)
  }

  /** Stored rows have plain field names. */
  ghost predicate PlainNames(fields: Fields) {
    forall name <- fields :: '.' !in name
  }

  // ---- Field types ------------------------------------------------------------------------------

  function Underlying(catalog: Catalog, ty: ScalarType, hops: nat): Option<ScalarType>
    decreases MAX_DEPTH - hops
  {
    if hops >= MAX_DEPTH then None
    else if !ty.TRef? then Some(ty)
    else if ty.typeId !in catalog then None
    else Underlying(catalog, catalog[ty.typeId], hops + 1)
  }

  function NamedColumn(columns: seq<Column>, name: string): Option<Column> {
    if columns == [] then None
    else if columns[0].name == name then Some(columns[0])
    else NamedColumn(columns[1..], name)
  }

  function NestedType(catalog: Catalog, ty: ScalarType, path: string): Option<ScalarType>
    decreases |path|
  {
    var record := Underlying(catalog, ty, 0);
    if record.None? || !record.value.TRecord? then None else
    var split := SplitDot(path);
    var column := NamedColumn(record.value.columns, if split.Some? then split.value.0 else path);
    if column.None? then None
    else if split.None? then Some(column.value.ty)
    else NestedType(catalog, column.value.ty, split.value.1)
  }

  function FieldType(catalog: Catalog, columns: seq<Column>, path: string): Option<ScalarType> {
    var exact := NamedColumn(columns, path);
    if exact.Some? then Some(exact.value.ty) else
    var split := SplitDot(path);
    if split.None? then None else
    var column := NamedColumn(columns, split.value.0);
    if column.None? then None else NestedType(catalog, column.value.ty, split.value.1)
  }

  // ---- Partial index predicates -----------------------------------------------------------------

  datatype Atom =
    | Equals(column: string, value: Value)
    | IsNone(column: string)
    | IsSome(column: string)

  predicate AtomHolds(a: Atom, fields: Fields) {
    var v := RowField(fields, a.column);
    v.Some? &&
    match a
    case Equals(_, expected) => EqualValues(v.value, expected)
    case IsNone(_) => Unwrapped(v.value).Opt? && Unwrapped(v.value).opt.None?
    case IsSome(_) => Unwrapped(v.value).Opt? && Unwrapped(v.value).opt.Some?
  }

  // ---- Definitions ------------------------------------------------------------------------------

  datatype IndexComponent = IndexComponent(column: string, descending: bool)

  /** `shape` names the index inside its table; `guard` is a conjunction of atoms, absent for a
      total index. */
  datatype IndexDefinition = IndexDefinition(
    shape: string, components: seq<IndexComponent>, unique: bool, guard: Option<seq<Atom>>)

  datatype TableSchema = TableSchema(catalog: Catalog, columns: seq<Column>, primaryKey: Option<string>)

  predicate Includes(d: IndexDefinition, fields: Fields) {
    d.guard.Some? ==> forall a <- d.guard.value :: AtomHolds(a, fields)
  }

  predicate IsPrimaryIndex(t: TableSchema, d: IndexDefinition) {
    |d.components| == 1 && !d.components[0].descending && t.primaryKey == Some(d.components[0].column)
  }

  predicate MustBeUnique(t: TableSchema, d: IndexDefinition) {
    d.unique || IsPrimaryIndex(t, d)
  }

  predicate Oversized(v: Value)
    decreases v
  {
    match v
    case Named(_, inner) => Oversized(inner)
    case Bytes(b) => |b| > MAX_INDEXED_BYTES
    case Enum(_, args, _) => exists a <- args :: Oversized(a)
    case Record(fields) => exists k <- fields :: Oversized(fields[k])
    case Tuple(items) => exists x <- items :: Oversized(x)
    case List(items) => exists x <- items :: Oversized(x)
    case Opt(o) => o.Some? && Oversized(o.value)
    case _ => false
  }

  function BoundComponents(t: TableSchema, cs: seq<IndexComponent>): (r: Option<seq<Component>>)
    ensures r.Some? ==> |r.value| == |cs|
    ensures r.Some? ==> forall i :: 0 <= i < |cs| ==> r.value[i].descending == cs[i].descending
    ensures r.Some? ==> forall i :: 0 <= i < |cs| ==>
                          FieldType(t.catalog, t.columns, cs[i].column) == Some(r.value[i].ty)
  {
    if cs == [] then Some([]) else
    var ty := FieldType(t.catalog, t.columns, cs[0].column);
    var rest := BoundComponents(t, cs[1..]);
    if ty.None? || rest.None? then None else Some([Component(ty.value, cs[0].descending)] + rest.value)
  }

  function ComponentValues(cs: seq<IndexComponent>, fields: Fields): (r: Option<seq<Value>>)
    ensures r.Some? ==> |r.value| == |cs|
    ensures r.Some? ==> forall i :: 0 <= i < |cs| ==> RowField(fields, cs[i].column) == Some(r.value[i])
  {
    if cs == [] then Some([]) else
    var v := RowField(fields, cs[0].column);
    var rest := ComponentValues(cs[1..], fields);
    if v.None? || Oversized(v.value) || rest.None? then None else Some([v.value] + rest.value)
  }

  /** The key of a row under an index, or None where computing it is an error. */
  function IndexKey(t: TableSchema, d: IndexDefinition, fields: Fields): Option<Key> {
    var cs, vs := BoundComponents(t, d.components), ComponentValues(d.components, fields);
    if cs.None? || vs.None? || |cs.value| == 0 || |cs.value| > MAX_INDEX_COMPONENTS then None else
    var key := EncodeComponents(t.catalog, cs.value, vs.value);
    if key.None? || 23 + |key.value| > MAX_COMPLETE_INDEX_KEY_BYTES then None else key
  }

  /** The row cannot be filed: it is included but has no key. */
  predicate Unfileable(t: TableSchema, d: IndexDefinition, fields: Fields) {
    Includes(d, fields) && IndexKey(t, d, fields).None?
  }

  /** The key the index files the row under, if it includes the row. */
  function FiledKey(t: TableSchema, d: IndexDefinition, fields: Fields): Option<Key> {
    if Includes(d, fields) then IndexKey(t, d, fields) else None
  }
}
