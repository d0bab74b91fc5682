/** Durable storage of a table: its rows are written as encoded values under their row
    IDs, and loading decodes them and rebuilds every index. */
module Durable {
  import opened Scalars
  import opened Model
  import opened Codec
  import opened CodecDocument
  import opened CodecBuffers
  import opened Schema
  import opened Postings
  import opened TableStore
  import opened Tables

  datatype StoredRow = StoredRow(id: RowId, bytes: Bytestring)

  /** A table's rows are records of its columns, or of a named row type. */
  datatype RowType = RowType(named: Option<U64>)

  function StorageType(t: TableSchema, r: RowType): ScalarType {
    if r.named.Some? then TRef(r.named.value) else TRecord(t.columns)
  }

  function Wrapped(r: RowType, fields: Fields): Value {
    if r.named.Some? then Named(r.named.value, Record(fields)) else Record(fields)
  }

  /** What storing a row guarantees: its value has the storage type in normal form. */
  ghost predicate Storable(t: TableSchema, r: RowType, fields: Fields) {
    WellTyped(t.catalog, StorageType(t, r), Wrapped(r, fields), 0)
  }

  ghost predicate StoresAs(t: TableSchema, r: RowType, version: nat, row: Row, s: StoredRow) {
    s.id == row.id && EncodeDocument(t.catalog, StorageType(t, r), Wrapped(r, row.fields), version) == Some(s.bytes)
  }

  ghost predicate StoredAs(t: TableSchema, r: RowType, version: nat, rows: seq<Row>, stored: seq<StoredRow>) {
    |stored| == |rows| && forall i :: 0 <= i < |rows| ==> StoresAs(t, r, version, rows[i], stored[i])
  }

  /** Encode every row; None when some row has no encoding. */
  method StoreRows(t: TableSchema, r: RowType, version: nat, rows: seq<Row>) returns (stored: Option<seq<StoredRow>>)
    requires VALUE_CODEC_VERSION <= version <= MAP_VALUE_CODEC_VERSION
    ensures stored.Some? ==> StoredAs(t, r, version, rows, stored.value)
    ensures stored.None? <==>
            exists row <- rows :: EncodeDocument(t.catalog, StorageType(t, r), Wrapped(r, row.fields), version).None?
  {
    hide EncodeDocument;
    var out: seq<StoredRow> := [];
    for i := 0 to |rows|
      invariant StoredAs(t, r, version, rows[..i], out)
    {
      var bytes := EncodeValue(t.catalog, StorageType(t, r), Wrapped(r, rows[i].fields), version);
      if bytes.None? {
        assert rows[i] in rows;
        return None;
      }
      out := out + [StoredRow(rows[i].id, bytes.value)];
    }
    assert rows[..|rows|] == rows;
    return Some(out);
  }

  /** Decode stored rows, which must come in strictly increasing row ID order. */
  method LoadRows(t: TableSchema, r: RowType, stored: seq<StoredRow>) returns (rows: Option<seq<Row>>)
    ensures rows.Some? ==> AscendingRows(rows.value) && |rows.value| == |stored|
    ensures rows.Some? ==> forall i :: 0 <= i < |stored| ==>
                             rows.value[i].id == stored[i].id && Loads(t, r, stored[i], rows.value[i])
    ensures rows.None? <==> !StrictIds(stored) || exists s <- stored :: !Loadable(t, r, s)
  {
    hide DecodeDocument;
    var out: seq<Row> := [];
    for i := 0 to |stored|
      invariant |out| == i && AscendingRows(out) && StrictIds(stored[..i])
      invariant forall j :: 0 <= j < i ==> out[j].id == stored[j].id && Loads(t, r, stored[j], out[j])
    {
      if i > 0 && stored[i].id <= stored[i-1].id { return None; }
      var value := DecodeValue(t.catalog, StorageType(t, r), stored[i].bytes);
      if value.None? || !Unwrapped(value.value).Record? {
        assert stored[i] in stored && !Loadable(t, r, stored[i]);
        return None;
      }
      out := out + [Row(stored[i].id, Unwrapped(value.value).fields)];
      assert stored[..i+1] == stored[..i] + [stored[i]];
    }
    assert stored[..|stored|] == stored;
    return Some(out);
  }

  ghost predicate Loadable(t: TableSchema, r: RowType, s: StoredRow) {
    var v := DecodeDocument(t.catalog, StorageType(t, r), s.bytes);
    v.Some? && Unwrapped(v.value).Record?
  }

  ghost predicate Loads(t: TableSchema, r: RowType, s: StoredRow, row: Row) {
    var v := DecodeDocument(t.catalog, StorageType(t, r), s.bytes);
    v.Some? && Unwrapped(v.value) == Record(row.fields)
  }

  ghost predicate StrictIds(stored: seq<StoredRow>) {
    forall i :: 0 < i < |stored| ==> stored[i-1].id < stored[i].id
  }

  /** The allocation cursor: kept, or inferred for catalogs that never stored one. */
  function LoadedNext(next: RowId, rows: seq<Row>): Option<RowId> {
    var inferred := if rows == [] then 0 else rows[|rows|-1].id + 1;
    if rows == [] then Some(next)
    else if next == 0 then Some(inferred)
    else if next < inferred then None
    else Some(next)
  }

  /** Rebuild one index, refusing a duplicate key of a unique index. */
  method RebuildIndex(t: TableSchema, d: IndexDefinition, rows: seq<Row>) returns (p: Option<Posting>)
    requires AscendingRows(rows)
    ensures p.Some? ==> Lists(p.value, FilingOf(t, d, RowMapOf(rows)))
    ensures p.Some? <==>
            (forall row <- rows :: !Unfileable(t, d, row.fields))
              && (d.unique ==> Injective(FilingOf(t, d, RowMapOf(rows))))
  {
    hide RowMapOf, FilingOf, Unfileable;
    var built := BuildIndex(t, d, rows);
    if built.None? { return None; }
    SingleIsInjective(built.value, FilingOf(t, d, RowMapOf(rows)));
    if d.unique && exists k <- built.value :: |built.value[k]| > 1 { return None; }
    return built;
  }

  lemma SingleIsInjective(p: Posting, f: Filing)
    requires Lists(p, f)
    ensures Injective(f) <==> forall k <- p :: |p[k]| <= 1
  {
    if Injective(f) {
      forall k <- p ensures |p[k]| <= 1 {
        var ids := p[k];
        forall id <- ids ensures id == ids[0] { assert Has(p, k, id) && Has(p, k, ids[0]); }
        AscendingUnique(ids, [ids[0]]);
      }
    }
    if forall k <- p :: |p[k]| <= 1 {
      forall a <- f, b <- f | f[a] == f[b] ensures a == b {
        assert Has(p, f[a], a) && Has(p, f[b], b);
        var ids := p[f[a]];
        assert a in ids && b in ids && |ids| == 1;
        assert ids[0] == a && ids[0] == b;
      }
    }
  }

  lemma StoredLoads(t: TableSchema, r: RowType, version: nat, row: Row, s: StoredRow)
    requires WellFormedCatalog(t.catalog) && WellFormed(StorageType(t, r)) && Storable(t, r, row.fields)
    requires StoresAs(t, r, version, row, s)
    ensures Loadable(t, r, s) && forall back :: Loads(t, r, s, back) && back.id == s.id ==> back == row
  {
    hide EncodeDocument, DecodeDocument, WellTyped;
    DocumentRoundTrip(t.catalog, StorageType(t, r), Wrapped(r, row.fields), version);
    assert Unwrapped(Record(row.fields)) == Record(row.fields);
    assert Unwrapped(Wrapped(r, row.fields)) == Record(row.fields);
  }

  /** Storing a table and loading it again restores its rows under their own IDs, gaps
      included, its allocation cursor and, by rebuilding, exactly the indexes that were
      maintained incrementally. */
  method RoundTrip(
    table: Table, r: RowType,
    version: nat) returns (stored: Option<seq<StoredRow>>, rows: seq<Row>, next: RowId, indexes: map<string, Posting>)
    requires table.Valid() && VALUE_CODEC_VERSION <= version <= MAP_VALUE_CODEC_VERSION
    requires WellFormedCatalog(table.schema.catalog) && WellFormed(StorageType(table.schema, r))
    requires forall row <- table.rows :: Storable(table.schema, r, row.fields)
    ensures stored.Some? ==> rows == table.rows && next == table.nextRowId
    ensures stored.Some? ==>
            forall d <- table.definitions ::
              d.shape in indexes && d.shape in table.indexes && indexes[d.shape] == table.indexes[d.shape]
    ensures stored.None? <==>
            exists row <- table.rows ::
              EncodeDocument(table.schema.catalog, StorageType(table.schema, r), Wrapped(r, row.fields), version).None?
  {
    hide RowMapOf, FilingOf, Lists, Unfileable, EncodeDocument, DecodeDocument, Storable, WellFormed,
      WellFormedCatalog, StoresAs, Loads, Loadable;
    var t := table.schema;
    rows, next, indexes := [], 0, map[];
    stored := StoreRows(t, r, version, table.rows);
    if stored.None? { return; }
    forall i | 0 <= i < |table.rows|
      ensures Loadable(t, r, stored.value[i]) && stored.value[i].id == table.rows[i].id
      ensures forall back :: Loads(t, r, stored.value[i], back) && back.id == stored.value[i].id ==>
                back == table.rows[i]
    {
      assert table.rows[i] in table.rows && StoresAs(t, r, version, table.rows[i], stored.value[i]);
      StoredLoads(t, r, version, table.rows[i], stored.value[i]);
      SameId(t, r, version, table.rows[i], stored.value[i]);
    }
    assert StrictIds(stored.value);
    var loaded := LoadRows(t, r, stored.value);
    rows := loaded.value;
    assert rows == table.rows;
    next := LoadedNext(table.nextRowId, rows).value;
    for i := 0 to |table.definitions|
      invariant forall j :: 0 <= j < i ==>
        && table.definitions[j].shape in indexes
        && indexes[table.definitions[j].shape] == table.indexes[table.definitions[j].shape]
    {
      var d := table.definitions[i];
      RowsFileable(t, table.definitions, d, rows);
      UniqueDefinitions(t, table.definitions, d, RowMapOf(rows));
      var p := RebuildIndex(t, d, rows);
      ListsUnique(p.value, table.indexes[d.shape], FilingOf(t, d, RowMapOf(rows)));
      indexes := indexes[d.shape := p.value];
    }
  }

  lemma SameId(t: TableSchema, r: RowType, version: nat, row: Row, s: StoredRow)
    requires StoresAs(t, r, version, row, s)
    ensures s.id == row.id
  {}

  lemma RowsFileable(t: TableSchema, ds: seq<IndexDefinition>, d: IndexDefinition, rows: seq<Row>)
    requires AscendingRows(rows) && AllFileable(t, ds, RowMapOf(rows)) && d in ds
    ensures forall row <- rows :: !Unfileable(t, d, row.fields)
  {
    hide RowMapOf, Unfileable;
    RowMapMembers(rows);
    forall row <- rows ensures !Unfileable(t, d, row.fields) { assert !Unfileable(t, d, RowMapOf(rows)[row.id]); }
  }

  lemma UniqueDefinitions(t: TableSchema, ds: seq<IndexDefinition>, d: IndexDefinition, rm: RowMap)
    requires NoDuplicates(t, ds, rm) && d in ds
    ensures d.unique ==> Injective(FilingOf(t, d, rm))
  {
    hide FilingOf;
  }
}
