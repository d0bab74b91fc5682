/** Whole runs of mutations. The table object, with its incrementally maintained
    indexes, refines a plain machine over a map from row ID to fields that commits a
    request exactly when the resulting table is acceptable. */
module TableRuns {
  import opened Model
  import opened OrderedKey
  import opened Schema
  import opened Postings
  import opened TableStore
  import opened Tables

  datatype Request =
    | Insert(fields: Fields)
    | InsertMany(batch: seq<Fields>)
    | Upsert(fields: Fields)
    | Update(targets: seq<RowId>, batch: seq<Fields>)
    | Delete(targets: seq<RowId>)

  datatype State = State(rm: RowMap, next: RowId)

  ghost predicate Acceptable(t: TableSchema, ds: seq<IndexDefinition>, s: State) {
    s.next < ROW_ID_LIMIT && AllFileable(t, ds, s.rm) && NoDuplicates(t, ds, s.rm)
  }

  /** Targets come from a query over the table, so they are distinct. */
  ghost predicate Sensible(q: Request) {
    match q
    case Update(targets, batch) => |targets| == |batch| && DistinctTargets(targets)
    case Delete(targets) => DistinctTargets(targets)
    case _ => true
  }

  ghost predicate Present(rm: RowMap, targets: seq<RowId>) {
    forall id <- targets :: id in rm
  }

  ghost function Consecutive(first: RowId, n: nat): (ids: seq<RowId>)
    ensures |ids| == n
  {
    seq(n, i => first + i)
  }

  ghost function UpsertId(t: TableSchema, s: State, fields: Fields): RowId
    requires t.primaryKey.Some?
  {
    var d := PrimaryDefinition(t.primaryKey.value);
    var f := FilingOf(t, d, s.rm);
    if exists x <- f :: Some(f[x]) == IndexKey(t, d, fields)
    then var x: RowId :| x in f && Some(f[x]) == IndexKey(t, d, fields); x
    else s.next
  }

  /** The state a request asks for, or None when it cannot be stated. */
  ghost function Wanted(t: TableSchema, s: State, q: Request): Option<State>
    requires Sensible(q)
  {
    match q
    case Insert(fields) => Some(State(s.rm[s.next := fields], s.next + 1))
    case InsertMany(batch) => Some(State(Overwritten(s.rm, Consecutive(s.next, |batch|), batch), s.next + |batch|))
    case Upsert(fields) =>
      if t.primaryKey.None? || IndexKey(t, PrimaryDefinition(t.primaryKey.value), fields).None? then None else
      var id := UpsertId(t, s, fields);
      Some(State(s.rm[id := fields], if id == s.next then s.next + 1 else s.next))
    case Update(targets, batch) => if Present(s.rm, targets) then Some(State(Overwritten(s.rm, targets, batch), s.next))
    else None
    case Delete(targets) => if Present(s.rm, targets) then Some(State(s.rm - (set id <- targets), s.next)) else None
  }

  ghost function Step(t: TableSchema, ds: seq<IndexDefinition>, s: State, q: Request): State
    requires Sensible(q)
  {
    var w := Wanted(t, s, q);
    if w.Some? && Acceptable(t, ds, w.value) then w.value else s
  }

  ghost function RunAll(t: TableSchema, ds: seq<IndexDefinition>, s: State, qs: seq<Request>): State
    requires forall q <- qs :: Sensible(q)
  {
    if qs == [] then s else Step(t, ds, RunAll(t, ds, s, qs[..|qs|-1]), qs[|qs|-1])
  }

  ghost function Abstract(table: Table): State
    reads table
  {
    State(RowMapOf(table.rows), table.nextRowId)
  }

  // ---- One request ------------------------------------------------------------------------------

  lemma FileableOverwrite(t: TableSchema, ds: seq<IndexDefinition>, rm: RowMap, id: RowId, fields: Fields)
    requires AllFileable(t, ds, rm)
    ensures AllFileable(t, ds, rm[id := fields]) <==> forall d <- ds :: !Unfileable(t, d, fields)
  {
    hide Unfileable;
    var m := rm[id := fields];
    if AllFileable(t, ds, m) {
      forall d <- ds ensures !Unfileable(t, d, fields) { assert id in m && m[id] == fields; }
    }
  }

  lemma {:induction false} OverwrittenMembers(rm: RowMap, targets: seq<RowId>, batch: seq<Fields>)
    requires |targets| == |batch| && DistinctTargets(targets)
    ensures forall id :: id in Overwritten(rm, targets, batch) <==> id in rm || id in targets
    ensures forall id <- rm :: id !in targets ==> Overwritten(rm, targets, batch)[id] == rm[id]
    ensures forall j :: 0 <= j < |targets| ==> Overwritten(rm, targets, batch)[targets[j]] == batch[j]
  {
    if targets != [] {
      var n := |targets| - 1;
      OverwrittenMembers(rm, targets[..n], batch[..n]);
      var m, last := Overwritten(rm, targets[..n], batch[..n]), targets[n];
      assert Overwritten(rm, targets, batch) == m[last := batch[n]];
      hide Overwritten;
      assert forall id :: id in targets <==> id in targets[..n] || id == last by {
        assert targets == targets[..n] + [last];
      }
      forall j | 0 <= j < n ensures m[targets[j]] == batch[j] && targets[j] != last {
        assert m[targets[..n][j]] == batch[..n][j];
      }
    }
  }

  lemma FileableOverwritten(
    t: TableSchema, ds: seq<IndexDefinition>, rm: RowMap, targets: seq<RowId>, batch: seq<Fields>)
    requires |targets| == |batch| && DistinctTargets(targets) && AllFileable(t, ds, rm)
    ensures AllFileable(t, ds, Overwritten(rm, targets, batch)) <==> forall d <- ds, f <- batch :: !Unfileable(t, d, f)
  {
    hide Unfileable, Overwritten;
    var m := Overwritten(rm, targets, batch);
    OverwrittenMembers(rm, targets, batch);
    if AllFileable(t, ds, m) {
      forall d <- ds, f <- batch ensures !Unfileable(t, d, f) {
        var j :| 0 <= j < |batch| && batch[j] == f;
        assert targets[j] in m && m[targets[j]] == f;
      }
    }
    if forall d <- ds, f <- batch :: !Unfileable(t, d, f) {
      forall d <- ds, id <- m ensures !Unfileable(t, d, m[id]) {
        if id in targets { var j :| 0 <= j < |targets| && targets[j] == id; }
      }
    }
  }

  lemma {:induction false} NumberedIsOverwritten(rows: seq<Row>, batch: seq<Fields>, first: RowId)
    ensures RowMapOf(rows + Numbered(batch, first)) == Overwritten(RowMapOf(rows), Consecutive(first, |batch|), batch)
  {
    if batch == [] {
      assert rows + Numbered(batch, first) == rows;
    } else {
      var n := |batch| - 1;
      NumberedIsOverwritten(rows, batch[..n], first);
      assert Consecutive(first, |batch|)[..n] == Consecutive(first, n);
      assert rows + Numbered(batch, first) == (rows + Numbered(batch[..n], first)) + [Row(first + n, batch[n])];
      RowMapPush(rows + Numbered(batch[..n], first), Row(first + n, batch[n]));
    }
  }

  lemma UpsertIdUnique(t: TableSchema, ds: seq<IndexDefinition>, s: State, fields: Fields, id: RowId)
    requires t.primaryKey.Some? && PrimaryIndexed(t, ds) && NoDuplicates(t, ds, s.rm) && s.next !in s.rm
    requires UpsertTarget(t, s.rm, s.next, fields, id)
    ensures UpsertId(t, s, fields) == id
  {
    hide FilingOf, IndexKey;
    var d := PrimaryDefinition(t.primaryKey.value);
    assert MustBeUnique(t, d);
  }

  lemma DeletedFileable(t: TableSchema, ds: seq<IndexDefinition>, rm: RowMap, gone: set<RowId>)
    requires AllFileable(t, ds, rm) && NoDuplicates(t, ds, rm)
    ensures AllFileable(t, ds, rm - gone) && NoDuplicates(t, ds, rm - gone)
  {
    hide Unfileable, NoDuplicates;
    DeletesKeepUnique(t, ds, rm, rm - gone);
  }

  /** Every request does to the table what the plain machine does to the map. */
  method Execute(table: Table, q: Request) returns (r: Outcome)
    requires table.Valid() && Sensible(q)
    modifies table
    ensures table.Valid()
    ensures Abstract(table) == Step(table.schema, table.definitions, old(Abstract(table)), q)
    ensures r.Ok? <==> var w := Wanted(table.schema, old(Abstract(table)), q);
                       w.Some? && Acceptable(table.schema, table.definitions, w.value)
    ensures r.Rejected? ==> table.rows == old(table.rows) && table.indexes == old(table.indexes)
  {
    hide RowMapOf, Overwritten, FilingOf, IndexKey, Unfileable, NoDuplicates, AllFileable, Indexed;
    ghost var t, ds, s := table.schema, table.definitions, Abstract(table);
    table.FreshId();
    match q {
      case Insert(fields) =>
        FileableOverwrite(t, ds, s.rm, s.next, fields);
        RowMapPush(table.rows, Row(s.next, fields));
        r := table.InsertFields(fields);
      case InsertMany(batch) =>
        NumberedIsOverwritten(table.rows, batch, s.next);
        FileableOverwritten(t, ds, s.rm, Consecutive(s.next, |batch|), batch);
        r := table.InsertMany(batch);
      case Upsert(fields) =>
        var id;
        r, id := table.Upsert(fields);
        if t.primaryKey.Some? && IndexKey(t, PrimaryDefinition(t.primaryKey.value), fields).Some? {
          UpsertIdUnique(t, ds, s, fields, id);
          FileableOverwrite(t, ds, s.rm, id, fields);
        }
      case Update(targets, batch) =>
        FileableOverwritten(t, ds, s.rm, targets, batch);
        r := table.Update(targets, batch);
      case Delete(targets) =>
        DeletedFileable(t, ds, s.rm, set id <- targets);
        r := table.Delete(targets);
    }
  }

  /** Over every run, the table holds what the plain machine holds and its indexes are
      exactly the ones rebuilt from the rows. */
  method Run(table: Table, qs: seq<Request>)
    requires table.Valid() && forall q <- qs :: Sensible(q)
    modifies table
    ensures table.Valid()
    ensures Abstract(table) == RunAll(table.schema, table.definitions, old(Abstract(table)), qs)
  {
    hide Step, Abstract;
    for i := 0 to |qs|
      invariant table.Valid()
      invariant Abstract(table) == RunAll(table.schema, table.definitions, old(Abstract(table)), qs[..i])
    {
      assert qs[..i+1][..i] == qs[..i];
      var r := Execute(table, qs[i]);
    }
    assert qs[..|qs|] == qs;
  }

  /** The plain rebuild of every index equals what the table has kept. */
  method Rebuild(table: Table) returns (rebuilt: map<string, Posting>)
    requires table.Valid()
    ensures forall d <- table.definitions ::
              d.shape in rebuilt && d.shape in table.indexes && rebuilt[d.shape] == table.indexes[d.shape]
  {
    hide RowMapOf, FilingOf, Lists, Unfileable;
    rebuilt := map[];
    RowMapMembers(table.rows);
    for i := 0 to |table.definitions|
      invariant forall j :: 0 <= j < i ==>
        && table.definitions[j].shape in rebuilt
        && rebuilt[table.definitions[j].shape] == table.indexes[table.definitions[j].shape]
    {
      var d := table.definitions[i];
      forall row <- table.rows ensures !Unfileable(table.schema, d, row.fields) {
        assert d in table.definitions && !Unfileable(table.schema, d, RowMapOf(table.rows)[row.id]);
      }
      var p := BuildIndex(table.schema, d, table.rows);
      ListsUnique(p.value, table.indexes[d.shape], FilingOf(table.schema, d, RowMapOf(table.rows)));
      rebuilt := rebuilt[d.shape := p.value];
    }
  }

  /** Unique and primary postings have exactly one row. */
  lemma UniquePostings(p: Posting, f: Filing, k: Key)
    requires Lists(p, f) && Injective(f) && k in p
    ensures |p[k]| == 1
  {
    var ids := p[k];
    forall id <- ids ensures id == ids[0] { assert Has(p, k, id) && Has(p, k, ids[0]); }
    AscendingUnique(ids, [ids[0]]);
  }

  /** Two rows may exchange their keys in one batch. */
  lemma SwapAccepted(t: TableSchema, ds: seq<IndexDefinition>, rm: RowMap, a: RowId, b: RowId)
    requires a in rm && b in rm && a != b && NoDuplicates(t, ds, rm)
    ensures NoDuplicates(t, ds, Overwritten(rm, [a, b], [rm[b], rm[a]]))
  {
    hide FiledKey, MustBeUnique;
    var m := rm[a := rm[b]][b := rm[a]];
    assert Overwritten(rm, [a, b], [rm[b], rm[a]]) == m by {
      assert [a, b][..1] == [a] && [rm[b], rm[a]][..1] == [rm[b]];
      OverwrittenOne(rm, a, rm[b]);
    }
    forall d <- ds | MustBeUnique(t, d) ensures Injective(FilingOf(t, d, m)) {
      var f, g := FilingOf(t, d, rm), FilingOf(t, d, m);
      forall x <- g, y <- g | g[x] == g[y] ensures x == y {
        var x', y' := Swapped(a, b, x), Swapped(a, b, y);
        assert x' in f && f[x'] == g[x] && y' in f && f[y'] == g[y];
      }
    }
  }

  function Swapped(a: RowId, b: RowId, x: RowId): RowId {
    if x == a then b else if x == b then a else x
  }
}
