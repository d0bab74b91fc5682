/** The table object: rows, allocation cursor and indexes, updated in place. */
module Tables {
  import opened Scalars
  import opened Model
  import opened OrderedKey
  import opened Schema
  import opened Postings
  import opened TableStore

  /** No unique index of the table would hold two rows under one key. */
  ghost predicate NoDuplicates(t: TableSchema, ds: seq<IndexDefinition>, rm: RowMap) {
    forall d <- ds :: MustBeUnique(t, d) ==> Injective(FilingOf(t, d, rm))
  }

  ghost predicate AllFileable(t: TableSchema, ds: seq<IndexDefinition>, rm: RowMap) {
    forall d <- ds, id <- rm :: !Unfileable(t, d, rm[id])
  }

  ghost predicate AftersFileable(t: TableSchema, ds: seq<IndexDefinition>, cs: seq<RowChange>) {
    forall d <- ds, c <- cs :: c.after.Some? ==> !Unfileable(t, d, c.after.value.fields)
  }

  /** The change set can be applied: every new row can be filed and the final table has no
      duplicate unique key. */
  ghost predicate Replaceable(t: TableSchema, ds: seq<IndexDefinition>, rm: RowMap, cs: seq<RowChange>) {
    AftersFileable(t, ds, cs) && NoDuplicates(t, ds, ApplyAll(rm, cs))
  }

  ghost predicate DistinctShapes(ds: seq<IndexDefinition>) {
    forall i, j :: 0 <= i < j < |ds| ==> ds[i].shape != ds[j].shape
  }

  /** Every index of the table lists exactly the rows it should. */
  ghost predicate Indexed(t: TableSchema, ds: seq<IndexDefinition>, indexes: map<string, Posting>, rm: RowMap) {
    forall d <- ds :: d.shape in indexes && Lists(indexes[d.shape], FilingOf(t, d, rm))
  }

  /** The total ascending index on the primary key that every keyed table carries. */
  function PrimaryDefinition(key: string): IndexDefinition {
    IndexDefinition(key, [IndexComponent(key, false)], false, None)
  }

  ghost predicate PrimaryIndexed(t: TableSchema, ds: seq<IndexDefinition>) {
    t.primaryKey.Some? ==> PrimaryDefinition(t.primaryKey.value) in ds
  }

  /** A table with its primary index, whose rows are filed and whose unique keys hold. */
  ghost predicate Sound(t: TableSchema, ds: seq<IndexDefinition>, rm: RowMap) {
    && PrimaryIndexed(t, ds) && AllFileable(t, ds, rm) && NoDuplicates(t, ds, rm)
    && forall id <- rm :: PlainNames(rm[id])
  }

  /** The row an upsert writes: the one with the same primary key, else a new one. */
  ghost predicate UpsertTarget(t: TableSchema, rm: RowMap, next: RowId, fields: Fields, id: RowId)
    requires t.primaryKey.Some?
  {
    var d := PrimaryDefinition(t.primaryKey.value);
    var f, key := FilingOf(t, d, rm), IndexKey(t, d, fields);
    && key.Some?
    && (if id in rm then id in f && f[id] == key.value else id == next && forall x <- f :: f[x] != key.value)
  }

  class Table {
    const schema: TableSchema
    const definitions: seq<IndexDefinition>
    var rows: seq<Row>
    var nextRowId: RowId
    var indexes: map<string, Posting>

    ghost predicate Valid()
      reads this
    {
      && DistinctShapes(definitions) && PrimaryIndexed(schema, definitions)
      && AscendingRows(rows) && Below(rows, nextRowId)
      && nextRowId < ROW_ID_LIMIT
      && AllFileable(schema, definitions, RowMapOf(rows))
      && NoDuplicates(schema, definitions, RowMapOf(rows))
      && Indexed(schema, definitions, indexes, RowMapOf(rows))
    }

    constructor (schema: TableSchema, definitions: seq<IndexDefinition>)
      requires DistinctShapes(definitions) && PrimaryIndexed(schema, definitions)
      ensures this.schema == schema && this.definitions == definitions
      ensures Valid() && rows == [] && nextRowId == 0
    {
      this.schema, this.definitions := schema, definitions;
      rows, nextRowId := [], 0;
      indexes := map d <- definitions :: d.shape := map[];
      new;
      forall d <- definitions ensures Lists(indexes[d.shape], FilingOf(schema, d, RowMapOf(rows))) {
        EmptyLists(schema, d);
      }
    }

    /** Replace the rows by those of a change set, all or nothing. The change set is
        accepted exactly when every new row can be filed and the resulting table has no
        duplicate unique key; a refusal alters nothing and is never an internal index
        error. */
    method ReplaceRowsAndIndexes(rows': seq<Row>, changes: seq<RowChange>) returns (r: Outcome)
      requires Valid() && Fits(RowMapOf(rows), changes)
      requires AscendingRows(rows') && RowMapOf(rows') == ApplyAll(RowMapOf(rows), changes)
      modifies this`rows, this`indexes
      ensures r.Ok? <==> Replaceable(schema, definitions, RowMapOf(old(rows)), changes)
      ensures r.Ok? ==> rows == rows' && Indexed(schema, definitions, indexes, RowMapOf(rows))
                        && AllFileable(schema, definitions, RowMapOf(rows))
                           && NoDuplicates(schema, definitions, RowMapOf(rows))
      ensures r.Rejected? ==>
              rows == old(rows) && indexes == old(indexes) && (r.reason == BadKey || r.reason == Duplicate)
    {
      hide RowMapOf, ApplyAll, FilingOf, Lists, Unfileable, MustBeUnique, AscendingRows, Fits, NoDuplicates,
        Indexed;
      ghost var rm := RowMapOf(rows);
      var bad := AnyUnfileable(schema, definitions, changes);
      if bad { return Rejected(BadKey); }
      var current := RemoveEverywhere(schema, definitions, indexes, changes, rm);
      if current.None? { return Rejected(IndexBroken); }
      var final, why := InsertEverywhere(schema, definitions, current.value, changes, rm);
      if final.None? { return Rejected(why); }
      FileableAfter(schema, definitions, rm, changes);
      rows, indexes := rows', final.value;
      return Ok;
    }

    /** Insert one row: check, then push the new ID at the end of each posting. */
    method InsertFields(fields: Fields) returns (r: Outcome)
      requires Valid()
      modifies this
      ensures Valid()
      ensures r.Ok? <==> && (forall d <- definitions :: !Unfileable(schema, d, fields))
                         && NoDuplicates(schema, definitions, RowMapOf(old(rows))[old(nextRowId) := fields])
                         && old(nextRowId) + 1 < ROW_ID_LIMIT
      ensures r.Ok? ==> rows == old(rows) + [Row(old(nextRowId), fields)] && nextRowId == old(nextRowId) + 1
      ensures r.Rejected? ==>
              rows == old(rows) && indexes == old(indexes) && nextRowId == old(nextRowId) && r.reason != IndexBroken
    {
      hide RowMapOf, Unfileable, AllFileable, NoDuplicates, Indexed;
      ghost var rm := RowMapOf(rows);
      FreshId();
      var why := UniqueKeysFree(schema, definitions, indexes, fields, rm, nextRowId);
      if why.Some? { return Rejected(why.value); }
      if nextRowId + 1 >= ROW_ID_LIMIT { return Rejected(RowIdsExhausted); }
      var changes := [RowChange(None, Some(Row(nextRowId, fields)))];
      var bad := AnyUnfileable(schema, definitions, changes);
      if bad { return Rejected(BadKey); }
      assert changes[0] in changes;
      var current := PushEverywhere(schema, definitions, indexes, fields, nextRowId, rm);
      FileableInsert(schema, definitions, rm, nextRowId, fields);
      RowMapPush(rows, Row(nextRowId, fields));
      rows, nextRowId, indexes := rows + [Row(nextRowId, fields)], nextRowId + 1, current;
      return Ok;
    }

    lemma FreshId()
      requires Valid()
      ensures forall id <- RowMapOf(rows) :: id < nextRowId
    {
      RowMapMembers(rows);
    }

    /** Insert a batch under consecutive new IDs, all or nothing. */
    method InsertMany(batch: seq<Fields>) returns (r: Outcome)
      requires Valid()
      modifies this
      ensures Valid()
      ensures r.Ok? ==> rows == old(rows) + Numbered(batch, old(nextRowId)) && nextRowId == old(nextRowId) + |batch|
      ensures r.Ok? <==> && (forall d <- definitions, f <- batch :: !Unfileable(schema, d, f))
                         && NoDuplicates(schema, definitions, RowMapOf(old(rows) + Numbered(batch, old(nextRowId))))
                         && old(nextRowId) + |batch| < ROW_ID_LIMIT
      ensures r.Rejected? ==>
              rows == old(rows) && indexes == old(indexes) && nextRowId == old(nextRowId) && r.reason != IndexBroken
    {
      hide RowMapOf, Unfileable, NoDuplicates, AllFileable, Indexed, AftersFileable, Fits;
      if nextRowId + |batch| >= ROW_ID_LIMIT { return Rejected(RowIdsExhausted); }
      var rows', changes := AppendRows(rows, batch, nextRowId);
      AftersAre(schema, definitions, changes, batch);
      r := ReplaceRowsAndIndexes(rows', changes);
      if r.Ok? { nextRowId := nextRowId + |batch|; }
    }

    /** Set the fields of existing rows, all or nothing. An unknown target is refused. */
    method Update(targets: seq<RowId>, batch: seq<Fields>) returns (r: Outcome)
      requires Valid() && |targets| == |batch| && DistinctTargets(targets)
      modifies this
      ensures Valid() && nextRowId == old(nextRowId)
      ensures r.Ok? ==> RowMapOf(rows) == Overwritten(RowMapOf(old(rows)), targets, batch)
      ensures r.Ok? <==> && (forall id <- targets :: id in RowMapOf(old(rows)))
                         && (forall d <- definitions, f <- batch :: !Unfileable(schema, d, f))
                         && NoDuplicates(schema, definitions, Overwritten(RowMapOf(old(rows)), targets, batch))
      ensures r.Rejected? ==> rows == old(rows) && indexes == old(indexes)
      ensures r == Rejected(IndexBroken) ==> exists id <- targets :: id !in RowMapOf(old(rows))
    {
      hide RowMapOf, Unfileable, NoDuplicates, AllFileable, Indexed, AftersFileable, Fits, Overwritten;
      var found, rows', changes := OverwriteRows(rows, targets, batch, nextRowId);
      if !found { return Rejected(IndexBroken); }
      AftersAre(schema, definitions, changes, batch);
      r := ReplaceRowsAndIndexes(rows', changes);
    }

    method Delete(targets: seq<RowId>) returns (r: Outcome)
      requires Valid() && DistinctTargets(targets)
      modifies this
      ensures Valid() && nextRowId == old(nextRowId)
      ensures r.Ok? <==> forall id <- targets :: id in RowMapOf(old(rows))
      ensures r.Ok? ==> RowMapOf(rows) == RowMapOf(old(rows)) - (set id <- targets)
      ensures r.Rejected? ==> rows == old(rows) && indexes == old(indexes) && r.reason == IndexBroken
    {
      hide RowMapOf, Unfileable, NoDuplicates, AllFileable, Indexed, Fits;
      var found, rows', changes := RemoveRows(rows, targets, nextRowId);
      if !found { return Rejected(IndexBroken); }
      DeletesKeepUnique(schema, definitions, RowMapOf(rows), RowMapOf(rows'));
      r := ReplaceRowsAndIndexes(rows', changes);
    }

    /** Replace the row with the same primary key, or insert. */
    method Upsert(fields: Fields) returns (r: Outcome, id: RowId)
      requires Valid()
      modifies this
      ensures Valid()
      ensures schema.primaryKey.None? ==> r == Rejected(NoPrimaryKey)
      ensures schema.primaryKey.Some? && IndexKey(schema, PrimaryDefinition(schema.primaryKey.value), fields).None? ==>
              r == Rejected(BadKey)
      ensures schema.primaryKey.Some? && IndexKey(schema, PrimaryDefinition(schema.primaryKey.value), fields).Some? ==>
        && UpsertTarget(schema, RowMapOf(old(rows)), old(nextRowId), fields, id)
        && (r.Ok? <==> && (forall d <- definitions :: !Unfileable(schema, d, fields))
                       && NoDuplicates(schema, definitions, RowMapOf(old(rows))[id := fields])
                       && (id == old(nextRowId) ==> id + 1 < ROW_ID_LIMIT))
      ensures r.Ok? ==> && RowMapOf(rows) == RowMapOf(old(rows))[id := fields]
                        && nextRowId == if id == old(nextRowId) then id + 1 else old(nextRowId)
      ensures r.Rejected? ==>
              rows == old(rows) && indexes == old(indexes) && nextRowId == old(nextRowId) && r.reason != IndexBroken
    {
      hide RowMapOf, FilingOf, Lists, IndexKey, Unfileable, NoDuplicates, AllFileable;
      ghost var rm := RowMapOf(rows);
      FreshId();
      id := 0;
      if schema.primaryKey.None? { return Rejected(NoPrimaryKey), id; }
      var d := PrimaryDefinition(schema.primaryKey.value);
      var key := IndexKey(schema, d, fields);
      if key.None? { return Rejected(BadKey), id; }
      FilingIds(schema, d, rm, nextRowId);
      FirstUnderKey(schema, d, indexes[d.shape], rm, key.value);
      if key.value in indexes[d.shape] {
        id := indexes[d.shape][key.value][0];
        r := Update([id], [fields]);
        OverwrittenOne(rm, id, fields);
      } else {
        id := nextRowId;
        r := InsertFields(fields);
        RowMapPush(old(rows), Row(id, fields));
      }
    }

    /** The bounded path: duplicates inside the batch, then index hits outside the rows
        being changed. It changes nothing. The replacing path accepts a change set exactly
        when this path does and the indexes this path does not look at can file the rows. */
    method ValidateSourceUnique(changes: seq<RowChange>) returns (r: Outcome)
      requires Valid() && Fits(RowMapOf(rows), changes)
      ensures r.Ok? <==> && UniqueAftersFileable(schema, definitions, changes)
                         && NoDuplicates(schema, definitions, ApplyAll(RowMapOf(rows), changes))
      ensures Replaceable(schema, definitions, RowMapOf(rows), changes) <==>
              r.Ok? && OthersFileable(schema, definitions, changes)
      ensures r.Rejected? ==> r.reason == BadKey || r.reason == Duplicate
    {
      hide RowMapOf, ApplyAll, FilingOf, Lists, IndexKey, Includes, MustBeUnique, Fits;
      ghost var rm := RowMapOf(rows);
      ReplaceableSplits(schema, definitions, rm, changes);
      for i := 0 to |definitions|
        invariant forall j :: 0 <= j < i && MustBeUnique(schema, definitions[j]) ==>
          && AllAftersFileable(schema, definitions[j], changes)
          && Injective(FilingOf(schema, definitions[j], ApplyAll(rm, changes)))
      {
        var d := definitions[i];
        if MustBeUnique(schema, d) {
          var why := SourceCheck(schema, d, indexes[d.shape], changes, rm);
          if why.Some? { return Rejected(why.value); }
        }
      }
      return Ok;
    }
  }

  /** Every index without the before images of a change set. */
  ghost predicate Emptied(
    t: TableSchema, ds: seq<IndexDefinition>, indexes: map<string, Posting>, changes: seq<RowChange>, rm: RowMap) {
    forall d <- ds :: d.shape in indexes && Lists(indexes[d.shape], FilingOf(t, d, rm) - Leaving(t, d, changes))
  }

  /** Remove the before images from every index. */
  method RemoveEverywhere(
    t: TableSchema, ds: seq<IndexDefinition>, indexes: map<string, Posting>, changes: seq<RowChange>, ghost rm: RowMap)
    returns (r: Option<map<string, Posting>>)
    requires DistinctShapes(ds) && Indexed(t, ds, indexes, rm) && Fits(rm, changes)
    ensures r.Some? && Emptied(t, ds, r.value, changes, rm)
  {
    hide FilingOf, Lists, Fits, Leaving;
    var current := indexes;
    for i := 0 to |ds|
      invariant forall j :: 0 <= j < |ds| ==> ds[j].shape in current
      invariant forall j :: 0 <= j < i ==>
        Lists(current[ds[j].shape], FilingOf(t, ds[j], rm) - Leaving(t, ds[j], changes))
      invariant forall j :: i <= j < |ds| ==> Lists(current[ds[j].shape], FilingOf(t, ds[j], rm))
    {
      var d := ds[i];
      if d.shape !in current { return None; }
      var p := RemoveBeforeImages(t, d, current[d.shape], changes, rm);
      if p.None? { return None; }
      current := current[d.shape := p.value];
    }
    return Some(current);
  }

  /** Insert the after images into every index; a unique index refuses a second row under
      one key. */
  method InsertEverywhere(
    t: TableSchema, ds: seq<IndexDefinition>, indexes: map<string, Posting>, changes: seq<RowChange>, ghost rm: RowMap)
    returns (r: Option<map<string, Posting>>, why: Reason)
    requires DistinctShapes(ds) && Emptied(t, ds, indexes, changes, rm) && Fits(rm, changes)
    requires NoDuplicates(t, ds, rm)
    ensures r.Some? <==> NoDuplicates(t, ds, ApplyAll(rm, changes))
    ensures r.Some? ==> Indexed(t, ds, r.value, ApplyAll(rm, changes))
    ensures r.None? ==> why == Duplicate
  {
    hide FilingOf, Lists, Fits, Leaving, ApplyAll, Unfileable, MustBeUnique;
    ghost var final := ApplyAll(rm, changes);
    var current := indexes;
    for i := 0 to |ds|
      invariant forall j :: 0 <= j < |ds| ==> ds[j].shape in current
      invariant forall j :: 0 <= j < i ==>
        Lists(current[ds[j].shape], FilingOf(t, ds[j], final)) &&
        (MustBeUnique(t, ds[j]) ==> Injective(FilingOf(t, ds[j], final)))
      invariant forall j :: i <= j < |ds| ==>
        Lists(current[ds[j].shape], FilingOf(t, ds[j], rm) - Leaving(t, ds[j], changes))
    {
      var d := ds[i];
      var p, reason := InsertAfterImages(t, d, current[d.shape], changes, rm);
      if p.None? { return None, reason; }
      current := current[d.shape := p.value];
    }
    return Some(current), Duplicate;
  }

  method AnyUnfileable(t: TableSchema, ds: seq<IndexDefinition>, cs: seq<RowChange>) returns (bad: bool)
    ensures bad <==> !AftersFileable(t, ds, cs)
  {
    hide Unfileable;
    for i := 0 to |cs|
      invariant forall d <- ds, c <- cs[..i] :: c.after.Some? ==> !Unfileable(t, d, c.after.value.fields)
    {
      if cs[i].after.Some? {
        for j := 0 to |ds|
          invariant forall d <- ds[..j] :: !Unfileable(t, d, cs[i].after.value.fields)
        {
          if Unfileable(t, ds[j], cs[i].after.value.fields) {
            assert ds[j] in ds && cs[i] in cs;
            return true;
          }
        }
        assert ds[..|ds|] == ds;
      }
      assert cs[..i+1] == cs[..i] + [cs[i]];
    }
    assert cs[..|cs|] == cs;
    return false;
  }

  /** The checks of a single insert: every unique index has the new key free. */
  method UniqueKeysFree(
    t: TableSchema, ds: seq<IndexDefinition>, indexes: map<string, Posting>, fields: Fields, ghost rm: RowMap,
    ghost id: RowId)
    returns (why: Option<Reason>)
    requires Indexed(t, ds, indexes, rm) && NoDuplicates(t, ds, rm) && id !in rm
    ensures why.None? ==> NoDuplicates(t, ds, rm[id := fields])
    ensures why.Some? ==> !((forall d <- ds :: !Unfileable(t, d, fields)) && NoDuplicates(t, ds, rm[id := fields]))
    ensures why.Some? ==> why.value == BadKey || why.value == Duplicate
  {
    hide FilingOf, Lists, IndexKey, Includes, MustBeUnique;
    for i := 0 to |ds|
      invariant forall j :: 0 <= j < i && MustBeUnique(t, ds[j]) ==> Injective(FilingOf(t, ds[j], rm[id := fields]))
    {
      var d := ds[i];
      if MustBeUnique(t, d) {
        if Includes(d, fields) {
          var key := IndexKey(t, d, fields);
          if key.None? { assert Unfileable(t, d, fields); return Some(BadKey); }
          KeyOccupied(t, d, indexes[d.shape], rm, id, fields);
          if key.value in indexes[d.shape] { return Some(Duplicate); }
        } else {
          FilingInsert(t, d, rm, id, fields);
        }
      }
    }
    return None;
  }

  method PushEverywhere(
    t: TableSchema, ds: seq<IndexDefinition>, indexes: map<string, Posting>, fields: Fields, id: RowId,
    ghost rm: RowMap)
    returns (current: map<string, Posting>)
    requires DistinctShapes(ds) && Indexed(t, ds, indexes, rm) && (forall x <- rm :: x < id)
    requires forall d <- ds :: !Unfileable(t, d, fields)
    ensures Indexed(t, ds, current, rm[id := fields])
  {
    hide FilingOf, Lists, IndexKey, Includes;
    current := indexes;
    for i := 0 to |ds|
      invariant forall j :: 0 <= j < |ds| ==> ds[j].shape in current
      invariant forall j :: 0 <= j < i ==> Lists(current[ds[j].shape], FilingOf(t, ds[j], rm[id := fields]))
      invariant forall j :: i <= j < |ds| ==> Lists(current[ds[j].shape], FilingOf(t, ds[j], rm))
    {
      var d := ds[i];
      FilingInsert(t, d, rm, id, fields);
      if Includes(d, fields) {
        assert !Unfileable(t, d, fields);
        var key, p := IndexKey(t, d, fields).value, current[d.shape];
        FilingIds(t, d, rm, id);
        PushLast(p, FilingOf(t, d, rm), key, id);
        current := current[d.shape := p[key := (if key in p then p[key] else []) + [id]]];
      }
    }
  }

  lemma FileableInsert(t: TableSchema, ds: seq<IndexDefinition>, rm: RowMap, id: RowId, fields: Fields)
    requires AllFileable(t, ds, rm) && forall d <- ds :: !Unfileable(t, d, fields)
    ensures AllFileable(t, ds, rm[id := fields])
  {
    hide Unfileable;
  }

  lemma FileableAfter(t: TableSchema, ds: seq<IndexDefinition>, rm: RowMap, cs: seq<RowChange>)
    requires Fits(rm, cs) && AllFileable(t, ds, rm) && AftersFileable(t, ds, cs)
    ensures AllFileable(t, ds, ApplyAll(rm, cs))
  {
    hide Unfileable;
    ApplyAllMembers(rm, cs);
    var after := ApplyAll(rm, cs);
    forall d <- ds, id <- after ensures !Unfileable(t, d, after[id]) {
      if id in ChangedIds(cs) {
        var c :| c in cs && c.Id() == id;
      }
    }
  }

  // ---- Rows as maps -----------------------------------------------------------------------------

  ghost predicate DistinctTargets(targets: seq<RowId>) {
    forall i, j :: 0 <= i < j < |targets| ==> targets[i] != targets[j]
  }

  function Numbered(batch: seq<Fields>, first: RowId): seq<Row> {
    seq(|batch|, i requires 0 <= i < |batch| => Row(first + i, batch[i]))
  }

  ghost function Overwritten(rm: RowMap, targets: seq<RowId>, batch: seq<Fields>): RowMap
    requires |targets| == |batch|
  {
    if targets == [] then rm
    else Overwritten(rm, targets[..|targets|-1], batch[..|targets|-1])[targets[|targets|-1] := batch[|targets|-1]]
  }

  ghost predicate Below(rows: seq<Row>, next: RowId) {
    forall r <- rows :: r.id < next
  }

  lemma RowMapIs(rows: seq<Row>, m: RowMap)
    requires AscendingRows(rows)
    requires forall id <- m :: Row(id, m[id]) in rows
    requires forall r <- rows :: r.id in m && m[r.id] == r.fields
    ensures RowMapOf(rows) == m
  {
    hide RowMapOf;
    RowMapMembers(rows);
  }

  lemma ApplyPush(rm: RowMap, cs: seq<RowChange>, c: RowChange)
    ensures ApplyAll(rm, cs + [c]) == Apply(ApplyAll(rm, cs), c)
  {
    assert (cs + [c])[..|cs|] == cs;
  }

  lemma RowMapPush(rows: seq<Row>, row: Row)
    ensures RowMapOf(rows + [row]) == RowMapOf(rows)[row.id := row.fields]
  {
    assert (rows + [row])[..|rows|] == rows;
  }

  lemma RowMapSet(rows: seq<Row>, i: nat, row: Row)
    requires AscendingRows(rows) && i < |rows| && rows[i].id == row.id
    ensures AscendingRows(rows[i := row])
    ensures RowMapOf(rows[i := row]) == RowMapOf(rows)[row.id := row.fields]
  {
    hide RowMapOf;
    RowMapMembers(rows);
    var rows', m := rows[i := row], RowMapOf(rows)[row.id := row.fields];
    forall id <- m ensures Row(id, m[id]) in rows' {
      if id == row.id {
        assert rows'[i] == row;
      } else {
        var k :| 0 <= k < |rows| && rows[k] == Row(id, m[id]);
        assert rows'[k] == rows[k];
      }
    }
    forall r <- rows' ensures r.id in m && m[r.id] == r.fields {
      var k :| 0 <= k < |rows'| && rows'[k] == r;
      if k != i { assert rows[k] in rows; }
    }
    RowMapIs(rows', m);
  }

  lemma WithoutRow(rows: seq<Row>, i: nat)
    requires AscendingRows(rows) && i < |rows|
    ensures AscendingRows(rows[..i] + rows[i+1..])
    ensures forall r :: r in rows[..i] + rows[i+1..] <==> r in rows && r != rows[i]
  {
    var rows' := rows[..i] + rows[i+1..];
    assert forall k :: 0 <= k < |rows'| ==> rows'[k] == rows[if k < i then k else k + 1];
    forall r | r in rows && r != rows[i] ensures r in rows' {
      var k :| 0 <= k < |rows| && rows[k] == r;
      assert rows'[if k < i then k else k - 1] == rows[k];
    }
  }

  lemma RowMapRemove(rows: seq<Row>, i: nat)
    requires AscendingRows(rows) && i < |rows|
    ensures AscendingRows(rows[..i] + rows[i+1..])
    ensures RowMapOf(rows[..i] + rows[i+1..]) == RowMapOf(rows) - {rows[i].id}
  {
    hide RowMapOf;
    RowMapMembers(rows);
    WithoutRow(rows, i);
    RowMapIs(rows[..i] + rows[i+1..], RowMapOf(rows) - {rows[i].id});
  }

  /** Binary search over rows by ID. */
  method FindRow(rows: seq<Row>, id: RowId) returns (r: Option<nat>)
    requires AscendingRows(rows)
    ensures r.Some? <==> id in RowMapOf(rows)
    ensures r.Some? ==> r.value < |rows| && rows[r.value].id == id && RowMapOf(rows)[id] == rows[r.value].fields
  {
    hide RowMapOf;
    RowMapMembers(rows);
    var low, high := 0, |rows|;
    while low < high
      invariant 0 <= low <= high <= |rows|
      invariant forall i :: 0 <= i < low ==> rows[i].id < id
      invariant forall i :: high <= i < |rows| ==> id <= rows[i].id
    {
      var mid := (low + high) / 2;
      if rows[mid].id < id { low := mid + 1; } else { high := mid; }
    }
    if low < |rows| && rows[low].id == id { return Some(low); }
    return None;
  }

  method AppendRows(rows: seq<Row>, batch: seq<Fields>, next: RowId) returns (rows': seq<Row>, changes: seq<RowChange>)
    requires AscendingRows(rows) && Below(rows, next)
    ensures rows' == rows + Numbered(batch, next) && AscendingRows(rows') && Below(rows', next + |batch|)
    ensures Fits(RowMapOf(rows), changes) && RowMapOf(rows') == ApplyAll(RowMapOf(rows), changes)
    ensures AftersMatch(changes, batch)
  {
    hide RowMapOf, ApplyAll;
    ghost var rm := RowMapOf(rows);
    RowMapMembers(rows);
    rows', changes := rows, [];
    assert ApplyAll(rm, []) == rm by { ApplyNone(rm); }
    for i := 0 to |batch|
      invariant rows' == rows + Numbered(batch, next)[..i] && AscendingRows(rows') && Below(rows', next + i)
      invariant |changes| == i && forall j :: 0 <= j < i ==>
                                    changes[j] == RowChange(None, Some(Row(next + j, batch[j])))
      invariant RowMapOf(rows') == ApplyAll(rm, changes)
    {
      var row := Row(next + i, batch[i]);
      RowMapPush(rows', row);
      ApplyPush(rm, changes, RowChange(None, Some(row)));
      rows', changes := rows' + [row], changes + [RowChange(None, Some(row))];
    }
  }

  lemma ApplyNone(rm: RowMap)
    ensures ApplyAll(rm, []) == rm
  {}

  method OverwriteRows(rows: seq<Row>, targets: seq<RowId>, batch: seq<Fields>, ghost next: RowId)
    returns (found: bool, rows': seq<Row>, changes: seq<RowChange>)
    requires AscendingRows(rows) && Below(rows, next) && |targets| == |batch| && DistinctTargets(targets)
    ensures found <==> forall id <- targets :: id in RowMapOf(rows)
    ensures found ==> AscendingRows(rows') && Below(rows', next) && AftersMatch(changes, batch)
    ensures found ==> Fits(RowMapOf(rows), changes)
    ensures found ==>
            RowMapOf(rows') == ApplyAll(RowMapOf(rows), changes) == Overwritten(RowMapOf(rows), targets, batch)
  {
    hide RowMapOf, ApplyAll, AscendingRows, Fits, AftersMatch, Replaces;
    ghost var rm := RowMapOf(rows);
    rows', changes := rows, [];
    ApplyNone(rm);
    ReplacesNone(rm);
    for i := 0 to |targets|
      invariant AscendingRows(rows') && Below(rows', next)
      invariant Replaces(rm, changes, targets[..i], batch[..i])
      invariant RowMapOf(rows') == ApplyAll(rm, changes) == Overwritten(rm, targets[..i], batch[..i])
      invariant forall id :: id in RowMapOf(rows') <==> id in rm
      invariant forall id :: id in rm && id !in targets[..i] ==> RowMapOf(rows')[id] == rm[id]
    {
      var id := targets[i];
      assert id !in targets[..i];
      var position := FindRow(rows', id);
      if position.None? { return false, rows, []; }
      var before, after := rows'[position.value], Row(id, batch[i]);
      assert before == Row(id, rm[id]);
      ReplacesPush(rm, changes, targets, batch, i);
      RowMapSet(rows', position.value, after);
      ApplyPush(rm, changes, RowChange(Some(before), Some(after)));
      assert targets[..i+1] == targets[..i] + [id];
      assert targets[..i+1][..i] == targets[..i] && batch[..i+1][..i] == batch[..i];
      rows', changes := rows'[position.value := after], changes + [RowChange(Some(before), Some(after))];
    }
    assert targets[..|targets|] == targets && batch[..|targets|] == batch;
    ReplacesFits(rm, changes, targets, batch);
    found := true;
  }

  ghost predicate Replaces(rm: RowMap, cs: seq<RowChange>, targets: seq<RowId>, batch: seq<Fields>) {
    && |cs| == |targets| == |batch|
    && (forall j :: 0 <= j < |cs| ==> targets[j] in rm)
    && (forall j :: 0 <= j < |cs| ==>
          cs[j] == RowChange(Some(Row(targets[j], rm[targets[j]])), Some(Row(targets[j], batch[j]))))
  }

  lemma ReplacesNone(rm: RowMap)
    ensures Replaces(rm, [], [], [])
  {}

  lemma ReplacesPush(rm: RowMap, cs: seq<RowChange>, targets: seq<RowId>, batch: seq<Fields>, i: nat)
    requires i < |targets| == |batch| && targets[i] in rm && Replaces(rm, cs, targets[..i], batch[..i])
    ensures Replaces(rm, cs + [RowChange(Some(Row(targets[i], rm[targets[i]])), Some(Row(targets[i], batch[i])))],
                     targets[..i+1], batch[..i+1])
  {}

  lemma ReplacesFits(rm: RowMap, cs: seq<RowChange>, targets: seq<RowId>, batch: seq<Fields>)
    requires Replaces(rm, cs, targets, batch) && DistinctTargets(targets)
    ensures Fits(rm, cs) && AftersMatch(cs, batch) && forall id <- targets :: id in rm
  {}

  method RemoveRows(rows: seq<Row>, targets: seq<RowId>, ghost next: RowId)
    returns (found: bool, rows': seq<Row>, changes: seq<RowChange>)
    requires AscendingRows(rows) && Below(rows, next) && DistinctTargets(targets)
    ensures found <==> forall id <- targets :: id in RowMapOf(rows)
    ensures found ==> AscendingRows(rows') && Below(rows', next) && forall c <- changes :: c.after.None?
    ensures found ==> Fits(RowMapOf(rows), changes)
    ensures found ==> RowMapOf(rows') == ApplyAll(RowMapOf(rows), changes) == RowMapOf(rows) - (set id <- targets)
  {
    hide RowMapOf, ApplyAll;
    ghost var rm := RowMapOf(rows);
    rows', changes := rows, [];
    ApplyNone(rm);
    for i := 0 to |targets|
      invariant AscendingRows(rows') && Below(rows', next)
      invariant |changes| == i
      invariant forall j :: 0 <= j < i ==> targets[j] in rm
      invariant forall j :: 0 <= j < i ==> changes[j] == RowChange(Some(Row(targets[j], rm[targets[j]])), None)
      invariant RowMapOf(rows') == ApplyAll(rm, changes)
      invariant forall id :: id in RowMapOf(rows') <==> id in rm && id !in targets[..i]
      invariant forall id <- RowMapOf(rows') :: RowMapOf(rows')[id] == rm[id]
    {
      var id := targets[i];
      assert id !in targets[..i];
      var position := FindRow(rows', id);
      if position.None? { return false, rows, []; }
      var before := rows'[position.value];
      RowMapRemove(rows', position.value);
      ApplyPush(rm, changes, RowChange(Some(before), None));
      assert targets[..i+1] == targets[..i] + [id];
      rows', changes := rows'[..position.value] + rows'[position.value + 1..],
        changes + [RowChange(Some(before), None)];
    }
    assert targets[..|targets|] == targets;
    assert RowMapOf(rows') == rm - (set id <- targets);
    found := true;
  }

  ghost predicate AftersMatch(cs: seq<RowChange>, batch: seq<Fields>) {
    |cs| == |batch| && forall j :: 0 <= j < |cs| ==> cs[j].after.Some? && cs[j].after.value.fields == batch[j]
  }

  lemma AftersAre(t: TableSchema, ds: seq<IndexDefinition>, cs: seq<RowChange>, batch: seq<Fields>)
    requires AftersMatch(cs, batch)
    ensures AftersFileable(t, ds, cs) <==> forall d <- ds, f <- batch :: !Unfileable(t, d, f)
  {
    hide Unfileable;
    if AftersFileable(t, ds, cs) {
      forall d <- ds, f <- batch ensures !Unfileable(t, d, f) {
        var j :| 0 <= j < |batch| && batch[j] == f;
        assert cs[j] in cs;
      }
    }
  }

  lemma OverwrittenOne(rm: RowMap, id: RowId, fields: Fields)
    ensures Overwritten(rm, [id], [fields]) == rm[id := fields]
  {
    assert Overwritten(rm, [], []) == rm;
  }

  lemma FirstUnderKey(t: TableSchema, d: IndexDefinition, p: Posting, rm: RowMap, k: Key)
    requires Lists(p, FilingOf(t, d, rm))
    ensures k in p ==> p[k] != [] && p[k][0] in rm && p[k][0] in FilingOf(t, d, rm) && FilingOf(t, d, rm)[p[k][0]] == k
    ensures k !in p ==> forall x <- FilingOf(t, d, rm) :: FilingOf(t, d, rm)[x] != k
  {
    hide FiledKey;
    var f := FilingOf(t, d, rm);
    if k in p {
      assert Has(p, k, p[k][0]);
    } else {
      forall x <- f ensures f[x] != k { assert Has(p, f[x], x); }
    }
  }

  // ---- The bounded path -------------------------------------------------------------------------

  ghost predicate AllAftersFileable(t: TableSchema, d: IndexDefinition, cs: seq<RowChange>) {
    forall c <- cs :: c.after.Some? ==> !Unfileable(t, d, c.after.value.fields)
  }

  ghost predicate UniqueAftersFileable(t: TableSchema, ds: seq<IndexDefinition>, cs: seq<RowChange>) {
    forall d <- ds :: MustBeUnique(t, d) ==> AllAftersFileable(t, d, cs)
  }

  /** The indexes that are not unique can file every new row. */
  ghost predicate OthersFileable(t: TableSchema, ds: seq<IndexDefinition>, cs: seq<RowChange>) {
    forall d <- ds :: !MustBeUnique(t, d) ==> AllAftersFileable(t, d, cs)
  }

  lemma ReplaceableSplits(t: TableSchema, ds: seq<IndexDefinition>, rm: RowMap, cs: seq<RowChange>)
    ensures Replaceable(t, ds, rm, cs) <==>
            && UniqueAftersFileable(t, ds, cs) && NoDuplicates(t, ds, ApplyAll(rm, cs))
            && OthersFileable(t, ds, cs)
  {
    hide Unfileable, MustBeUnique;
  }

  /** The bounded path alone is not enough: a row too large for an ordinary index passes it
      and is refused by the replacing path. */
  lemma OversizedPasses(t: TableSchema, bytes: Blob)
    requires t.primaryKey.None? && |bytes| > MAX_INDEXED_BYTES
    ensures var d := IndexDefinition("body", [IndexComponent("body", false)], false, None);
            var cs := [RowChange(None, Some(Row(0, map["body" := Bytes(bytes)])))];
            && Fits(map[], cs) && UniqueAftersFileable(t, [d], cs) && NoDuplicates(t, [d], ApplyAll(map[], cs))
            && !Replaceable(t, [d], map[], cs)
  {
    hide FilingOf, EncodeComponents, BoundComponents;
    var d := IndexDefinition("body", [IndexComponent("body", false)], false, None);
    var row := map["body" := Bytes(bytes)];
    var cs := [RowChange(None, Some(Row(0, row)))];
    assert ComponentValues(d.components, row).None?;
    assert Unfileable(t, d, row) && d in [d] && cs[0] in cs;
  }

  ghost predicate BatchDistinct(t: TableSchema, d: IndexDefinition, cs: seq<RowChange>) {
    forall i, j :: 0 <= i < j < |cs| && AfterKey(t, d, cs[i]).Some? ==> AfterKey(t, d, cs[i]) != AfterKey(t, d, cs[j])
  }

  /** No row outside the targets has the key this change writes. */
  ghost predicate Clear(t: TableSchema, d: IndexDefinition, f: Filing, targets: set<RowId>, c: RowChange) {
    AfterKey(t, d, c).Some? ==> forall x <- f :: f[x] == AfterKey(t, d, c).value ==> x in targets
  }

  lemma SourceAccepts(t: TableSchema, d: IndexDefinition, rm: RowMap, cs: seq<RowChange>)
    requires Fits(rm, cs) && Injective(FilingOf(t, d, rm))
    ensures Injective(FilingOf(t, d, ApplyAll(rm, cs))) <==>
            BatchDistinct(t, d, cs) && forall c <- cs :: Clear(t, d, FilingOf(t, d, rm), ChangedIds(cs), c)
  {
    hide FilingOf, AfterKey, ApplyAll;
    var f, g := FilingOf(t, d, rm), FilingOf(t, d, ApplyAll(rm, cs));
    if Injective(g) {
      forall i, j | 0 <= i < j < |cs| && AfterKey(t, d, cs[i]).Some?
        ensures AfterKey(t, d, cs[i]) != AfterKey(t, d, cs[j])
      {
        ChangeFilings(t, d, rm, cs, cs[i]);
        ChangeFilings(t, d, rm, cs, cs[j]);
      }
      forall c <- cs ensures Clear(t, d, f, ChangedIds(cs), c) {
        ChangeFilings(t, d, rm, cs, c);
        forall x <- f | x !in ChangedIds(cs) ensures AfterKey(t, d, c) != Some(f[x]) { OtherFilings(t, d, rm, cs, x); }
      }
    }
    if BatchDistinct(t, d, cs) && forall c <- cs :: Clear(t, d, f, ChangedIds(cs), c) {
      forall a <- g, b <- g | a != b ensures g[a] != g[b] {
        DistinctInBoth(t, d, rm, cs, a, b);
      }
    }
  }

  lemma DistinctInBoth(t: TableSchema, d: IndexDefinition, rm: RowMap, cs: seq<RowChange>, a: RowId, b: RowId)
    requires Fits(rm, cs) && Injective(FilingOf(t, d, rm)) && BatchDistinct(t, d, cs)
    requires forall c <- cs :: Clear(t, d, FilingOf(t, d, rm), ChangedIds(cs), c)
    requires var g := FilingOf(t, d, ApplyAll(rm, cs)); a in g && b in g && a != b
    ensures var g := FilingOf(t, d, ApplyAll(rm, cs)); g[a] != g[b]
  {
    hide FilingOf, AfterKey, ApplyAll;
    if a in ChangedIds(cs) {
      var i :| 0 <= i < |cs| && cs[i].Id() == a;
      ChangeFilings(t, d, rm, cs, cs[i]);
      if b in ChangedIds(cs) {
        var j :| 0 <= j < |cs| && cs[j].Id() == b;
        ChangeFilings(t, d, rm, cs, cs[j]);
      } else {
        OtherFilings(t, d, rm, cs, b);
        assert Clear(t, d, FilingOf(t, d, rm), ChangedIds(cs), cs[i]);
      }
    } else {
      OtherFilings(t, d, rm, cs, a);
      if b in ChangedIds(cs) {
        var j :| 0 <= j < |cs| && cs[j].Id() == b;
        ChangeFilings(t, d, rm, cs, cs[j]);
        assert Clear(t, d, FilingOf(t, d, rm), ChangedIds(cs), cs[j]);
      } else {
        OtherFilings(t, d, rm, cs, b);
      }
    }
  }

  method AnyOutside(ids: seq<RowId>, targets: set<RowId>) returns (r: bool)
    ensures r <==> exists id <- ids :: id !in targets
  {
    for i := 0 to |ids|
      invariant forall id <- ids[..i] :: id in targets
    {
      if ids[i] !in targets { return true; }
    }
    assert ids[..|ids|] == ids;
    return false;
  }

  method SourceCheck(t: TableSchema, d: IndexDefinition, p: Posting, cs: seq<RowChange>, ghost rm: RowMap)
    returns (why: Option<Reason>)
    requires Fits(rm, cs) && Lists(p, FilingOf(t, d, rm)) && Injective(FilingOf(t, d, rm))
    ensures why.None? <==> AllAftersFileable(t, d, cs) && Injective(FilingOf(t, d, ApplyAll(rm, cs)))
    ensures why.Some? ==> why.value == BadKey || why.value == Duplicate
  {
    hide FilingOf, ApplyAll, AfterKey, Lists, Unfileable, ChangedIds, Clear, Fits;
    ghost var f := FilingOf(t, d, rm);
    SourceAccepts(t, d, rm, cs);
    var targets := TargetsOf(cs);
    var changed: set<Key> := {};
    for i := 0 to |cs|
      invariant forall c <- cs[..i] :: c.after.Some? ==> !Unfileable(t, d, c.after.value.fields)
      invariant forall c <- cs[..i] :: AfterKey(t, d, c).Some? ==> AfterKey(t, d, c).value in changed
      invariant forall k <- changed :: exists j :: 0 <= j < i && AfterKey(t, d, cs[j]) == Some(k)
      invariant BatchDistinct(t, d, cs[..i])
      invariant forall c <- cs[..i] :: Clear(t, d, f, targets, c)
    {
      assert cs[..i+1] == cs[..i] + [cs[i]];
      var bad, key, outside := SourceLook(t, d, p, cs[i], targets, f);
      if bad { return Some(BadKey); }
      if key.Some? {
        if key.value in changed { return Some(Duplicate); }
        changed := changed + {key.value};
      }
      if outside { return Some(Duplicate); }
    }
    assert cs[..|cs|] == cs;
    return None;
  }

  function TargetsOf(cs: seq<RowChange>): (r: set<RowId>)
    ensures r == ChangedIds(cs)
  {
    set c <- cs :: c.Id()
  }

  /** The key one change writes, and whether another row outside the batch has it. */
  method SourceLook(t: TableSchema, d: IndexDefinition, p: Posting, c: RowChange, targets: set<RowId>, ghost f: Filing)
    returns (bad: bool, key: Option<Key>, outside: bool)
    requires Lists(p, f)
    ensures bad <==> c.after.Some? && Unfileable(t, d, c.after.value.fields)
    ensures !bad ==> key == AfterKey(t, d, c)
    ensures !bad ==> (outside <==> !Clear(t, d, f, targets, c))
  {
    hide IndexKey, Includes, Lists;
    if c.after.None? || !Includes(d, c.after.value.fields) { return false, None, false; }
    key := IndexKey(t, d, c.after.value.fields);
    if key.None? { return true, None, false; }
    UnderKey(p, f, key.value);
    outside := AnyOutside(if key.value in p then p[key.value] else [], targets);
    bad := false;
    if outside {
      ghost var x: RowId :| Has(p, key.value, x) && x !in targets;
    } else {
      forall x <- f | f[x] == key.value ensures x in targets { assert Has(p, key.value, x); }
    }
  }

  lemma DeletesKeepUnique(t: TableSchema, ds: seq<IndexDefinition>, rm: RowMap, fewer: RowMap)
    requires NoDuplicates(t, ds, rm) && forall id <- fewer :: id in rm && rm[id] == fewer[id]
    ensures NoDuplicates(t, ds, fewer)
  {
    hide FiledKey, MustBeUnique;
    forall d <- ds | MustBeUnique(t, d) ensures Injective(FilingOf(t, d, fewer)) {
      var f, g := FilingOf(t, d, fewer), FilingOf(t, d, rm);
      assert forall id <- f :: id in g && g[id] == f[id];
    }
  }

  lemma FilingIds(t: TableSchema, d: IndexDefinition, rm: RowMap, next: RowId)
    requires forall id <- rm :: id < next
    ensures forall id <- FilingOf(t, d, rm) :: id < next
  {
    hide FiledKey;
  }

  /** A new row duplicates a key exactly when the posting already has that key. */
  lemma KeyOccupied(t: TableSchema, d: IndexDefinition, p: Posting, rm: RowMap, id: RowId, fields: Fields)
    requires Lists(p, FilingOf(t, d, rm)) && Injective(FilingOf(t, d, rm)) && id !in rm && FiledKey(t, d, fields).Some?
    ensures Injective(FilingOf(t, d, rm[id := fields])) <==> FiledKey(t, d, fields).value !in p
  {
    hide FiledKey;
    var f, k := FilingOf(t, d, rm), FiledKey(t, d, fields).value;
    FilingInsert(t, d, rm, id, fields);
    if k in p {
      assert Has(p, k, p[k][0]);
      var x := p[k][0];
      var g := f[id := k];
      assert x in g && id in g && g[x] == g[id];
    } else {
      forall x <- f ensures f[x] != k { assert Has(p, f[x], x); }
      InjectiveStep(f, k, id);
    }
  }
}
