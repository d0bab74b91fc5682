/** A table and its secondary indexes under mutation. Every index is maintained
    incrementally, by removing the before images of a change set and then inserting its
    after images, and always equals the index rebuilt from the rows. */
module TableStore {
  import opened Model
  import opened OrderedKey
  import opened Schema
  import opened Postings

  const ROW_ID_LIMIT: int := 0x1_0000_0000_0000_0000

  type RowMap = map<RowId, Fields>

  datatype RowChange = RowChange(before: Option<Row>, after: Option<Row>) {
    function Id(): RowId {
      if before.Some? then before.value.id else if after.Some? then after.value.id else 0
    }
  }

  datatype Reason = BadKey | Duplicate | IndexBroken | RowIdsExhausted | NoPrimaryKey

  datatype Outcome = Ok | Rejected(reason: Reason)

  // ---- Rows by ID -------------------------------------------------------------------------------

  predicate AscendingRows(rows: seq<Row>) {
    forall i, j :: 0 <= i < j < |rows| ==> rows[i].id < rows[j].id
  }

  function RowMapOf(rows: seq<Row>): RowMap {
    if rows == [] then map[] else RowMapOf(rows[..|rows|-1])[rows[|rows|-1].id := rows[|rows|-1].fields]
  }

  lemma {:induction false} RowMapHas(rows: seq<Row>, i: nat)
    requires AscendingRows(rows) && i < |rows|
    ensures rows[i].id in RowMapOf(rows) && RowMapOf(rows)[rows[i].id] == rows[i].fields
  {
    var n := |rows| - 1;
    if i < n {
      assert rows[..n][i] == rows[i];
      RowMapHas(rows[..n], i);
    }
  }

  lemma {:induction false} RowMapFrom(rows: seq<Row>, id: RowId)
    requires id in RowMapOf(rows)
    ensures Row(id, RowMapOf(rows)[id]) in rows
  {
    var n := |rows| - 1;
    if rows[n].id == id {
      assert rows[n] == Row(id, RowMapOf(rows)[id]);
    } else {
      RowMapFrom(rows[..n], id);
    }
  }

  lemma RowMapMembers(rows: seq<Row>)
    requires AscendingRows(rows)
    ensures forall id <- RowMapOf(rows) :: Row(id, RowMapOf(rows)[id]) in rows
    ensures forall r <- rows :: r.id in RowMapOf(rows) && RowMapOf(rows)[r.id] == r.fields
  {
    hide RowMapOf;
    forall id <- RowMapOf(rows) ensures Row(id, RowMapOf(rows)[id]) in rows { RowMapFrom(rows, id); }
    forall r <- rows ensures r.id in RowMapOf(rows) && RowMapOf(rows)[r.id] == r.fields {
      var i :| 0 <= i < |rows| && rows[i] == r;
      RowMapHas(rows, i);
    }
  }

  // ---- Changes ----------------------------------------------------------------------------------

  ghost predicate DistinctIds(cs: seq<RowChange>) {
    forall i, j :: 0 <= i < j < |cs| ==> cs[i].Id() != cs[j].Id()
  }

  /** Before images are the current rows, inserted rows are new, and no row changes twice. */
  ghost predicate Fits(rm: RowMap, cs: seq<RowChange>) {
    && DistinctIds(cs)
    && (forall c <- cs ::
          && (c.before.Some? || c.after.Some?)
          && (c.before.Some? ==> c.Id() in rm && rm[c.Id()] == c.before.value.fields)
          && (c.before.None? ==> c.Id() !in rm)
          && (c.after.Some? ==> c.after.value.id == c.Id()))
  }

  ghost function Apply(rm: RowMap, c: RowChange): RowMap {
    if c.after.Some? then rm[c.Id() := c.after.value.fields] else rm - {c.Id()}
  }

  ghost function ApplyAll(rm: RowMap, cs: seq<RowChange>): RowMap {
    if cs == [] then rm else Apply(ApplyAll(rm, cs[..|cs|-1]), cs[|cs|-1])
  }

  ghost function ChangedIds(cs: seq<RowChange>): set<RowId> {
    set c <- cs :: c.Id()
  }

  lemma {:induction false} ApplyAllOther(rm: RowMap, cs: seq<RowChange>, id: RowId)
    requires forall c <- cs :: c.Id() != id
    ensures (id in ApplyAll(rm, cs) <==> id in rm) && (id in rm ==> ApplyAll(rm, cs)[id] == rm[id])
  {
    if cs != [] { ApplyAllOther(rm, cs[..|cs|-1], id); }
  }

  lemma {:induction false} ApplyAllChanged(rm: RowMap, cs: seq<RowChange>, i: nat)
    requires DistinctIds(cs) && i < |cs|
    ensures cs[i].Id() in ApplyAll(rm, cs) <==> cs[i].after.Some?
    ensures cs[i].after.Some? ==> ApplyAll(rm, cs)[cs[i].Id()] == cs[i].after.value.fields
  {
    var n := |cs| - 1;
    if i < n {
      assert cs[..n][i] == cs[i];
      ApplyAllChanged(rm, cs[..n], i);
    }
  }

  lemma ApplyAllMembers(rm: RowMap, cs: seq<RowChange>)
    requires DistinctIds(cs)
    ensures forall id :: id !in ChangedIds(cs) ==> (id in ApplyAll(rm, cs) <==> id in rm)
    ensures forall id <- rm :: id !in ChangedIds(cs) ==> ApplyAll(rm, cs)[id] == rm[id]
    ensures forall c <- cs :: c.Id() in ApplyAll(rm, cs) <==> c.after.Some?
    ensures forall c <- cs :: c.after.Some? ==> ApplyAll(rm, cs)[c.Id()] == c.after.value.fields
  {
    hide ApplyAll;
    forall id | id !in ChangedIds(cs)
      ensures (id in ApplyAll(rm, cs) <==> id in rm) && (id in rm ==> ApplyAll(rm, cs)[id] == rm[id])
    {
      ApplyAllOther(rm, cs, id);
    }
    forall c <- cs
      ensures (c.Id() in ApplyAll(rm, cs) <==> c.after.Some?)
              && (c.after.Some? ==> ApplyAll(rm, cs)[c.Id()] == c.after.value.fields)
    {
      var i :| 0 <= i < |cs| && cs[i] == c;
      ApplyAllChanged(rm, cs, i);
    }
  }

  // ---- Filings ----------------------------------------------------------------------------------

  ghost function FilingOf(t: TableSchema, d: IndexDefinition, rm: RowMap): Filing {
    map id | id in rm && FiledKey(t, d, rm[id]).Some? :: FiledKey(t, d, rm[id]).value
  }

  function BeforeKey(t: TableSchema, d: IndexDefinition, c: RowChange): Option<Key> {
    if c.before.Some? then FiledKey(t, d, c.before.value.fields) else None
  }

  function AfterKey(t: TableSchema, d: IndexDefinition, c: RowChange): Option<Key> {
    if c.after.Some? then FiledKey(t, d, c.after.value.fields) else None
  }

  ghost function Leaving(t: TableSchema, d: IndexDefinition, cs: seq<RowChange>): set<RowId> {
    set c | c in cs && BeforeKey(t, d, c).Some? && AfterKey(t, d, c) != BeforeKey(t, d, c) :: c.Id()
  }

  ghost function Arriving(t: TableSchema, d: IndexDefinition, cs: seq<RowChange>): set<RowId> {
    set c | c in cs && AfterKey(t, d, c).Some? && BeforeKey(t, d, c) != AfterKey(t, d, c) :: c.Id()
  }

  lemma SameChange(cs: seq<RowChange>, c: RowChange, d: RowChange)
    requires DistinctIds(cs) && c in cs && d in cs && c.Id() == d.Id()
    ensures c == d
  {
    var i :| 0 <= i < |cs| && cs[i] == c;
    var j :| 0 <= j < |cs| && cs[j] == d;
  }

  lemma ChangeFilings(t: TableSchema, d: IndexDefinition, rm: RowMap, cs: seq<RowChange>, c: RowChange)
    requires Fits(rm, cs) && c in cs
    ensures BeforeKey(t, d, c) == (if c.Id() in FilingOf(t, d, rm) then Some(FilingOf(t, d, rm)[c.Id()]) else None)
    ensures AfterKey(t, d, c) == (var f := FilingOf(t, d, ApplyAll(rm, cs));
                                  if c.Id() in f then Some(f[c.Id()]) else None)
  {
    hide FiledKey;
    ApplyAllMembers(rm, cs);
  }

  lemma OtherFilings(t: TableSchema, d: IndexDefinition, rm: RowMap, cs: seq<RowChange>, id: RowId)
    requires Fits(rm, cs) && id !in ChangedIds(cs)
    ensures var f, g := FilingOf(t, d, rm), FilingOf(t, d, ApplyAll(rm, cs));
            (id in f <==> id in g) && (id in f ==> f[id] == g[id])
  {
    hide FiledKey;
    ApplyAllMembers(rm, cs);
  }

  /** Without the rows that leave and without those that arrive, the old and the new
      filing are the same. */
  lemma HalfwayFiling(t: TableSchema, d: IndexDefinition, rm: RowMap, cs: seq<RowChange>)
    requires Fits(rm, cs)
    ensures FilingOf(t, d, rm) - Leaving(t, d, cs) == FilingOf(t, d, ApplyAll(rm, cs)) - Arriving(t, d, cs)
  {
    hide FiledKey, FilingOf, BeforeKey, AfterKey;
    var f, g := FilingOf(t, d, rm), FilingOf(t, d, ApplyAll(rm, cs));
    var a, b := f - Leaving(t, d, cs), g - Arriving(t, d, cs);
    forall id ensures (id in a <==> id in b) && (id in a ==> a[id] == b[id]) {
      if id in ChangedIds(cs) {
        var c :| c in cs && c.Id() == id;
        ChangeFilings(t, d, rm, cs, c);
        forall e | e in cs && e.Id() == id ensures e == c { SameChange(cs, e, c); }
      } else {
        OtherFilings(t, d, rm, cs, id);
      }
    }
  }

  // ---- One index through one change set ---------------------------------------------------------

  method RemoveBeforeImages(t: TableSchema, d: IndexDefinition, posting: Posting, cs: seq<RowChange>, ghost rm: RowMap)
    returns (r: Option<Posting>)
    requires Fits(rm, cs) && Lists(posting, FilingOf(t, d, rm))
    ensures r.Some? && Lists(r.value, FilingOf(t, d, rm) - Leaving(t, d, cs))
  {
    hide FiledKey, FilingOf, BeforeKey, AfterKey, Unlisted;
    ghost var f := FilingOf(t, d, rm);
    var p := posting;
    assert f - Leaving(t, d, []) == f;
    for i := 0 to |cs|
      invariant Lists(p, f - Leaving(t, d, cs[..i]))
    {
      var c := cs[i];
      ChangeFilings(t, d, rm, cs, c);
      LeavingStep(t, d, cs, i);
      var key := BeforeKey(t, d, c);
      if key.Some? && AfterKey(t, d, c) != key {
        ghost var g := f - Leaving(t, d, cs[..i]);
        assert c.Id() in g && g[c.Id()] == key.value;
        UnlistedFiling(p, g, c.Id());
        if key.value !in p { return None; }
        var found, position := Search(p[key.value], c.Id());
        if !found { return None; }
        p := Unlisted(p, key.value, c.Id());
        assert f - Leaving(t, d, cs[..i+1]) == g - {c.Id()};
      } else {
        assert Leaving(t, d, cs[..i+1]) == Leaving(t, d, cs[..i]);
      }
    }
    assert cs[..|cs|] == cs;
    return Some(p);
  }

  lemma LeavingStep(t: TableSchema, d: IndexDefinition, cs: seq<RowChange>, i: nat)
    requires DistinctIds(cs) && i < |cs|
    ensures cs[i].Id() !in Leaving(t, d, cs[..i]) && cs[i].Id() !in Arriving(t, d, cs[i+1..])
    ensures Leaving(t, d, cs[..i+1]) == Leaving(t, d, cs[..i]) +
              (if BeforeKey(t, d, cs[i]).Some?
               && AfterKey(t, d, cs[i]) != BeforeKey(t, d, cs[i]) then {cs[i].Id()} else {})
    ensures Arriving(t, d, cs[i..]) == Arriving(t, d, cs[i+1..]) +
              (if AfterKey(t, d, cs[i]).Some?
               && BeforeKey(t, d, cs[i]) != AfterKey(t, d, cs[i]) then {cs[i].Id()} else {})
  {
    hide BeforeKey, AfterKey;
    assert cs[..i+1] == cs[..i] + [cs[i]];
    assert cs[i..] == [cs[i]] + cs[i+1..];
    forall c | c in cs[..i] || c in cs[i+1..] ensures c.Id() != cs[i].Id() {
      if c in cs[..i] {
        var j :| 0 <= j < i && cs[..i][j] == c;
      } else {
        var j :| 0 <= j < |cs[i+1..]| && cs[i+1..][j] == c;
        assert cs[i+1+j] == c;
      }
    }
  }

  /** File one row, refusing an occupied key of a unique index. */
  method ListOne(
    p: Posting, k: Key, id: RowId, unique: bool, ghost f: Filing) returns (r: Option<Posting>, reason: Reason)
    requires Lists(p, f) && id !in f && (unique ==> Injective(f))
    ensures r.None? <==> unique && exists x <- f :: f[x] == k
    ensures r.None? ==> reason == Duplicate
    ensures r.Some? ==> Lists(r.value, f[id := k]) && (unique ==> Injective(f[id := k]))
  {
    hide Listed, Lists;
    reason := Duplicate;
    UnderKey(p, f, k);
    var ids := if k in p then p[k] else [];
    if unique && ids != [] {
      assert Has(p, k, ids[0]);
      return None, Duplicate;
    }
    var found, position := Search(ids, id);
    if found { return None, IndexBroken; }
    assert unique ==> forall x <- f :: f[x] != k by {
      forall x <- f | unique ensures f[x] != k { assert !Has(p, k, x); }
    }
    ListedFiling(p, f, k, id);
    r := Some(Listed(p, k, id));
    if unique { InjectiveStep(f, k, id); }
  }

  method InsertAfterImages(t: TableSchema, d: IndexDefinition, posting: Posting, cs: seq<RowChange>, ghost rm: RowMap)
    returns (r: Option<Posting>, reason: Reason)
    requires Fits(rm, cs) && Lists(posting, FilingOf(t, d, rm) - Leaving(t, d, cs))
    requires MustBeUnique(t, d) ==> Injective(FilingOf(t, d, rm))
    ensures r.Some? <==> (MustBeUnique(t, d) ==> Injective(FilingOf(t, d, ApplyAll(rm, cs))))
    ensures r.Some? ==> Lists(r.value, FilingOf(t, d, ApplyAll(rm, cs)))
    ensures r.None? ==> reason == Duplicate
  {
    hide FiledKey, FilingOf, BeforeKey, AfterKey, MustBeUnique, Lists;
    reason := Duplicate;
    ghost var g: Filing := FilingOf(t, d, ApplyAll(rm, cs));
    HalfwayFiling(t, d, rm, cs);
    var unique, p := MustBeUnique(t, d), posting;
    assert cs[0..] == cs;
    for i := 0 to |cs|
      invariant Lists(p, g - Arriving(t, d, cs[i..]))
      invariant unique ==> Injective(g - Arriving(t, d, cs[i..]))
    {
      var c := cs[i];
      ChangeFilings(t, d, rm, cs, c);
      LeavingStep(t, d, cs, i);
      var key := AfterKey(t, d, c);
      if key.Some? && BeforeKey(t, d, c) != key {
        ghost var f: Filing := g - Arriving(t, d, cs[i..]);
        assert c.Id() !in f && c.Id() in g && g[c.Id()] == key.value;
        var next, why := ListOne(p, key.value, c.Id(), unique, f);
        if next.None? {
          ghost var x: RowId :| x in f && f[x] == key.value;
          assert x != c.Id() && g[x] == g[c.Id()];
          return None, why;
        }
        p := next.value;
        assert g - Arriving(t, d, cs[i+1..]) == f[c.Id() := key.value];
      } else {
        assert Arriving(t, d, cs[i..]) == Arriving(t, d, cs[i+1..]);
      }
    }
    assert g - Arriving(t, d, cs[|cs|..]) == g;
    return Some(p), reason;
  }

  lemma UnderKey(p: Posting, f: Filing, k: Key)
    requires Lists(p, f)
    ensures k in p ==> Ascending(p[k])
    ensures forall x :: Has(p, k, x) <==> x in f && f[x] == k
  {}

  lemma InjectiveStep(f: Filing, k: Key, id: RowId)
    requires Injective(f) && id !in f && forall x <- f :: f[x] != k
    ensures Injective(f[id := k])
  {}

  /** The plain rebuild: rows in ID order, each pushed at the end of its key's list. */
  method BuildIndex(t: TableSchema, d: IndexDefinition, rows: seq<Row>) returns (r: Option<Posting>)
    requires AscendingRows(rows)
    ensures r.Some? <==> forall row <- rows :: !Unfileable(t, d, row.fields)
    ensures r.Some? ==> Lists(r.value, FilingOf(t, d, RowMapOf(rows)))
  {
    hide IndexKey, Includes, Listed, Lists, FilingOf, RowMapOf;
    var p: Posting := map[];
    EmptyLists(t, d);
    assert rows[..0] == [];
    for i := 0 to |rows|
      invariant forall row <- rows[..i] :: !Unfileable(t, d, row.fields)
      invariant Lists(p, FilingOf(t, d, RowMapOf(rows[..i])))
    {
      var row := rows[i];
      assert rows[..i+1] == rows[..i] + [row];
      FilingPush(t, d, rows, i);
      if Includes(d, row.fields) {
        var key := IndexKey(t, d, row.fields);
        if key.None? { assert Unfileable(t, d, row.fields); return None; }
        PushLast(p, FilingOf(t, d, RowMapOf(rows[..i])), key.value, row.id);
        p := p[key.value := (if key.value in p then p[key.value] else []) + [row.id]];
      }
    }
    assert rows[..|rows|] == rows;
    return Some(p);
  }

  lemma FilingPush(t: TableSchema, d: IndexDefinition, rows: seq<Row>, i: nat)
    requires AscendingRows(rows) && i < |rows|
    ensures var f, key := FilingOf(t, d, RowMapOf(rows[..i])), FiledKey(t, d, rows[i].fields);
            && (forall id <- f :: id < rows[i].id)
            && FilingOf(t, d, RowMapOf(rows[..i+1])) == if key.Some? then f[rows[i].id := key.value] else f
  {
    hide FiledKey;
    assert rows[..i+1][..i] == rows[..i];
    assert RowMapOf(rows[..i+1]) == RowMapOf(rows[..i])[rows[i].id := rows[i].fields];
    hide RowMapOf, FilingOf;
    assert forall id <- FilingOf(t, d, RowMapOf(rows[..i])) :: id in RowMapOf(rows[..i]) by {
      FilingWithin(t, d, RowMapOf(rows[..i]));
    }
    RowMapMembers(rows[..i]);
    forall id <- RowMapOf(rows[..i]) ensures id < rows[i].id {
      assert Row(id, RowMapOf(rows[..i])[id]) in rows[..i];
    }
    FilingInsert(t, d, RowMapOf(rows[..i]), rows[i].id, rows[i].fields);
  }

  lemma FilingWithin(t: TableSchema, d: IndexDefinition, rm: RowMap)
    ensures forall id <- FilingOf(t, d, rm) :: id in rm
  {
    hide FiledKey;
  }

  lemma FilingInsert(t: TableSchema, d: IndexDefinition, rm: RowMap, id: RowId, fields: Fields)
    requires id !in rm
    ensures var f, key := FilingOf(t, d, rm), FiledKey(t, d, fields);
            FilingOf(t, d, rm[id := fields]) == if key.Some? then f[id := key.value] else f
  {
    hide FiledKey;
  }

  lemma EmptyLists(t: TableSchema, d: IndexDefinition)
    ensures Lists(map[], FilingOf(t, d, RowMapOf([])))
  {}

  lemma PushLast(p: Posting, f: Filing, k: Key, id: RowId)
    requires Lists(p, f) && forall x <- f :: x < id
    ensures Lists(p[k := (if k in p then p[k] else []) + [id]], f[id := k])
  {
    hide Listed;
    var ids := if k in p then p[k] else [];
    forall i | 0 <= i < |ids| ensures ids[i] < id { assert Has(p, k, ids[i]); }
    RankUnique(ids, id, |ids|);
    ListedFiling(p, f, k, id);
    assert WithId(ids, id) == ids + [id];
    assert Listed(p, k, id) == p[k := ids + [id]] by { ListedIs(p, k, id); }
  }

  lemma ListedIs(p: Posting, k: Key, id: RowId)
    requires k in p ==> Ascending(p[k])
    ensures Listed(p, k, id) == p[k := WithId(if k in p then p[k] else [], id)]
  {}
}
