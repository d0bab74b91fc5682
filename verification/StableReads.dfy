/** When an index read is the stable sort: the exact condition, and the tables on which it
    fails otherwise. */
module StableReads {
  import opened Bytes
  import opened Model
  import opened OrderedKey
  import opened Schema
  import opened Postings
  import opened TableStore
  import opened Tables
  import opened Expressions
  import opened Planner
  import opened IndexPredicates
  import opened IndexScan
  import opened IndexAccess
  import opened OrderedScan
  import opened PageOrders
  import opened IntTables

  // ---- The condition ----------------------------------------------------------------------------

  /** Ties are settled: by the components behind the sort keys being fixed, or because the
      sort keys and the filters cover a unique index and there are no ties. */
  ghost predicate StableSafe(
    b: Builtins, t: TableSchema, ds: seq<IndexDefinition>, d: IndexDefinition, stages: seq<Stage>, sm: SortMatch)
    requires Satisfies(t, d, stages, sm)
  {
    RestFixed(t, d, stages, sm) || KeyDecides(b, t, ds, stages, stages[sm.position].keys)
  }

  /** Reading the index in order gives the stable sort of the kept rows. */
  ghost predicate ReadsStably(
    b: Builtins, t: TableSchema, d: IndexDefinition, p: Posting, ks: seq<Key>, rows: seq<Row>, stages: seq<Stage>,
    sm: SortMatch)
    requires sm.position < |stages| && stages[sm.position].Sort?
  {
    var read := ReadRows(b, p, ks, RowMapOf(rows), PlanScan(t, d, stages), sm.reverse, stages);
    read.Some? && StableSorted(t, stages[sm.position].keys, read.value)
  }

  /** It does so on every table that keeps its unique keys. */
  ghost predicate AlwaysStable(
    b: Builtins, t: TableSchema, ds: seq<IndexDefinition>, d: IndexDefinition, stages: seq<Stage>, sm: SortMatch)
    requires sm.position < |stages| && stages[sm.position].Sort?
  {
    forall p, ks, rows :: Readable(b, t, d, p, ks, rows, stages) && Sound(t, ds, RowMapOf(rows)) ==>
      ReadsStably(b, t, d, p, ks, rows, stages, sm)
  }

  // ---- The condition is sufficient --------------------------------------------------------------

  /** Where no two kept rows tie, sorted is stably sorted. */
  lemma {:induction false} NoTiesStable(
    b: Builtins, t: TableSchema, ds: seq<IndexDefinition>, d: IndexDefinition, p: Posting, ks: seq<Key>, rows: seq<Row>,
    stages: seq<Stage>, sm: SortMatch)
    requires Readable(b, t, d, p, ks, rows, stages) && Sound(t, ds, RowMapOf(rows)) && Satisfies(t, d, stages, sm)
    requires BoundFilters(b, t, LeadingFilters(stages)) && Proven(b, d, LeadingFilters(stages))
    requires KeyDecides(b, t, ds, stages, stages[sm.position].keys)
    ensures ReadsStably(b, t, d, p, ks, rows, stages, sm)
  {
    hide Readable, RowMapOf, FilingOf, LeadingFilters, PlanScan, ReadRows, Kept, RowsAt, ScannedIds, Passes,
      BoundFilters, Proven, CompareRows, FiledKey, KeyDecides, AllFileable, NoDuplicates, PlainNames, Ahead,
      RowResolver, Selects, RestFixed;
    SatisfiedSort(t, d, stages, sm);
    OrderedScanAgrees(b, t, d, p, ks, rows, stages, sm);
    hide Satisfies;
    var rm, scan, keys := RowMapOf(rows), PlanScan(t, d, stages), stages[sm.position].keys;
    ScanAhead(b, t, d, p, ks, rows, stages, scan, sm.reverse);
    var read, o := ReadRows(b, p, ks, rm, scan, sm.reverse, stages).value, if sm.reverse then Greater else Less;
    AheadDistinct(FilingOf(t, d, rm), read, o);
    assert AscendingRows(rows) by { ReadableAscending(b, t, d, p, ks, rows, stages); }
    RowMapMembers(rows);
    forall i, j | 0 <= i < j < |read| ensures CompareRows(t, keys, read[i].fields, read[j].fields) == Some(Less) {
      assert read[i] in read && read[j] in read;
      if CompareRows(t, keys, read[i].fields, read[j].fields) == Some(Equal) {
        TiedSame(b, t, ds, rm, stages, keys, read[i].id, read[j].id);
        assert false;
      }
    }
  }

  lemma ReadableAscending(
    b: Builtins, t: TableSchema, d: IndexDefinition, p: Posting, ks: seq<Key>, rows: seq<Row>, stages: seq<Stage>)
    requires Readable(b, t, d, p, ks, rows, stages)
    ensures AscendingRows(rows)
  {
    hide RowMapOf, FilingOf, Lists, KeysOf, LeadingFilters, Passes, Unfileable;
  }

  /** Sufficient for every schema, index, query and table. */
  lemma {:induction false} SafeReadsStably(
    b: Builtins, t: TableSchema, ds: seq<IndexDefinition>, d: IndexDefinition, p: Posting, ks: seq<Key>, rows: seq<Row>,
    stages: seq<Stage>, sm: SortMatch)
    requires Readable(b, t, d, p, ks, rows, stages) && Sound(t, ds, RowMapOf(rows)) && Satisfies(t, d, stages, sm)
    requires BoundFilters(b, t, LeadingFilters(stages)) && Proven(b, d, LeadingFilters(stages))
    requires StableSafe(b, t, ds, d, stages, sm)
    ensures ReadsStably(b, t, d, p, ks, rows, stages, sm)
  {
    hide Readable, RowMapOf, LeadingFilters, PlanScan, ReadRows, Kept, BoundFilters, Proven, KeyDecides, RestFixed,
      Sound, StableSorted, SortedRows;
    SatisfiedSort(t, d, stages, sm);
    if RestFixed(t, d, stages, sm) {
      OrderedScanAgrees(b, t, d, p, ks, rows, stages, sm);
    } else {
      NoTiesStable(b, t, ds, d, p, ks, rows, stages, sm);
    }
  }

  // ---- Ties that follow the index ---------------------------------------------------------------

  /** A sorted query on a table of integers: equality filters that fix columns to zero, and
      sort keys that the index `d` satisfies. */
  datatype Query = Query(
    columns: seq<IndexComponent>, key: Option<string>, ds: seq<IndexDefinition>, d: IndexDefinition,
    fixed: seq<string>, keys: seq<SortKey>)
  {
    function Schema(): TableSchema {
      IntSchema(columns, key)
    }

    function Stages(): seq<Stage> {
      ZeroFilters(fixed, [Sort(keys)])
    }

    /** Any index, any other unique or ordinary indexes beside it. */
    ghost predicate Plain() {
      && IntTable(columns, key, ds) && d in ds && DistinctComponents(d.components) && OverColumns(columns, fixed)
    }

    /** The leading components the filters fix. */
    function Prefix(): (m: nat)
      ensures m <= |d.components|
    {
      FixedCount(d.components, ZeroConstraints(fixed))
    }

    /** The sort neither names the column nor do the filters fix it. */
    predicate Free(column: string) {
      column !in fixed && !NamedBy(keys, column)
    }

    /** Row 1: zero where the sort or the filters look, and elsewhere not; at component `j` a
        value that the scan meets first. */
    function Tied(j: nat, reverse: bool): Contents
      requires j < |d.components|
    {
      var c := d.components[j];
      column => if !Free(column) then 0 else if column == c.column then EarlierValue(c.descending, reverse) else 1
    }
  }

  lemma {:induction false} QueryMatch(q: Query, sm: SortMatch)
    requires q.Plain() && Satisfies(q.Schema(), q.d, q.Stages(), sm)
    ensures MatchComponents(q.Schema(), q.d.components, LeadingConstraints(q.Stages(), false)) ==
            Access(Zeros(q.Prefix()), None, false)
    ensures LeadingConstraints(q.Stages(), false) == ZeroConstraints(q.fixed)
    ensures LeadingFilters(q.Stages()) == ZeroConditions(q.fixed)
    ensures sm == SortMatch(|q.fixed|, sm.reverse)
    ensures |q.Stages()| == |q.fixed| + 1 && q.Stages()[|q.fixed|] == Sort(q.keys)
    ensures Along(q.keys, q.d.components, q.Prefix())
    ensures SameDirections(Visible(q.keys, FixedColumns(q.d.components, q.Prefix())), q.d.components[q.Prefix()..],
                           sm.reverse)
  {
    hide MatchComponents, LeadingConstraints, LeadingFilters, ZeroConstraints, ZeroConditions, ZeroFilters,
      FieldType, IntColumns, Visible, SameColumns, SameDirections, LetsEnd;
    ZeroLeading(q.fixed, [Sort(q.keys)]);
    ZeroSort(q.fixed, [Sort(q.keys)], 0);
    assert forall i :: 0 <= i < |q.d.components| ==>
             FieldType(map[], IntColumns(q.columns), q.d.components[i].column) == Some(TInt) by {
      IntFields(q.columns, q.d);
    }
    ZeroMatch(q.Schema(), q.d.components, q.fixed);
    MatchedKeys(q.Stages(), q.d.components, q.Prefix(), sm);
  }

  lemma {:induction false} TiedOn(t: TableSchema, keys: seq<SortKey>, x: Fields, y: Fields)
    requires forall k <- keys :: FieldType(t.catalog, t.columns, k.column) == Some(TInt)
    requires forall k <- keys :: RowField(x, k.column) == Some(Int(0)) && RowField(y, k.column) == Some(Int(0))
    ensures CompareRows(t, keys, x, y) == Some(Equal)
  {
    hide FieldType, RowField;
    if keys != [] {
      assert keys[0] in keys;
      TiedOn(t, keys[1..], x, y);
    }
  }

  /** The sort keys and what comes in front of component `j` do not tell the rows apart. */
  lemma {:induction false} TiedInFront(q: Query, sm: SortMatch, j: nat, i: nat)
    requires q.Plain() && Satisfies(q.Schema(), q.d, q.Stages(), sm)
    requires Reach(q.keys, q.d.components, q.Prefix()) <= j < |q.d.components|
    requires forall k :: Reach(q.keys, q.d.components, q.Prefix()) <= k < j ==> q.d.components[k].column in q.fixed
    requires q.d.components[j].column !in q.fixed && i < |q.d.components|
    ensures i < j ==> !q.Free(q.d.components[i].column)
    ensures q.Free(q.d.components[j].column)
  {
    hide MatchComponents, LeadingConstraints, LeadingFilters, ZeroConstraints, ZeroConditions, Visible,
      SameDirections;
    var cs, m := q.d.components, q.Prefix();
    QueryMatch(q, sm);
    hide Satisfies;
    var visible := Visible(q.keys, FixedColumns(cs, m));
    if i < m {
      assert FixedBy(ZeroConstraints(q.fixed), cs[i].column);
      ZeroFixed(q.fixed, cs[i].column);
    } else if i < Reach(q.keys, cs, m) {
      VisibleMembers(q.keys, FixedColumns(cs, m));
      assert visible[i - m].column == cs[m..][i - m].column && visible[i - m] in visible;
    }
    forall k <- q.keys ensures k.column != cs[j].column { KeyWithinReach(q.keys, cs, m, k, j); }
  }

  /** Both rows pass and tie, and are filed against their ID order. */
  lemma {:induction false} TiedFacts(b: Builtins, q: Query, sm: SortMatch, j: nat)
    requires q.Plain() && PlainBuiltins(b) && Satisfies(q.Schema(), q.d, q.Stages(), sm)
    requires Reach(q.keys, q.d.components, q.Prefix()) <= j < |q.d.components|
    requires forall k :: Reach(q.keys, q.d.components, q.Prefix()) <= k < j ==> q.d.components[k].column in q.fixed
    requires q.d.components[j].column !in q.fixed
    ensures var x, y, filters := IntRow(q.columns, AllZero()), IntRow(q.columns, q.Tied(j, sm.reverse)),
                                 ZeroConditions(q.fixed);
            var kx, ky := FiledKey(q.Schema(), q.d, x), FiledKey(q.Schema(), q.d, y);
            && Passes(b, filters, RowResolver(x)) == Some(true) && Passes(b, filters, RowResolver(y)) == Some(true)
            && !Unfileable(q.Schema(), q.d, x) && !Unfileable(q.Schema(), q.d, y)
            && kx.Some? && ky.Some? && Compare(ky.value, kx.value) == (if sm.reverse then Greater else Less)
            && CompareRows(q.Schema(), q.keys, y, x) == Some(Equal)
  {
    hide Passes, FiledKey, Unfileable, Compare, IntRow, IntSchema, CompareRows, ZeroConditions, Reach, Satisfies,
      EncodeComponents, IntComps, IntValues;
    var at, cs := q.Tied(j, sm.reverse), q.d.components;
    ZeroPasses(b, q.columns, q.fixed, AllZero());
    ZeroPasses(b, q.columns, q.fixed, at);
    IntFiledUnder(q.columns, q.key, AllZero(), q.d);
    IntFiledUnder(q.columns, q.key, at, q.d);
    forall i | 0 <= i < |cs| ensures i < j ==> at(cs[i].column) == 0 { TiedInFront(q, sm, j, i); }
    TiedInFront(q, sm, j, j);
    KeysDiffer(cs, AllZero(), at, j);
    TiedSort(q, sm, at);
  }

  /** Rows that hold zero under every sort key tie. */
  lemma {:induction false} TiedSort(q: Query, sm: SortMatch, at: Contents)
    requires q.Plain() && Satisfies(q.Schema(), q.d, q.Stages(), sm)
    requires forall k <- q.keys :: at(k.column) == 0
    ensures CompareRows(q.Schema(), q.keys, IntRow(q.columns, at), IntRow(q.columns, AllZero())) == Some(Equal)
  {
    hide FieldType, RowField, IntRow, IntColumns, LeadingConstraints, MatchComponents, CompareRows, Encodes,
      ZeroFilters, Visible, LeadingFilters, ZeroConditions, ZeroConstraints, SameDirections;
    var cs, m := q.d.components, q.Prefix();
    QueryMatch(q, sm);
    hide Satisfies;
    var x, y := IntRow(q.columns, AllZero()), IntRow(q.columns, at);
    forall k <- q.keys
      ensures FieldType(map[], IntColumns(q.columns), k.column) == Some(TInt)
      ensures RowField(y, k.column) == Some(Int(0)) && RowField(x, k.column) == Some(Int(0))
    {
      KeysReached(q.keys, cs, m, k);
      var i :| 0 <= i < Reach(q.keys, cs, m) && cs[i].column == k.column;
      var c :| 0 <= c < |q.columns| && q.columns[c].column == k.column;
      IntAt(q.columns, q.key, AllZero(), c);
      IntAt(q.columns, q.key, at, c);
    }
    TiedOn(q.Schema(), q.keys, y, x);
  }

  lemma TwoRows(x: Fields, y: Fields)
    ensures RowMapOf([Row(0, x), Row(1, y)]) == map[0 := x, 1 := y]
  {
    var rows := [Row(0, x), Row(1, y)];
    assert rows[..1] == [Row(0, x)] && rows[..1][..0] == [];
    assert RowMapOf(rows[..1]) == map[0 := x];
  }

  /** The index of two rows under different keys. */
  lemma {:induction false} TwoRowsIndexed(t: TableSchema, d: IndexDefinition, x: Fields, y: Fields)
    returns (p: Posting, keys: seq<Key>)
    requires !Unfileable(t, d, x) && !Unfileable(t, d, y) && FiledKey(t, d, x).Some? && FiledKey(t, d, y).Some?
    requires Compare(FiledKey(t, d, y).value, FiledKey(t, d, x).value) != Equal
    ensures TableIndexed(t, d, p, map[0 := x, 1 := y]) && KeysOf(p, keys)
  {
    hide FiledKey, Unfileable, Compare, Lists, KeysOf;
    var kx, ky := FiledKey(t, d, x).value, FiledKey(t, d, y).value;
    assert kx != ky by { CompareReverse(kx, kx); }
    p := map[kx := [0], ky := [1]];
    var f: Filing := map[0 := kx, 1 := ky];
    assert FilingOf(t, d, map[0 := x, 1 := y]) == f;
    TwoEntries(kx, ky);
    keys := TwoKeys(kx, ky);
  }

  lemma TwoKeys(kx: Key, ky: Key) returns (keys: seq<Key>)
    requires kx != ky
    ensures KeysOf(map[kx := [0], ky := [1]], keys)
  {
    hide Compare;
    CompareReverse(ky, kx);
    keys := if Compare(kx, ky) == Less then [kx, ky] else [ky, kx];
  }

  lemma TwoEntries(kx: Key, ky: Key)
    requires kx != ky
    ensures Lists(map[kx := [0], ky := [1]], map[0 := kx, 1 := ky])
  {
    var p: Posting, f: Filing := map[kx := [0], ky := [1]], map[0 := kx, 1 := ky];
    assert Has(p, kx, 0) && Has(p, ky, 1);
    forall k, id ensures Has(p, k, id) <==> id in f && f[id] == k {}
  }

  /** A component behind the sort keys that no filter fixes, and no unique index that the sort
      and the filters cover: there is a sound table on which ties follow the index and not
      the row IDs. */
  lemma {:induction false} TiesFollowIndex(b: Builtins, q: Query, sm: SortMatch, j: nat)
    requires q.Plain() && PlainBuiltins(b) && Satisfies(q.Schema(), q.d, q.Stages(), sm)
    requires Reach(q.keys, q.d.components, q.Prefix()) <= j < |q.d.components|
    requires forall k :: Reach(q.keys, q.d.components, q.Prefix()) <= k < j ==> q.d.components[k].column in q.fixed
    requires q.d.components[j].column !in q.fixed && !KeyDecides(b, q.Schema(), q.ds, q.Stages(), q.keys)
    ensures sm.position < |q.Stages()| && q.Stages()[sm.position] == Sort(q.keys)
    ensures var rows := [Row(0, IntRow(q.columns, AllZero())), Row(1, IntRow(q.columns, q.Tied(j, sm.reverse)))];
            && Sound(q.Schema(), q.ds, RowMapOf(rows))
            && exists p, ks :: Readable(b, q.Schema(), q.d, p, ks, rows, q.Stages()) &&
                 !ReadsStably(b, q.Schema(), q.d, p, ks, rows, q.Stages(), sm)
  {
    hide Passes, FiledKey, Unfileable, Compare, LeadingConstraints, MatchComponents, LeadingFilters, CompareRows,
      IntRow, ZeroFilters, ZeroConditions, ZeroConstraints, RowMapOf, FilingOf, Lists, KeysOf, PlanScan, ReadRows,
      Kept, Proven, BoundFilters, KeyDecides, IntSchema, Reach, Visible, Sound, SameDirections, Along;
    QueryMatch(q, sm);
    TiedFacts(b, q, sm, j);
    hide Satisfies;
    var t, at, stages := q.Schema(), q.Tied(j, sm.reverse), q.Stages();
    var x, y := IntRow(q.columns, AllZero()), IntRow(q.columns, at);
    TwoRows(x, y);
    TiedSound(b, q, j, sm.reverse);
    var p, ks := TwoRowsIndexed(t, q.d, x, y);
    var rows := [Row(0, x), Row(1, y)];
    ZeroBound(b, q.columns, q.key, q.fixed);
    assert Proven(b, q.d, ZeroConditions(q.fixed)) by { TotalProven(b, q.d, ZeroConditions(q.fixed)); }
    assert Readable(b, t, q.d, p, ks, rows, stages);
    ReadAgainstIds(b, t, q.d, p, ks, x, y, stages, q.keys, sm.reverse);
  }

  /** Every unique index has a column in which the two rows differ. */
  lemma {:induction false} TiedSound(b: Builtins, q: Query, j: nat, reverse: bool)
    requires q.Plain() && j < |q.d.components| && !KeyDecides(b, q.Schema(), q.ds, q.Stages(), q.keys)
    requires LeadingConstraints(q.Stages(), false) == ZeroConstraints(q.fixed)
    ensures Sound(q.Schema(), q.ds, ZeroAnd(q.columns, q.Tied(j, reverse)))
  {
    hide LeadingConstraints, ZeroConstraints, Sound, MustBeUnique, IntSchema, ZeroFilters, Proven, FixedBy, NamedBy;
    var at := q.Tied(j, reverse);
    forall u <- q.ds | MustBeUnique(q.Schema(), u)
      ensures exists i :: 0 <= i < |u.components| && at(u.components[i].column) != 0
    {
      TotalProven(b, u, LeadingFilters(q.Stages()));
      assert !Pinned(u.components, q.keys, ZeroConstraints(q.fixed));
      var i :| 0 <= i < |u.components| && !NamedBy(q.keys, u.components[i].column)
               && !FixedBy(ZeroConstraints(q.fixed), u.components[i].column);
      ZeroFixed(q.fixed, u.components[i].column);
      assert at(u.components[i].column) != 0;
    }
    ZeroAndSound(q.columns, q.key, q.ds, at);
  }

  /** Two tied rows filed against their ID order are read against it. */
  lemma {:induction false} ReadAgainstIds(
    b: Builtins, t: TableSchema, d: IndexDefinition, p: Posting, ks: seq<Key>, x: Fields, y: Fields, stages: seq<Stage>,
    keys: seq<SortKey>, reverse: bool)
    requires var rows := [Row(0, x), Row(1, y)];
             RowMapOf(rows) == map[0 := x, 1 := y] && Readable(b, t, d, p, ks, rows, stages)
    requires BoundFilters(b, t, LeadingFilters(stages)) && Proven(b, d, LeadingFilters(stages))
    requires Passes(b, LeadingFilters(stages), RowResolver(x)) == Some(true)
    requires Passes(b, LeadingFilters(stages), RowResolver(y)) == Some(true)
    requires FiledKey(t, d, x).Some? && FiledKey(t, d, y).Some?
    requires Compare(FiledKey(t, d, y).value, FiledKey(t, d, x).value) == (if reverse then Greater else Less)
    requires CompareRows(t, keys, y, x) == Some(Equal)
    ensures var read := ReadRows(b, p, ks, RowMapOf([Row(0, x), Row(1, y)]), PlanScan(t, d, stages), reverse, stages);
            read.Some? && !StableSorted(t, keys, read.value)
  {
    hide Passes, FiledKey, Compare, LeadingFilters, CompareRows, RowMapOf, FilingOf, PlanScan, ReadRows, Kept,
      Proven, BoundFilters, RowResolver, StableSorted, RowsAhead;
    var rows, rm := [Row(0, x), Row(1, y)], RowMapOf([Row(0, x), Row(1, y)]);
    ReadAgrees(b, t, d, p, ks, rows, stages, reverse);
    hide Readable;
    var read := ReadRows(b, p, ks, rm, PlanScan(t, d, stages), reverse, stages).value;
    assert forall r <- rows :: Passes(b, LeadingFilters(stages), RowResolver(r.fields)) == Some(true);
    KeptMembers(b, LeadingFilters(stages), rows);
    assert rows[0] in rows && rows[1] in rows;
    assert rows[0] in multiset(read) && rows[1] in multiset(read);
    FilingAt(t, d, rm, 0);
    FilingAt(t, d, rm, 1);
    ReadSecondFirst(t, keys, FilingOf(t, d, rm), read, rows[0], rows[1], if reverse then Greater else Less);
  }

  lemma {:induction false} ReadSecondFirst(
    t: TableSchema, keys: seq<SortKey>, f: Filing, read: seq<Row>, x: Row, y: Row, o: Ordering)
    requires RowsAhead(f, read, o) && x in read && y in read && x.id in f && y.id in f && x.id < y.id
    requires o != Equal && Compare(f[y.id], f[x.id]) == o && CompareRows(t, keys, y.fields, x.fields) == Some(Equal)
    ensures !StableSorted(t, keys, read)
  {
    hide CompareRows, Compare;
    var i :| 0 <= i < |read| && read[i] == x;
    var k :| 0 <= k < |read| && read[k] == y;
    CompareReverse(f[y.id], f[x.id]);
    assert k < i;
  }

  /** The exact condition: over integer columns with any primary key and any indexes, every
      table that keeps its unique keys reads stably exactly when ties are settled. */
  lemma {:induction false} StableExact(b: Builtins, q: Query, sm: SortMatch)
    requires q.Plain() && PlainBuiltins(b) && Satisfies(q.Schema(), q.d, q.Stages(), sm)
    ensures AlwaysStable(b, q.Schema(), q.ds, q.d, q.Stages(), sm) <==>
            StableSafe(b, q.Schema(), q.ds, q.d, q.Stages(), sm)
  {
    hide LeadingFilters, ZeroFilters, ZeroConditions, ZeroConstraints, Readable, BoundFilters, Proven, ReadsStably,
      Sound, MatchComponents, LeadingConstraints, Visible, IntSchema, Reach, Satisfies, KeyDecides, SameDirections,
      Along, RestFixed, RowMapOf, IntRow;
    QueryMatch(q, sm);
    ZeroBound(b, q.columns, q.key, q.fixed);
    assert Proven(b, q.d, ZeroConditions(q.fixed)) by { TotalProven(b, q.d, ZeroConditions(q.fixed)); }
    var t, stages := q.Schema(), q.Stages();
    if StableSafe(b, t, q.ds, q.d, stages, sm) {
      forall p, ks, rows | Readable(b, t, q.d, p, ks, rows, stages) && Sound(t, q.ds, RowMapOf(rows))
        ensures ReadsStably(b, t, q.d, p, ks, rows, stages, sm)
      {
        SafeReadsStably(b, t, q.ds, q.d, p, ks, rows, stages, sm);
      }
    } else {
      var j := FirstOpen(q, sm);
      TiesFollowIndex(b, q, sm, j);
    }
  }

  /** The first component behind the sort keys that no filter fixes. */
  lemma {:induction false} FirstOpen(q: Query, sm: SortMatch) returns (j: nat)
    requires q.Plain() && Satisfies(q.Schema(), q.d, q.Stages(), sm) && !RestFixed(q.Schema(), q.d, q.Stages(), sm)
    ensures Reach(q.keys, q.d.components, q.Prefix()) <= j < |q.d.components|
    ensures q.d.components[j].column !in q.fixed
    ensures forall k :: Reach(q.keys, q.d.components, q.Prefix()) <= k < j ==> q.d.components[k].column in q.fixed
  {
    hide LeadingFilters, ZeroFilters, ZeroConditions, ZeroConstraints, MatchComponents, LeadingConstraints, Visible,
      IntSchema, Reach, SameDirections, Along, FixedBy;
    QueryMatch(q, sm);
    var n := Reach(q.keys, q.d.components, q.Prefix());
    var i :| n <= i < |q.d.components| && !FixedBy(ZeroConstraints(q.fixed), q.d.components[i].column);
    hide Satisfies, RestFixed;
    ZeroFixed(q.fixed, q.d.components[i].column);
    j := FirstOutside(q.d.components, q.fixed, n, i);
  }

  lemma {:induction false} FirstOutside(cs: seq<IndexComponent>, fixed: seq<string>, from: nat, i: nat) returns (j: nat)
    requires from <= i < |cs| && cs[i].column !in fixed
    ensures from <= j <= i && cs[j].column !in fixed && forall k :: from <= k < j ==> cs[k].column in fixed
    decreases i - from
  {
    if cs[from].column !in fixed { j := from; } else { j := FirstOutside(cs, fixed, from + 1, i); }
  }

  // ---- Three queries on one index ---------------------------------------------------------------

  const TWO_COLUMNS: seq<IndexComponent> := [IndexComponent("a", false), IndexComponent("b", false)]

  /** Sorting by `a` through an index on `a` and `b`. */
  function SortByA(key: Option<string>, fixed: seq<string>): Query {
    var d := IntIndex(TWO_COLUMNS);
    var ds := if key.Some? then [d, PrimaryDefinition(key.value)] else [d];
    Query(TWO_COLUMNS, key, ds, d, fixed, [SortKey("a", false)])
  }

  lemma NoOwn(constraints: seq<Constraint>, column: string)
    requires forall c <- constraints :: c.column != column
    ensures Own(constraints, column) == []
  {}

  lemma AloneVisible(cs: seq<IndexComponent>, keys: seq<SortKey>)
    requires |keys| == 1
    ensures Visible(keys, FixedColumns(cs, 0)) == keys && Reach(keys, cs, 0) == 1
  {
    assert Visible(keys[1..], FixedColumns(cs, 0)) == [];
  }

  lemma SortByAPlain(key: Option<string>, fixed: seq<string>)
    requires (forall column <- fixed :: column == "b") && (key.None? || key == Some("a"))
    ensures SortByA(key, fixed).Plain()
  {
    var cs := TWO_COLUMNS;
    assert cs[0].column in ColumnNames(cs) && cs[1].column in ColumnNames(cs);
  }

  lemma {:induction false} SortByAMatches(key: Option<string>, fixed: seq<string>)
    requires "a" !in fixed && (forall column <- fixed :: column == "b") && (key.None? || key == Some("a"))
    ensures var q := SortByA(key, fixed);
            var constraints := LeadingConstraints(q.Stages(), false);
            && |q.Stages()| == |fixed| + 1 && q.Stages()[|fixed|] == Sort(q.keys)
            && MatchComponents(q.Schema(), TWO_COLUMNS, constraints) == Access([], None, false)
            && constraints == ZeroConstraints(fixed)
            && Satisfies(q.Schema(), q.d, q.Stages(), SortMatch(|fixed|, false))
  {
    hide ZeroFilters, FieldType, ZeroConstraints, RowField, Visible, Reach, Own, LeadingConstraints, LetsEnd;
    var q, cs := SortByA(key, fixed), TWO_COLUMNS;
    ZeroLeading(fixed, [Sort(q.keys)]);
    ZeroSort(fixed, [Sort(q.keys)], 0);
    ZeroFixed(fixed, "a");
    NoOwn(ZeroConstraints(fixed), "a");
    AloneVisible(cs, q.keys);
  }

  /** Two rows equal on `a` come in the order of `b`, against their row IDs. */
  lemma TiesExample(b: Builtins)
    requires PlainBuiltins(b)
    ensures var q := SortByA(None, []);
            && Satisfies(q.Schema(), q.d, q.Stages(), SortMatch(0, false))
            && !AlwaysStable(b, q.Schema(), q.ds, q.d, q.Stages(), SortMatch(0, false))
  {
    hide AlwaysStable, IntSchema, Reach, MatchComponents, IndexSortMatch, ZeroFilters, Visible, LeadingConstraints;
    var q := SortByA(None, []);
    SortByAMatches(None, []);
    SortByAPlain(None, []);
    StableExact(b, q, SortMatch(0, false));
    AloneVisible(TWO_COLUMNS, q.keys);
    assert !FixedBy([], TWO_COLUMNS[1].column);
  }

  /** With `b` fixed by a filter the read is stable, although the sort does not name `b`. */
  lemma FixedExample(b: Builtins)
    requires PlainBuiltins(b)
    ensures var q := SortByA(None, ["b"]);
            && Satisfies(q.Schema(), q.d, q.Stages(), SortMatch(1, false))
            && AlwaysStable(b, q.Schema(), q.ds, q.d, q.Stages(), SortMatch(1, false))
  {
    hide AlwaysStable, IntSchema, Reach, MatchComponents, IndexSortMatch, ZeroFilters, Visible, LeadingConstraints,
      ZeroConstraints;
    var q := SortByA(None, ["b"]);
    SortByAMatches(None, ["b"]);
    SortByAPlain(None, ["b"]);
    StableExact(b, q, SortMatch(1, false));
    AloneVisible(TWO_COLUMNS, q.keys);
    ZeroFixed(["b"], "b");
  }

  /** With `a` as the primary key there are no ties, and the read is stable. */
  lemma KeyedExample(b: Builtins)
    requires PlainBuiltins(b)
    ensures var q := SortByA(Some("a"), []);
            && Satisfies(q.Schema(), q.d, q.Stages(), SortMatch(0, false))
            && !RestFixed(q.Schema(), q.d, q.Stages(), SortMatch(0, false))
            && AlwaysStable(b, q.Schema(), q.ds, q.d, q.Stages(), SortMatch(0, false))
  {
    hide AlwaysStable, Reach, MatchComponents, IndexSortMatch, ZeroFilters, Visible, LeadingConstraints;
    var q := SortByA(Some("a"), []);
    SortByAMatches(Some("a"), []);
    SortByAPlain(Some("a"), []);
    StableExact(b, q, SortMatch(0, false));
    AloneVisible(TWO_COLUMNS, q.keys);
    assert !FixedBy([], TWO_COLUMNS[1].column);
    var u := PrimaryDefinition("a");
    assert u in q.ds && MustBeUnique(q.Schema(), u);
    assert q.keys[0] in q.keys && q.keys[0].column == "a";
    assert Pinned(u.components, q.keys, LeadingConstraints(q.Stages(), false));
  }
}
