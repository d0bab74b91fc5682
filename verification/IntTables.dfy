/** Tables with one integer column for every component of an index, and queries that fix
    some of them to zero. They carry the inputs on which a condition proved sufficient
    elsewhere turns out to be necessary. */
module IntTables {
  import opened Bytes
  import opened Scalars
  import opened Model
  import opened OrderedKey
  import opened Schema
  import opened Postings
  import opened TableStore
  import opened Tables
  import opened Expressions
  import opened Planner
  import opened IndexPredicates
  import opened IndexAccess
  import opened OrderedScan

  /** Components over distinct plain columns, as many as an index may have. */
  predicate PlainIndex(cs: seq<IndexComponent>) {
    && 1 <= |cs| <= MAX_INDEX_COMPONENTS && DistinctComponents(cs)
    && forall i :: 0 <= i < |cs| ==> '.' !in cs[i].column
  }

  /** What a row holds in each column. */
  type Contents = string -> I64

  function IntColumns(cs: seq<IndexComponent>): seq<Column> {
    if cs == [] then [] else [Column(cs[0].column, TInt, 0)] + IntColumns(cs[1..])
  }

  function IntSchema(cs: seq<IndexComponent>, key: Option<string>): TableSchema {
    TableSchema(map[], IntColumns(cs), key)
  }

  /** An ordinary total index over the columns. */
  function IntIndex(cs: seq<IndexComponent>): IndexDefinition {
    IndexDefinition("probe", cs, false, None)
  }

  function ColumnNames(cs: seq<IndexComponent>): set<string> {
    set i | 0 <= i < |cs| :: cs[i].column
  }

  function IntRow(cs: seq<IndexComponent>, at: Contents): Fields {
    map name | name in ColumnNames(cs) :: Int(at(name))
  }

  function IntComps(cs: seq<IndexComponent>): (r: seq<Component>)
    ensures |r| == |cs|
    ensures forall i :: 0 <= i < |cs| ==> r[i] == Component(TInt, cs[i].descending)
  {
    if cs == [] then [] else [Component(TInt, cs[0].descending)] + IntComps(cs[1..])
  }

  function IntValues(cs: seq<IndexComponent>, at: Contents): (r: seq<Value>)
    ensures |r| == |cs|
    ensures forall i :: 0 <= i < |cs| ==> r[i] == Int(at(cs[i].column))
  {
    if cs == [] then [] else [Int(at(cs[0].column))] + IntValues(cs[1..], at)
  }

  // ---- Rows and keys ----------------------------------------------------------------------------

  lemma {:induction false} IntColumn(cs: seq<IndexComponent>, i: nat)
    requires i < |cs|
    ensures NamedColumn(IntColumns(cs), cs[i].column) == Some(Column(cs[i].column, TInt, 0))
  {
    if i > 0 { IntColumn(cs[1..], i - 1); }
  }

  lemma IntAt(cs: seq<IndexComponent>, key: Option<string>, at: Contents, i: nat)
    requires i < |cs|
    ensures FieldType(map[], IntColumns(cs), cs[i].column) == Some(TInt)
    ensures RowField(IntRow(cs, at), cs[i].column) == Some(Int(at(cs[i].column)))
    ensures Encodes(map[], TInt, Int(at(cs[i].column)))
  {
    hide EncodeKey, NamedColumn;
    IntColumn(cs, i);
    IntEncodes(at(cs[i].column));
  }

  lemma IntTyped(cs: seq<IndexComponent>, key: Option<string>, at: Contents)
    ensures TypedRow(IntSchema(cs, key), cs, IntComps(cs), IntValues(cs, at), IntRow(cs, at))
  {
    hide Encodes, FieldType, RowField, IntColumns, IntRow, IntComps, IntValues;
    forall i | 0 <= i < |cs|
      ensures FieldType(map[], IntColumns(cs), cs[i].column) == Some(TInt)
      ensures RowField(IntRow(cs, at), cs[i].column) == Some(Int(at(cs[i].column)))
      ensures Encodes(map[], TInt, Int(at(cs[i].column)))
    {
      IntAt(cs, key, at, i);
    }
  }

  lemma IntEncodes(i: I64)
    ensures Encodes(map[], TInt, Int(i)) && |KeyOf(map[], TInt, Int(i))| == 8
  {}

  lemma {:induction false} IntBound(t: TableSchema, cs: seq<IndexComponent>)
    requires forall i :: 0 <= i < |cs| ==> FieldType(t.catalog, t.columns, cs[i].column) == Some(TInt)
    ensures BoundComponents(t, cs) == Some(IntComps(cs))
  {
    hide FieldType;
    if cs != [] { IntBound(t, cs[1..]); }
  }

  lemma {:induction false} IntFound(cs: seq<IndexComponent>, row: Fields, at: Contents)
    requires forall i :: 0 <= i < |cs| ==> RowField(row, cs[i].column) == Some(Int(at(cs[i].column)))
    ensures ComponentValues(cs, row) == Some(IntValues(cs, at))
  {
    hide RowField;
    if cs != [] { IntFound(cs[1..], row, at); }
  }

  lemma {:induction false} IntLength(cs: seq<IndexComponent>, at: Contents)
    ensures var k := EncodeComponents(map[], IntComps(cs), IntValues(cs, at)); k.Some? && |k.value| == 8 * |cs|
  {
    hide EncodeKey;
    if cs != [] {
      var comps, vs := IntComps(cs), IntValues(cs, at);
      IntLength(cs[1..], at);
      IntEncodes(at(cs[0].column));
      assert comps[1..] == IntComps(cs[1..]) && vs[1..] == IntValues(cs[1..], at);
      ComplementLength(KeyOf(map[], TInt, vs[0]));
      assert EncodeComponent(map[], comps[0], vs[0]).Some? && |EncodeComponent(map[], comps[0], vs[0]).value| == 8;
    }
  }

  lemma ComplementLength(k: Key)
    ensures |Complement(k)| == |k|
  {}

  /** An index over some of the columns files every row of integers under the key of its
      values. */
  lemma {:induction false} IntFiledUnder(cs: seq<IndexComponent>, key: Option<string>, at: Contents, d: IndexDefinition)
    requires 1 <= |d.components| <= MAX_INDEX_COMPONENTS && d.guard.None?
    requires forall i :: 0 <= i < |d.components| ==> d.components[i].column in ColumnNames(cs)
    ensures var k := FiledKey(IntSchema(cs, key), d, IntRow(cs, at));
            k.Some? && k == EncodeComponents(map[], IntComps(d.components), IntValues(d.components, at))
    ensures !Unfileable(IntSchema(cs, key), d, IntRow(cs, at))
  {
    hide FieldType, RowField, EncodeComponents, IntColumns, IntRow, BoundComponents, ComponentValues, IntComps,
      IntValues, Encodes;
    var t, row := IntSchema(cs, key), IntRow(cs, at);
    IntTyped(cs, key, at);
    forall i | 0 <= i < |d.components|
      ensures FieldType(t.catalog, t.columns, d.components[i].column) == Some(TInt)
      ensures RowField(row, d.components[i].column) == Some(Int(at(d.components[i].column)))
    {
      var j :| 0 <= j < |cs| && cs[j].column == d.components[i].column;
      assert IntComps(cs)[j].ty == TInt && IntValues(cs, at)[j] == Int(at(cs[j].column));
    }
    IntBound(t, d.components);
    IntFound(d.components, row, at);
    IntLength(d.components, at);
  }

  lemma IntFiled(cs: seq<IndexComponent>, key: Option<string>, at: Contents)
    requires PlainIndex(cs)
    ensures FiledKey(IntSchema(cs, key), IntIndex(cs), IntRow(cs, at)) ==
            EncodeComponents(map[], IntComps(cs), IntValues(cs, at))
    ensures FiledKey(IntSchema(cs, key), IntIndex(cs), IntRow(cs, at)).Some?
    ensures !Unfileable(IntSchema(cs, key), IntIndex(cs), IntRow(cs, at))
  {
    hide FiledKey, Unfileable, EncodeComponents, IntRow, IntComps, IntValues, IntSchema;
    IntFiledUnder(cs, key, at, IntIndex(cs));
  }

  // ---- Comparing rows ---------------------------------------------------------------------------

  function IntOrder(a: I64, b: I64, descending: bool): Ordering {
    if descending then CompareInt(a, b).Reverse() else CompareInt(a, b)
  }

  /** Rows that agree in front of component `i` compare there as their integers do. */
  lemma {:induction false} FirstDifference(cs: seq<IndexComponent>, x: Contents, y: Contents, i: nat)
    requires i < |cs| && x(cs[i].column) != y(cs[i].column)
    requires forall j :: 0 <= j < i ==> x(cs[j].column) == y(cs[j].column)
    ensures CompareComponents(map[], IntComps(cs), IntValues(cs, x), IntValues(cs, y)) ==
            Some(IntOrder(x(cs[i].column), y(cs[i].column), cs[i].descending))
    ensures IntOrder(x(cs[i].column), y(cs[i].column), cs[i].descending) != Equal
  {
    hide CompareComponent, IntOrder, IntComps, IntValues;
    var comps, xs, ys := IntComps(cs), IntValues(cs, x), IntValues(cs, y);
    assert comps[1..] == IntComps(cs[1..]) && xs[1..] == IntValues(cs[1..], x) && ys[1..] == IntValues(cs[1..], y);
    CompareInts(cs[0].descending, x(cs[0].column), y(cs[0].column));
    if i > 0 { FirstDifference(cs[1..], x, y, i - 1); }
  }

  lemma CompareInts(descending: bool, a: I64, b: I64)
    ensures CompareComponent(map[], Component(TInt, descending), Int(a), Int(b)) == Some(IntOrder(a, b, descending))
    ensures IntOrder(a, b, descending) == Equal <==> a == b
  {}

  function AllZero(): Contents {
    _ => 0
  }

  /** A value that an index scan meets before zero. */
  function EarlierValue(descending: bool, reverse: bool): I64 {
    if descending != reverse then 1 else -1
  }

  /** The order of two integer keys that differ in one component. */
  lemma {:induction false} KeysDiffer(cs: seq<IndexComponent>, x: Contents, y: Contents, j: nat)
    requires j < |cs| && x(cs[j].column) != y(cs[j].column)
    requires forall i :: 0 <= i < j ==> x(cs[i].column) == y(cs[i].column)
    ensures var kx, ky := EncodeComponents(map[], IntComps(cs), IntValues(cs, x)),
                          EncodeComponents(map[], IntComps(cs), IntValues(cs, y));
            kx.Some? && ky.Some?
              && Compare(ky.value, kx.value) == IntOrder(y(cs[j].column), x(cs[j].column), cs[j].descending)
  {
    hide EncodeComponents, CompareComponents, Compare, IntComps, IntValues;
    IntLength(cs, x);
    IntLength(cs, y);
    FirstDifference(cs, y, x, j);
    var comps, xs, ys := IntComps(cs), IntValues(cs, x), IntValues(cs, y);
    TupleOrder(map[], comps, ys, xs);
    DecidesIsCompare(EncodeComponents(map[], comps, ys).value, EncodeComponents(map[], comps, xs).value,
                     CompareComponents(map[], comps, ys, xs).value);
  }

  /** The first component, from `i` on, in which the row differs from zero. */
  lemma {:induction false} FirstNonZero(cs: seq<IndexComponent>, at: Contents, i: nat, n: nat) returns (c: nat)
    requires i <= n < |cs| && at(cs[n].column) != 0
    ensures i <= c <= n && at(cs[c].column) != 0 && forall j :: i <= j < c ==> at(cs[j].column) == 0
    decreases n - i
  {
    if at(cs[i].column) != 0 { c := i; } else { c := FirstNonZero(cs, at, i + 1, n); }
  }

  // ---- Tables of two rows -----------------------------------------------------------------------

  /** A total index over some of the columns. */
  predicate TotalOver(columns: seq<IndexComponent>, u: IndexDefinition) {
    && u.guard.None? && 1 <= |u.components| <= MAX_INDEX_COMPONENTS
    && forall i :: 0 <= i < |u.components| ==> u.components[i].column in ColumnNames(columns)
  }

  /** Plain integer columns, an optional primary key and any number of total indexes, unique
      or not. */
  ghost predicate IntTable(columns: seq<IndexComponent>, key: Option<string>, ds: seq<IndexDefinition>) {
    && (forall i :: 0 <= i < |columns| ==> '.' !in columns[i].column)
    && (forall u <- ds :: TotalOver(columns, u)) && PrimaryIndexed(IntSchema(columns, key), ds)
  }

  lemma IntFields(columns: seq<IndexComponent>, u: IndexDefinition)
    requires TotalOver(columns, u)
    ensures forall i :: 0 <= i < |u.components| ==>
              FieldType(map[], IntColumns(columns), u.components[i].column) == Some(TInt)
  {
    hide FieldType, IntColumns;
    forall i | 0 <= i < |u.components|
      ensures FieldType(map[], IntColumns(columns), u.components[i].column) == Some(TInt)
    {
      var j :| 0 <= j < |columns| && columns[j].column == u.components[i].column;
      IntAt(columns, None, AllZero(), j);
    }
  }

  /** Row 0 is zero everywhere; row 1 holds `at`. */
  function ZeroAnd(columns: seq<IndexComponent>, at: Contents): RowMap {
    map[0 := IntRow(columns, AllZero()), 1 := IntRow(columns, at)]
  }

  /** The two rows have different keys under an index with a column that is not zero. */
  lemma {:induction false} ApartUnder(
    columns: seq<IndexComponent>, key: Option<string>, at: Contents, u: IndexDefinition, i: nat)
    requires TotalOver(columns, u) && i < |u.components| && at(u.components[i].column) != 0
    ensures Injective(FilingOf(IntSchema(columns, key), u, ZeroAnd(columns, at)))
  {
    hide FiledKey, EncodeComponents, Compare, IntRow, IntComps, IntValues, IntSchema, Unfileable;
    var t, zero := IntSchema(columns, key), AllZero();
    IntFiledUnder(columns, key, zero, u);
    IntFiledUnder(columns, key, at, u);
    var c := FirstNonZero(u.components, at, 0, i);
    KeysDiffer(u.components, zero, at, c);
    var kx, ky := FiledKey(t, u, IntRow(columns, zero)).value, FiledKey(t, u, IntRow(columns, at)).value;
    CompareInts(u.components[c].descending, at(u.components[c].column), 0);
    CompareReverse(ky, kx);
    CompareReverse(kx, kx);
    assert FilingOf(t, u, ZeroAnd(columns, at)) == map[0 := kx, 1 := ky];
  }

  /** The two rows make a sound table when they differ under every unique index. */
  lemma {:induction false} ZeroAndSound(
    columns: seq<IndexComponent>, key: Option<string>, ds: seq<IndexDefinition>, at: Contents)
    requires IntTable(columns, key, ds)
    requires forall u <- ds :: MustBeUnique(IntSchema(columns, key), u) ==>
               exists i :: 0 <= i < |u.components| && at(u.components[i].column) != 0
    ensures Sound(IntSchema(columns, key), ds, ZeroAnd(columns, at))
  {
    hide FiledKey, Unfileable, FilingOf, IntSchema, MustBeUnique;
    var t, rm := IntSchema(columns, key), ZeroAnd(columns, at);
    forall u <- ds, id <- rm ensures !Unfileable(t, u, rm[id]) {
      IntFiledUnder(columns, key, if id == 0 then AllZero() else at, u);
    }
    forall u <- ds | MustBeUnique(t, u) ensures Injective(FilingOf(t, u, rm)) {
      var i :| 0 <= i < |u.components| && at(u.components[i].column) != 0;
      ApartUnder(columns, key, at, u, i);
    }
    forall id <- rm ensures PlainNames(rm[id]) {
      forall name <- rm[id] ensures '.' !in name {
        var i :| 0 <= i < |columns| && columns[i].column == name;
      }
    }
  }

  // ---- Queries ----------------------------------------------------------------------------------

  function IsZero(column: string): Condition {
    Comparison(Reference(column), Eq, Literal(Int(0)), Some(TInt))
  }

  function ZeroConstraint(column: string): Constraint {
    Constraint(column, Eq, Int(0))
  }

  /** Filters that fix the columns to zero, and then the stages of a query. */
  function ZeroFilters(fixed: seq<string>, rest: seq<Stage>): seq<Stage> {
    if fixed == [] then rest else [Filter(IsZero(fixed[0]))] + ZeroFilters(fixed[1..], rest)
  }

  function ZeroConstraints(fixed: seq<string>): (r: seq<Constraint>)
    ensures forall c :: c in r <==> c == ZeroConstraint(c.column) && c.column in fixed
  {
    if fixed == [] then [] else [ZeroConstraint(fixed[0])] + ZeroConstraints(fixed[1..])
  }

  lemma ZeroFixed(fixed: seq<string>, column: string)
    ensures FixedBy(ZeroConstraints(fixed), column) <==> column in fixed
  {
    if column in fixed { assert ZeroConstraint(column) in ZeroConstraints(fixed); }
  }

  function ZeroConditions(fixed: seq<string>): (r: seq<Condition>)
    ensures forall e <- r :: exists column <- fixed :: e == IsZero(column)
  {
    if fixed == [] then [] else [IsZero(fixed[0])] + ZeroConditions(fixed[1..])
  }

  predicate StartsWithSort(rest: seq<Stage>) {
    rest != [] && rest[0].Sort?
  }

  lemma {:induction false} ZeroLeading(fixed: seq<string>, rest: seq<Stage>)
    requires StartsWithSort(rest)
    ensures LeadingConstraints(ZeroFilters(fixed, rest), false) == ZeroConstraints(fixed)
    ensures LeadingConstraints(ZeroFilters(fixed, rest), true) == ZeroConstraints(fixed)
    ensures LeadingFilters(ZeroFilters(fixed, rest)) == ZeroConditions(fixed)
    ensures LetsEnd(ZeroFilters(fixed, rest)) == 0
    ensures |ZeroFilters(fixed, rest)| == |fixed| + |rest| && ZeroFilters(fixed, rest)[|fixed|..] == rest
    ensures forall i :: 0 <= i < |fixed| ==> ZeroFilters(fixed, rest)[i] == Filter(IsZero(fixed[i]))
  {
    hide LeadingConstraints, LeadingFilters, ZeroConstraints, ZeroConditions, ZeroFilters, LetsEnd, IsZero;
    ZeroShape(fixed, rest);
    ZeroMeaning(fixed, rest);
  }

  lemma {:induction false} ZeroShape(fixed: seq<string>, rest: seq<Stage>)
    requires StartsWithSort(rest)
    ensures LetsEnd(ZeroFilters(fixed, rest)) == 0
    ensures |ZeroFilters(fixed, rest)| == |fixed| + |rest| && ZeroFilters(fixed, rest)[|fixed|..] == rest
    ensures forall i :: 0 <= i < |fixed| ==> ZeroFilters(fixed, rest)[i] == Filter(IsZero(fixed[i]))
  {
    hide IsZero;
    if fixed != [] {
      ZeroShape(fixed[1..], rest);
      assert ZeroFilters(fixed, rest)[1..] == ZeroFilters(fixed[1..], rest);
    }
  }

  lemma {:induction false} ZeroMeaning(fixed: seq<string>, rest: seq<Stage>)
    requires StartsWithSort(rest)
    ensures LeadingConstraints(ZeroFilters(fixed, rest), false) == ZeroConstraints(fixed)
    ensures LeadingConstraints(ZeroFilters(fixed, rest), true) == ZeroConstraints(fixed)
    ensures LeadingFilters(ZeroFilters(fixed, rest)) == ZeroConditions(fixed)
  {
    if fixed != [] {
      ZeroMeaning(fixed[1..], rest);
      assert ZeroFilters(fixed, rest)[1..] == ZeroFilters(fixed[1..], rest);
      assert SimpleComparison(IsZero(fixed[0])) == Some(ZeroConstraint(fixed[0]));
    }
  }

  /** The sort of the query is found behind its filters. */
  lemma {:induction false} ZeroSort(fixed: seq<string>, rest: seq<Stage>, i: nat)
    requires StartsWithSort(rest) && i <= |fixed|
    ensures |ZeroFilters(fixed, rest)| == |fixed| + |rest| && ZeroFilters(fixed, rest)[|fixed|] == rest[0]
    ensures FiltersEnd(ZeroFilters(fixed, rest), i) == Some(|fixed|)
    decreases |fixed| - i
  {
    hide ZeroFilters;
    ZeroLeading(fixed, rest);
    var stages := ZeroFilters(fixed, rest);
    assert stages[|fixed|..][0] == stages[|fixed|];
    if i < |fixed| {
      assert SimpleComparison(IsZero(fixed[i])) == Some(ZeroConstraint(fixed[i]));
      ZeroSort(fixed, rest, i + 1);
    }
  }

  /** Expressions that only compare columns with literals need nothing of the builtins but
      that an integer literal is already an integer. */
  ghost predicate PlainBuiltins(b: Builtins) {
    b.catalog == map[] && b.coerce(Int(0), TInt) == Some(Int(0))
  }

  ghost predicate OverColumns(cs: seq<IndexComponent>, fixed: seq<string>) {
    forall column <- fixed :: column in ColumnNames(cs)
  }

  lemma ZeroBound(b: Builtins, cs: seq<IndexComponent>, key: Option<string>, fixed: seq<string>)
    requires PlainBuiltins(b) && OverColumns(cs, fixed)
    ensures BoundFilters(b, IntSchema(cs, key), ZeroConditions(fixed))
    ensures Proven(b, IntIndex(cs), ZeroConditions(fixed))
  {
    hide IntSchema, BoundComparison, LiteralsSettled;
    forall e <- ZeroConditions(fixed)
      ensures BoundComparison(b, IntSchema(cs, key), e) && LiteralsSettled(b, e)
    {
      var column :| column in fixed && e == IsZero(column);
      var i :| 0 <= i < |cs| && cs[i].column == column;
      ZeroBoundAt(b, cs, key, i);
    }
  }

  lemma ZeroBoundAt(b: Builtins, cs: seq<IndexComponent>, key: Option<string>, i: nat)
    requires PlainBuiltins(b) && i < |cs|
    ensures BoundComparison(b, IntSchema(cs, key), IsZero(cs[i].column)) && LiteralsSettled(b, IsZero(cs[i].column))
  {
    hide FieldType, EncodeKey, IntColumns;
    IntAt(cs, key, _ => 0, i);
    IntEncodes(0);
  }

  lemma TotalProven(b: Builtins, u: IndexDefinition, filters: seq<Condition>)
    requires u.guard.None?
    ensures Proven(b, u, filters)
  {}

  /** A row passes the filters exactly when it is zero in every fixed column. */
  lemma {:induction false} ZeroPasses(b: Builtins, cs: seq<IndexComponent>, fixed: seq<string>, at: Contents)
    requires OverColumns(cs, fixed)
    ensures Passes(b, ZeroConditions(fixed), RowResolver(IntRow(cs, at))) ==
            Some(forall column <- fixed :: at(column) == 0)
  {
    if fixed != [] {
      ZeroPasses(b, cs, fixed[1..], at);
      var row := IntRow(cs, at);
      assert fixed[0] in row && row[fixed[0]] == Int(at(fixed[0]));
      assert Evaluate(b, IsZero(fixed[0]), RowResolver(row)) == Some(at(fixed[0]) == 0);
      assert forall column :: column in fixed <==> column == fixed[0] || column in fixed[1..];
    }
  }

  function Zeros(n: nat): (r: seq<Value>)
    ensures |r| == n && forall i :: 0 <= i < n ==> r[i] == Int(0)
  {
    if n == 0 then [] else [Int(0)] + Zeros(n - 1)
  }

  /** The planner fixes the leading components the filters fix, and no more. */
  lemma {:induction false} ZeroMatch(t: TableSchema, cs: seq<IndexComponent>, fixed: seq<string>)
    requires forall i :: 0 <= i < |cs| ==> FieldType(t.catalog, t.columns, cs[i].column) == Some(TInt)
    ensures MatchComponents(t, cs, ZeroConstraints(fixed)) ==
            Access(Zeros(FixedCount(cs, ZeroConstraints(fixed))), None, false)
  {
    hide FieldType;
    if cs != [] {
      var constraints := ZeroConstraints(fixed);
      var own := Own(constraints, cs[0].column);
      if own != [] {
        assert own[0] in own;
        ZeroMatch(t, cs[1..], fixed);
        ZeroMeets(t.catalog, own);
        assert FirstEqual(own) == Some(Int(0));
      }
      assert FixedBy(constraints, cs[0].column) <==> own != [] by {
        if FixedBy(constraints, cs[0].column) { assert ZeroConstraint(cs[0].column) in own; }
      }
    }
  }

  lemma {:induction false} ZeroMeets(catalog: Catalog, own: seq<Constraint>)
    requires forall c <- own :: c.op == Eq && c.value == Int(0)
    ensures MeetsAll(catalog, TInt, Int(0), own) == Some(true)
  {
    if own != [] {
      assert own[0] in own;
      ZeroMeets(catalog, own[1..]);
    }
  }
}
