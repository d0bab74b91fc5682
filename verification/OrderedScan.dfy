/** Scans that satisfy a sort: when the planner accepts an index for a sort, reading the
    index in order is sorting the filtered rows, and reading only as many eligible
    entries as a later take or page needs gives the same answer. */
module OrderedScan {
  import opened Bytes
  import opened Model
  import opened OrderedKey
  import opened KeyBounds
  import opened Schema
  import opened Postings
  import opened TableStore
  import opened Expressions
  import opened Planner
  import opened IndexPredicates
  import opened IndexScan
  import opened IndexAccess

  // ---- Comparing rows by sort keys --------------------------------------------------------------

  function CompareKey(t: TableSchema, key: SortKey, x: Fields, y: Fields): Option<Ordering> {
    var ty, l, r := FieldType(t.catalog, t.columns, key.column), RowField(x, key.column), RowField(y, key.column);
    if ty.None? || l.None? || r.None? then None
    else CompareComponent(t.catalog, Component(ty.value, key.descending), l.value, r.value)
  }

  function CompareRows(t: TableSchema, keys: seq<SortKey>, x: Fields, y: Fields): Option<Ordering> {
    if keys == [] then Some(Equal) else
    var first := CompareKey(t, keys[0], x, y);
    if first != Some(Equal) then first else CompareRows(t, keys[1..], x, y)
  }

  // ---- Accepting a sort -------------------------------------------------------------------------

  function LetsEnd(stages: seq<Stage>): (n: nat)
    ensures n <= |stages|
  {
    if stages != [] && stages[0].Let? then 1 + LetsEnd(stages[1..]) else 0
  }

  /** The first stage after the simple filters, or None at a filter that is not simple. */
  function FiltersEnd(stages: seq<Stage>, i: nat): (n: Option<nat>)
    requires i <= |stages|
    ensures n.Some? ==> i <= n.value <= |stages|
    decreases |stages| - i
  {
    if i == |stages| || !stages[i].Filter? then Some(i)
    else if SimpleComparison(stages[i].condition).None? then None
    else FiltersEnd(stages, i + 1)
  }

  function Visible(keys: seq<SortKey>, fixed: set<string>): seq<SortKey> {
    if keys == [] then []
    else (if keys[0].column in fixed then [] else [keys[0]]) + Visible(keys[1..], fixed)
  }

  lemma {:induction false} VisibleMembers(keys: seq<SortKey>, fixed: set<string>)
    ensures forall k :: k in Visible(keys, fixed) <==> k in keys && k.column !in fixed
  {
    if keys != [] { VisibleMembers(keys[1..], fixed); }
  }

  function FixedColumns(cs: seq<IndexComponent>, m: nat): set<string>
    requires m <= |cs|
  {
    set i | 0 <= i < m :: cs[i].column
  }

  predicate DistinctComponents(cs: seq<IndexComponent>) {
    forall i, j :: 0 <= i < j < |cs| ==> cs[i].column != cs[j].column
  }

  datatype SortMatch = SortMatch(position: nat, reverse: bool)

  predicate SameColumns(keys: seq<SortKey>, cs: seq<IndexComponent>)
    requires |keys| <= |cs|
  {
    forall i :: 0 <= i < |keys| ==> keys[i].column == cs[i].column
  }

  predicate SameDirections(keys: seq<SortKey>, cs: seq<IndexComponent>, flip: bool)
    requires |keys| <= |cs|
  {
    forall i :: 0 <= i < |keys| ==> (keys[i].descending != cs[i].descending) == flip
  }

  function IndexSortMatch(stages: seq<Stage>, cs: seq<IndexComponent>, m: nat): Option<SortMatch>
    requires m <= |cs|
  {
    var end := FiltersEnd(stages, LetsEnd(stages));
    if end.None? || end.value == |stages| || !stages[end.value].Sort? then None else
    var keys := Visible(stages[end.value].keys, FixedColumns(cs, m));
    if keys == [] then Some(SortMatch(end.value, false))
    else if |keys| > |cs| - m || !SameColumns(keys, cs[m..]) then None
    else if SameDirections(keys, cs[m..], false) then Some(SortMatch(end.value, false))
    else if SameDirections(keys, cs[m..], true) then Some(SortMatch(end.value, true))
    else None
  }

  // ---- Index order is sort order ----------------------------------------------------------------

  /** Two typed rows that agree on the equality prefix. */
  ghost predicate SamePrefix(catalog: Catalog, comps: seq<Component>, m: nat, xs: seq<Value>, ys: seq<Value>)
    requires m <= |comps| == |xs| == |ys|
  {
    CompareComponents(catalog, comps[..m], xs[..m], ys[..m]) == Some(Equal)
  }

  lemma {:induction false} EqualComponents(
    catalog: Catalog, comps: seq<Component>, xs: seq<Value>, ys: seq<Value>, i: nat)
    requires i < |comps| == |xs| == |ys| && CompareComponents(catalog, comps, xs, ys) == Some(Equal)
    ensures CompareTyped(catalog, comps[i].ty, xs[i], ys[i], 0) == Some(Equal)
  {
    hide CompareTyped;
    if i > 0 { EqualComponents(catalog, comps[1..], xs[1..], ys[1..], i - 1); }
  }

  /** Both rows meet the same access, so they agree on the equality prefix. */
  lemma AccessSamePrefix(catalog: Catalog, comps: seq<Component>, xs: seq<Value>, ys: seq<Value>, a: Access)
    requires a.Access? && |comps| == |xs| == |ys| && Used(a) <= |comps|
    requires EncodeComponents(catalog, comps, xs).Some? && EncodeComponents(catalog, comps, ys).Some?
    requires AccessEncodes(catalog, comps, a)
    requires AccessHolds(catalog, comps, xs, a) && AccessHolds(catalog, comps, ys, a)
    ensures SamePrefix(catalog, comps, |a.equality|, xs, ys)
  {
    hide Encodes, EncodeComponents, CompareComponents, InLimits;
    var m := |a.equality|;
    ComponentsEncode(catalog, comps[..m], a.equality);
    PrefixExact(catalog, comps, xs, a.equality);
    PrefixExact(catalog, comps, ys, a.equality);
    TupleOrder(catalog, comps[..m], xs[..m], ys[..m]);
    var ex, ey := EncodeComponents(catalog, comps[..m], xs[..m]).value,
                  EncodeComponents(catalog, comps[..m], ys[..m]).value;
    DecidesIsCompare(ex, ey, CompareComponents(catalog, comps[..m], xs[..m], ys[..m]).value);
    CompareReverse(ex, ey);
  }

  lemma {:induction false} ComponentsThen(
    catalog: Catalog, comps: seq<Component>, xs: seq<Value>, ys: seq<Value>, n: nat)
    requires n <= |comps| == |xs| == |ys|
    ensures CompareComponents(catalog, comps, xs, ys) ==
            var first := CompareComponents(catalog, comps[..n], xs[..n], ys[..n]);
            if first != Some(Equal) then first else CompareComponents(catalog, comps[n..], xs[n..], ys[n..])
  {
    hide CompareComponent;
    if n == 0 {
      assert comps[0..] == comps && xs[0..] == xs && ys[0..] == ys;
    } else {
      ComponentsThen(catalog, comps[1..], xs[1..], ys[1..], n - 1);
      assert comps[1..][..n-1] == comps[..n][1..] && xs[1..][..n-1] == xs[..n][1..] && ys[1..][..n-1] == ys[..n][1..];
      assert comps[1..][n-1..] == comps[n..] && xs[1..][n-1..] == xs[n..] && ys[1..][n-1..] == ys[n..];
    }
  }

  function Turned(o: Option<Ordering>, flip: bool): Option<Ordering> {
    if o.Some? && flip then Some(o.value.Reverse()) else o
  }

  /** The visible sort keys compare as the components they name, turned when the sort runs
      against the index. */
  lemma {:induction false} VisibleOrder(
    t: TableSchema, keys: seq<SortKey>, cs: seq<IndexComponent>, comps: seq<Component>,
    xs: seq<Value>, ys: seq<Value>, x: Fields, y: Fields, flip: bool)
    requires TypedRow(t, cs, comps, xs, x) && TypedRow(t, cs, comps, ys, y)
    requires |keys| <= |cs| && SameColumns(keys, cs) && SameDirections(keys, cs, flip)
    ensures CompareRows(t, keys, x, y) ==
            Turned(CompareComponents(t.catalog, comps[..|keys|], xs[..|keys|], ys[..|keys|]), flip)
    decreases |keys|
  {
    hide CompareTyped, Encodes, FieldType, RowField;
    if keys != [] {
      var n := |keys|;
      VisibleOrder(t, keys[1..], cs[1..], comps[1..], xs[1..], ys[1..], x, y, flip);
      assert comps[1..][..n-1] == comps[..n][1..] && xs[1..][..n-1] == xs[..n][1..] && ys[1..][..n-1] == ys[..n][1..];
      assert keys[0].column == cs[0].column && (keys[0].descending != cs[0].descending) == flip;
      assert CompareKey(t, keys[0], x, y) == Turned(CompareComponent(t.catalog, comps[0], xs[0], ys[0]), flip);
    }
  }

  /** Keys on fixed columns never decide between rows that agree on the prefix. */
  lemma {:induction false} FixedKeysEqual(
    t: TableSchema, keys: seq<SortKey>, cs: seq<IndexComponent>, comps: seq<Component>, m: nat,
    xs: seq<Value>, ys: seq<Value>, x: Fields, y: Fields)
    requires TypedRow(t, cs, comps, xs, x) && TypedRow(t, cs, comps, ys, y) && m <= |cs|
    requires SamePrefix(t.catalog, comps, m, xs, ys)
    ensures CompareRows(t, keys, x, y) == CompareRows(t, Visible(keys, FixedColumns(cs, m)), x, y)
    decreases |keys|
  {
    hide CompareTyped, Encodes, FieldType, RowField;
    if keys != [] {
      FixedKeysEqual(t, keys[1..], cs, comps, m, xs, ys, x, y);
      if keys[0].column in FixedColumns(cs, m) {
        var i :| 0 <= i < m && cs[i].column == keys[0].column;
        EqualComponents(t.catalog, comps[..m], xs[..m], ys[..m], i);
        assert CompareKey(t, keys[0], x, y) == Some(Equal);
        assert Visible(keys, FixedColumns(cs, m)) == Visible(keys[1..], FixedColumns(cs, m));
      } else {
        var v := Visible(keys, FixedColumns(cs, m));
        assert v[0] == keys[0] && v[1..] == Visible(keys[1..], FixedColumns(cs, m));
      }
    }
  }

  /** How far into the index the equality prefix and the sort keys reach. */
  function Reach(keys: seq<SortKey>, cs: seq<IndexComponent>, m: nat): nat
    requires m <= |cs|
  {
    m + |Visible(keys, FixedColumns(cs, m))|
  }

  /** Two typed rows that agree on every component from the `n`th on. */
  ghost predicate RestEqual(catalog: Catalog, comps: seq<Component>, n: nat, xs: seq<Value>, ys: seq<Value>)
    requires n <= |comps| == |xs| == |ys|
  {
    CompareComponents(catalog, comps[n..], xs[n..], ys[n..]) == Some(Equal)
  }

  lemma NothingLeft(catalog: Catalog, comps: seq<Component>, xs: seq<Value>, ys: seq<Value>)
    requires |comps| == |xs| == |ys|
    ensures RestEqual(catalog, comps, |comps|, xs, ys)
  {}

  /** Between two rows of one planned range, the requested order never contradicts the key
      order; it is the key order when the rows agree on the components it does not name. */
  lemma SortIsKeyOrder(
    t: TableSchema, keys: seq<SortKey>, cs: seq<IndexComponent>, comps: seq<Component>, m: nat,
    xs: seq<Value>, ys: seq<Value>, x: Fields, y: Fields, flip: bool)
    requires TypedRow(t, cs, comps, xs, x) && TypedRow(t, cs, comps, ys, y) && m <= |cs|
    requires SamePrefix(t.catalog, comps, m, xs, ys)
    requires EncodeComponents(t.catalog, comps, xs).Some? && EncodeComponents(t.catalog, comps, ys).Some?
    requires var visible := Visible(keys, FixedColumns(cs, m));
             |visible| <= |cs| - m && SameColumns(visible, cs[m..]) && SameDirections(visible, cs[m..], flip)
    ensures CompareRows(t, keys, x, y).Some?
    ensures var o, k := CompareRows(t, keys, x, y).value,
            Compare(EncodeComponents(t.catalog, comps, xs).value, EncodeComponents(t.catalog, comps, ys).value);
            && (o != Equal ==> k == if flip then o.Reverse() else o)
            && (RestEqual(t.catalog, comps, Reach(keys, cs, m), xs, ys) ==> o == if flip then k.Reverse() else k)
  {
    hide CompareTyped, Encodes, FieldType, RowField, CompareComponents, EncodeComponents, CompareRows, Visible;
    var visible := Visible(keys, FixedColumns(cs, m));
    var n := |visible|;
    FixedKeysEqual(t, keys, cs, comps, m, xs, ys, x, y);
    RestTyped(t, cs, comps, xs, x, m);
    RestTyped(t, cs, comps, ys, y, m);
    VisibleOrder(t, visible, cs[m..], comps[m..], xs[m..], ys[m..], x, y, flip);
    TupleOrder(t.catalog, comps, xs, ys);
    var whole := CompareComponents(t.catalog, comps, xs, ys).value;
    DecidesIsCompare(EncodeComponents(t.catalog, comps, xs).value, EncodeComponents(t.catalog, comps, ys).value, whole);
    ComponentsThen(t.catalog, comps, xs, ys, m);
    ComponentsThen(t.catalog, comps[m..], xs[m..], ys[m..], n);
    assert comps[m..][n..] == comps[m+n..] && xs[m..][n..] == xs[m+n..] && ys[m..][n..] == ys[m+n..];
  }

  lemma RestTyped(t: TableSchema, cs: seq<IndexComponent>, comps: seq<Component>, xs: seq<Value>, x: Fields, m: nat)
    requires TypedRow(t, cs, comps, xs, x) && m <= |cs|
    ensures TypedRow(t, cs[m..], comps[m..], xs[m..], x)
  {
    hide FieldType, RowField, Encodes;
  }

  // ---- Whole scans ------------------------------------------------------------------------------

  ghost predicate SortedRows(t: TableSchema, keys: seq<SortKey>, rows: seq<Row>) {
    forall i, j :: 0 <= i < j < |rows| ==>
      var o := CompareRows(t, keys, rows[i].fields, rows[j].fields); o == Some(Less) || o == Some(Equal)
  }

  /** The order of a stable sort of the table's rows: ties stay in row ID order. */
  ghost predicate StableSorted(t: TableSchema, keys: seq<SortKey>, rows: seq<Row>) {
    forall i, j :: 0 <= i < j < |rows| ==>
      var o := CompareRows(t, keys, rows[i].fields, rows[j].fields);
      o == Some(Less) || (o == Some(Equal) && rows[i].id < rows[j].id)
  }

  ghost predicate RowsAhead(f: Filing, rows: seq<Row>, o: Ordering) {
    forall i, j :: 0 <= i < j < |rows| ==> Ahead(f, rows[i].id, rows[j].id, o)
  }

  lemma {:induction false} RowsAtAhead(rm: RowMap, ids: seq<RowId>, f: Filing, o: Ordering)
    requires forall i, j :: 0 <= i < j < |ids| ==> Ahead(f, ids[i], ids[j], o)
    ensures RowsAhead(f, RowsAt(rm, ids), o)
  {
    hide Ahead;
    if ids != [] {
      RowsAtAhead(rm, ids[1..], f, o);
      RowsAtMembers(rm, ids[1..]);
      var rest := RowsAt(rm, ids[1..]);
      forall j | 0 <= j < |rest| ensures Ahead(f, ids[0], rest[j].id, o) {
        assert rest[j] in rest;
        var m :| 0 <= m < |ids[1..]| && ids[1..][m] == rest[j].id;
        assert ids[m+1] == rest[j].id;
      }
    }
  }

  lemma {:induction false} KeptAhead(b: Builtins, filters: seq<Condition>, rows: seq<Row>, f: Filing, o: Ordering)
    requires RowsAhead(f, rows, o) && Kept(b, filters, rows).Some?
    requires forall r <- rows :: Passes(b, filters, RowResolver(r.fields)).Some?
    ensures RowsAhead(f, Kept(b, filters, rows).value, o)
  {
    hide RowsAhead, Passes, RowResolver;
    if rows != [] {
      RestAhead(f, rows, o);
      KeptAhead(b, filters, rows[1..], f, o);
      KeptMembers(b, filters, rows[1..]);
      var rest := Kept(b, filters, rows[1..]).value;
      FirstAhead(f, rows, rest, o);
      assert [] + rest == rest;
    }
  }

  lemma RestAhead(f: Filing, rows: seq<Row>, o: Ordering)
    requires rows != [] && RowsAhead(f, rows, o)
    ensures RowsAhead(f, rows[1..], o)
  {
    hide Ahead;
  }

  lemma FirstAhead(f: Filing, rows: seq<Row>, rest: seq<Row>, o: Ordering)
    requires rows != [] && RowsAhead(f, rows, o) && RowsAhead(f, rest, o) && forall r <- rest :: r in rows[1..]
    ensures RowsAhead(f, [rows[0]] + rest, o)
  {
    hide Ahead;
    var all := [rows[0]] + rest;
    assert forall i :: 0 < i < |all| ==> all[i] == rest[i-1];
    forall j | 0 <= j < |rest| ensures Ahead(f, rows[0].id, rest[j].id, o) {
      assert rest[j] in rows[1..];
      var m :| 0 <= m < |rows[1..]| && rows[1..][m] == rest[j];
      assert rows[m+1] == rest[j];
    }
  }

  lemma {:induction false} DistinctCount<T>(s: seq<T>, x: T)
    requires Distinct(s)
    ensures multiset(s)[x] == if x in s then 1 else 0
  {
    if s != [] {
      DistinctCount(s[1..], x);
      assert s == [s[0]] + s[1..];
      assert s[0] !in s[1..] by {
        forall i | 0 <= i < |s[1..]| ensures s[1..][i] != s[0] { assert s[1..][i] == s[i+1]; }
      }
    }
  }

  lemma DistinctPermutation<T(!new)>(s: seq<T>, u: seq<T>)
    requires Distinct(s) && Distinct(u) && forall x :: x in s <==> x in u
    ensures multiset(s) == multiset(u)
  {
    forall x ensures multiset(s)[x] == multiset(u)[x] {
      DistinctCount(s, x);
      DistinctCount(u, x);
    }
  }

  lemma AheadDistinct(f: Filing, rows: seq<Row>, o: Ordering)
    requires RowsAhead(f, rows, o) && o != Equal
    ensures Distinct(rows)
  {
    hide Compare;
    forall i, j | 0 <= i < j < |rows| ensures rows[i] != rows[j] {
      assert Ahead(f, rows[i].id, rows[j].id, o);
      CompareReverse(f[rows[i].id], f[rows[i].id]);
    }
  }

  /** The sort an access satisfies. */
  ghost predicate Satisfies(t: TableSchema, d: IndexDefinition, stages: seq<Stage>, sm: SortMatch) {
    var a := MatchComponents(t, d.components, LeadingConstraints(stages, false));
    && sm.position < |stages| && stages[sm.position].Sort?
    && a.Access? && |a.equality| <= |d.components|
    && IndexSortMatch(stages, d.components, |a.equality|) == Some(sm)
  }

  lemma SatisfiedSort(t: TableSchema, d: IndexDefinition, stages: seq<Stage>, sm: SortMatch)
    requires Satisfies(t, d, stages, sm)
    ensures sm.position < |stages| && stages[sm.position].Sort?
  {}

  /** Every sort key of an accepted sort names a component the sort reaches. */
  lemma {:induction false} KeysReached(keys: seq<SortKey>, cs: seq<IndexComponent>, m: nat, k: SortKey)
    requires m <= |cs| && k in keys
    requires var visible := Visible(keys, FixedColumns(cs, m)); |visible| <= |cs| - m && SameColumns(visible, cs[m..])
    ensures exists i :: 0 <= i < Reach(keys, cs, m) && cs[i].column == k.column
  {
    hide Visible;
    var visible := Visible(keys, FixedColumns(cs, m));
    VisibleMembers(keys, FixedColumns(cs, m));
    if k in visible {
      var i :| 0 <= i < |visible| && visible[i] == k;
      assert cs[m..][i] == cs[m + i] && cs[m + i].column == k.column;
    }
  }

  /** What an accepted sort says about its keys. */
  lemma {:induction false} MatchedKeys(stages: seq<Stage>, cs: seq<IndexComponent>, m: nat, sm: SortMatch)
    requires m <= |cs| && IndexSortMatch(stages, cs, m) == Some(sm)
    ensures sm.position < |stages| && stages[sm.position].Sort?
    ensures var visible := Visible(stages[sm.position].keys, FixedColumns(cs, m));
            && |visible| <= |cs| - m && SameColumns(visible, cs[m..])
            && SameDirections(visible, cs[m..], sm.reverse)
  {
    hide FiltersEnd, LetsEnd, Visible;
  }

  /** The visible sort keys name the components after the equality prefix, in order. */
  predicate Along(keys: seq<SortKey>, cs: seq<IndexComponent>, m: nat)
    requires m <= |cs|
  {
    var visible := Visible(keys, FixedColumns(cs, m));
    |visible| <= |cs| - m && SameColumns(visible, cs[m..])
  }

  lemma KeyWithinReach(keys: seq<SortKey>, cs: seq<IndexComponent>, m: nat, k: SortKey, i: nat)
    requires DistinctComponents(cs) && m <= |cs| && Along(keys, cs, m) && k in keys && Reach(keys, cs, m) <= i < |cs|
    ensures k.column != cs[i].column
  {
    hide Visible;
    var visible := Visible(keys, FixedColumns(cs, m));
    VisibleMembers(keys, FixedColumns(cs, m));
    if k in visible {
      var j :| 0 <= j < |visible| && visible[j] == k;
      assert cs[m..][j] == cs[m + j];
    } else {
      var j :| 0 <= j < m && cs[j].column == k.column;
    }
  }

  /** A leading filter fixes the column by equality. */
  predicate FixedBy(constraints: seq<Constraint>, column: string) {
    exists c <- constraints :: c.column == column && c.op == Eq
  }

  /** Leading components that some constraint fixes by equality. */
  function FixedCount(cs: seq<IndexComponent>, constraints: seq<Constraint>): (n: nat)
    ensures n <= |cs|
    ensures forall i :: 0 <= i < n ==> FixedBy(constraints, cs[i].column)
  {
    if cs == [] || !FixedBy(constraints, cs[0].column) then 0
    else 1 + FixedCount(cs[1..], constraints)
  }

  /** A sort key names the column. */
  predicate NamedBy(keys: seq<SortKey>, column: string) {
    exists k <- keys :: k.column == column
  }

  /** Every component behind the sort keys is fixed by an equality filter. */
  ghost predicate RestFixed(t: TableSchema, d: IndexDefinition, stages: seq<Stage>, sm: SortMatch)
    requires Satisfies(t, d, stages, sm)
  {
    var constraints := LeadingConstraints(stages, false);
    var m := |MatchComponents(t, d.components, constraints).equality|;
    forall i :: Reach(stages[sm.position].keys, d.components, m) <= i < |d.components| ==>
      FixedBy(constraints, d.components[i].column)
  }

  lemma {:induction false} AllEqualComponents(catalog: Catalog, comps: seq<Component>, xs: seq<Value>, ys: seq<Value>)
    requires |comps| == |xs| == |ys|
    requires forall i :: 0 <= i < |comps| ==> CompareTyped(catalog, comps[i].ty, xs[i], ys[i], 0) == Some(Equal)
    ensures CompareComponents(catalog, comps, xs, ys) == Some(Equal)
  {
    hide CompareTyped;
    if comps != [] { AllEqualComponents(catalog, comps[1..], xs[1..], ys[1..]); }
  }

  lemma FixedEqual(t: TableSchema, c: Constraint, ty: ScalarType, u: Value, v: Value, x: Fields, y: Fields)
    requires c.op == Eq && ConstraintHolds(t, c, x) && ConstraintHolds(t, c, y)
    requires FieldType(t.catalog, t.columns, c.column) == Some(ty)
    requires RowField(x, c.column) == Some(u) && RowField(y, c.column) == Some(v)
    requires Encodes(t.catalog, ty, u) && Encodes(t.catalog, ty, v) && Encodes(t.catalog, ty, c.value)
    ensures CompareTyped(t.catalog, ty, u, v, 0) == Some(Equal)
  {
    hide FieldType, RowField, EncodeKey, CompareTyped, Compare;
    TypedIsBytes(t.catalog, ty, u, c.value);
    TypedIsBytes(t.catalog, ty, v, c.value);
    TypedIsBytes(t.catalog, ty, u, v);
    CompareReverse(KeyOf(t.catalog, ty, u), KeyOf(t.catalog, ty, c.value));
    CompareReverse(KeyOf(t.catalog, ty, v), KeyOf(t.catalog, ty, c.value));
    CompareReverse(KeyOf(t.catalog, ty, u), KeyOf(t.catalog, ty, v));
  }

  /** Rows that pass the filters agree on a component fixed by equality. */
  lemma FixedComponent(
    b: Builtins, t: TableSchema, d: IndexDefinition, stages: seq<Stage>, comps: seq<Component>,
    xs: seq<Value>, ys: seq<Value>, x: Fields, y: Fields, i: nat)
    requires BoundFilters(b, t, LeadingFilters(stages)) && FiledKey(t, d, x).Some? && FiledKey(t, d, y).Some?
    requires TypedRow(t, d.components, comps, xs, x) && TypedRow(t, d.components, comps, ys, y)
    requires Passes(b, LeadingFilters(stages), RowResolver(x)) == Some(true)
    requires Passes(b, LeadingFilters(stages), RowResolver(y)) == Some(true)
    requires i < |d.components| && FixedBy(LeadingConstraints(stages, false), d.components[i].column)
    ensures CompareTyped(t.catalog, comps[i].ty, xs[i], ys[i], 0) == Some(Equal)
  {
    hide FieldType, RowField, Encodes, CompareTyped, Passes, LeadingFilters, LeadingConstraints, BoundFilters,
      FiledKey, Own, ConstraintHolds;
    var cs, constraints := d.components, LeadingConstraints(stages, false);
    PassingHolds(b, t, d, stages, x, |cs|);
    PassingHolds(b, t, d, stages, y, |cs|);
    LeadingLiteralsEncode(b, t, cs, stages);
    var c :| c in constraints && c.column == cs[i].column && c.op == Eq;
    assert ColumnHolds(t, constraints, cs[i].column, x) && ColumnHolds(t, constraints, cs[i].column, y);
    assert c in Own(constraints, cs[i].column);
    FixedEqual(t, c, comps[i].ty, xs[i], ys[i], x, y);
  }

  lemma FixedRest(
    b: Builtins, t: TableSchema, d: IndexDefinition, stages: seq<Stage>, comps: seq<Component>,
    xs: seq<Value>, ys: seq<Value>, x: Fields, y: Fields, n: nat)
    requires BoundFilters(b, t, LeadingFilters(stages)) && FiledKey(t, d, x).Some? && FiledKey(t, d, y).Some?
    requires TypedRow(t, d.components, comps, xs, x) && TypedRow(t, d.components, comps, ys, y)
    requires Passes(b, LeadingFilters(stages), RowResolver(x)) == Some(true)
    requires Passes(b, LeadingFilters(stages), RowResolver(y)) == Some(true)
    requires n <= |d.components|
    requires forall i :: n <= i < |d.components| ==> FixedBy(LeadingConstraints(stages, false), d.components[i].column)
    ensures RestEqual(t.catalog, comps, n, xs, ys)
  {
    hide FieldType, RowField, Encodes, CompareTyped, Passes, LeadingFilters, LeadingConstraints, BoundFilters,
      FiledKey, CompareComponents, FixedBy;
    forall i | n <= i < |comps| ensures CompareTyped(t.catalog, comps[i].ty, xs[i], ys[i], 0) == Some(Equal) {
      FixedComponent(b, t, d, stages, comps, xs, ys, x, y, i);
    }
    AllEqualComponents(t.catalog, comps[n..], xs[n..], ys[n..]);
  }

  /** Two rows that pass the filters, in scan order, are in sort order. */
  lemma PairOrdered(b: Builtins, t: TableSchema, d: IndexDefinition, stages: seq<Stage>, sm: SortMatch, x: Row, y: Row)
    requires BoundFilters(b, t, LeadingFilters(stages)) && Satisfies(t, d, stages, sm)
    requires FiledKey(t, d, x.fields).Some? && FiledKey(t, d, y.fields).Some?
    requires Passes(b, LeadingFilters(stages), RowResolver(x.fields)) == Some(true)
    requires Passes(b, LeadingFilters(stages), RowResolver(y.fields)) == Some(true)
    requires var k := Compare(FiledKey(t, d, x.fields).value, FiledKey(t, d, y.fields).value);
             k == (if sm.reverse then Greater else Less) || (k == Equal && x.id < y.id)
    ensures var o := CompareRows(t, stages[sm.position].keys, x.fields, y.fields);
            && (o == Some(Less) || o == Some(Equal))
            && (FiledKey(t, d, x.fields) == FiledKey(t, d, y.fields) ==> o == Some(Equal))
            && (RestFixed(t, d, stages, sm) ==> o == Some(Less) || (o == Some(Equal) && x.id < y.id))
  {
    hide FiledKey, BoundFilters, LeadingFilters, LeadingConstraints, MatchComponents, Passes, Compare, CompareRows,
      EncodeComponents, AccessHolds, AccessEncodes, UsedHold, LiteralsEncode, BoundComponents, FieldType, RowField,
      Encodes, SimpleComparison;
    var cs, constraints := d.components, LeadingConstraints(stages, false);
    var a := MatchComponents(t, cs, constraints);
    var comps, xs := FiledTyped(t, d, x.fields);
    var comps', ys := FiledTyped(t, d, y.fields);
    LeadingAreSimple(stages, false);
    LeadingLiteralsEncode(b, t, cs, stages);
    AccessExact(t, cs, comps, xs, constraints, x.fields);
    AccessExact(t, cs, comps, ys, constraints, y.fields);
    PassingHolds(b, t, d, stages, x.fields, Used(a));
    PassingHolds(b, t, d, stages, y.fields, Used(a));
    AccessSamePrefix(t.catalog, comps, xs, ys, a);
    SortIsKeyOrder(t, stages[sm.position].keys, cs, comps, |a.equality|, xs, ys, x.fields, y.fields, sm.reverse);
    CompareReverse(FiledKey(t, d, x.fields).value, FiledKey(t, d, x.fields).value);
    if RestFixed(t, d, stages, sm) {
      var n := Reach(stages[sm.position].keys, cs, |a.equality|);
      FixedRest(b, t, d, stages, comps, xs, ys, x.fields, y.fields, n);
    }
  }

  /** A table whose index is kept and on whose rows the leading filters evaluate. */
  ghost predicate Readable(
    b: Builtins, t: TableSchema, d: IndexDefinition, p: Posting, keys: seq<Key>, rows: seq<Row>, stages: seq<Stage>) {
    && AscendingRows(rows) && TableIndexed(t, d, p, RowMapOf(rows)) && KeysOf(p, keys)
    && AllEvaluate(b, LeadingFilters(stages), RowMapOf(rows))
  }

  /** The rows read through a scan, filtered. */
  function ReadRows(b: Builtins, p: Posting, keys: seq<Key>, rm: RowMap, scan: Scan, reverse: bool, stages: seq<Stage>)
    : Option<seq<Row>>
  {
    Kept(b, LeadingFilters(stages), RowsAt(rm, ScannedIds(p, keys, scan, reverse)))
  }

  /** Reading an accepted index in order and filtering gives a permutation of the rows the
      full scan keeps, sorted as the query asks; it is the stable sort itself when every
      component behind the sort keys is fixed by an equality filter. */
  lemma OrderedScanAgrees(
    b: Builtins, t: TableSchema, d: IndexDefinition, p: Posting, keys: seq<Key>, rows: seq<Row>, stages: seq<Stage>,
    sm: SortMatch)
    requires Readable(b, t, d, p, keys, rows, stages) && Satisfies(t, d, stages, sm)
    requires BoundFilters(b, t, LeadingFilters(stages)) && Proven(b, d, LeadingFilters(stages))
    ensures var read := ReadRows(b, p, keys, RowMapOf(rows), PlanScan(t, d, stages), sm.reverse, stages);
            var all := Kept(b, LeadingFilters(stages), rows);
            && read.Some? && all.Some? && multiset(read.value) == multiset(all.value)
            && SortedRows(t, stages[sm.position].keys, read.value)
            && (RestFixed(t, d, stages, sm) ==> StableSorted(t, stages[sm.position].keys, read.value))
  {
    hide RowMapOf, FilingOf, Lists, KeysOf, LeadingFilters, PlanScan, Selects, ScannedIds, Passes, Kept, RowsAt,
      Unfileable, BoundFilters, Proven, MatchComponents, LeadingConstraints, CompareRows, FiledKey, RestFixed,
      Compare, IndexSortMatch;
    var rm, filters, scan := RowMapOf(rows), LeadingFilters(stages), PlanScan(t, d, stages);
    var f, o := FilingOf(t, d, rm), if sm.reverse then Greater else Less;
    var picked := RowsAt(rm, ScannedIds(p, keys, scan, sm.reverse));
    assert stages[sm.position].Sort?;
    ReadAgrees(b, t, d, p, keys, rows, stages, sm.reverse);
    var read := Kept(b, filters, picked).value;
    KeptMembers(b, filters, picked);
    RowsAtMembers(rm, ScannedIds(p, keys, scan, sm.reverse));
    forall i, j | 0 <= i < j < |read|
      ensures var c := CompareRows(t, stages[sm.position].keys, read[i].fields, read[j].fields);
              && (c == Some(Less) || c == Some(Equal))
              && (RestFixed(t, d, stages, sm) ==> c == Some(Less) || (c == Some(Equal) && read[i].id < read[j].id))
    {
      assert read[i] in read && read[j] in read;
      assert Ahead(f, read[i].id, read[j].id, o);
      FilingAt(t, d, rm, read[i].id);
      FilingAt(t, d, rm, read[j].id);
      CompareReverse(f[read[i].id], f[read[j].id]);
      PairOrdered(b, t, d, stages, sm, read[i], read[j]);
    }
  }

  /** What a scan of the index reads and keeps: the rows that pass and whose key the scan
      selects, in scan order. */
  lemma {:induction false} ScanAhead(
    b: Builtins, t: TableSchema, d: IndexDefinition, p: Posting, keys: seq<Key>, rows: seq<Row>, stages: seq<Stage>,
    scan: Scan, reverse: bool)
    requires Readable(b, t, d, p, keys, rows, stages)
    ensures var rm, filters := RowMapOf(rows), LeadingFilters(stages);
            var f, read := FilingOf(t, d, rm), ReadRows(b, p, keys, rm, scan, reverse, stages);
            && (forall r <- RowsAt(rm, ScannedIds(p, keys, scan, reverse)) ::
                  Passes(b, filters, RowResolver(r.fields)).Some?)
            && read.Some? && RowsAhead(f, read.value, if reverse then Greater else Less)
            && (forall r :: r in read.value <==>
                  r in rows && Passes(b, filters, RowResolver(r.fields)) == Some(true) && r.id in f
                    && Selects(scan, f[r.id]))
            && (forall id <- ScannedIds(p, keys, scan, reverse) :: id in rm)
  {
    hide RowMapOf, Lists, KeysOf, LeadingFilters, Selects, Passes, Kept, RowsAt, Unfileable, ScanOrder, Ahead,
      FiledKey;
    var rm, filters := RowMapOf(rows), LeadingFilters(stages);
    var f, ids, o := FilingOf(t, d, rm), ScannedIds(p, keys, scan, reverse), if reverse then Greater else Less;
    var picked := RowsAt(rm, ids);
    RowMapMembers(rows);
    RowsAtMembers(rm, ids);
    ScannedMeaning(p, f, keys, scan, reverse);
    assert forall i, j :: 0 <= i < j < |ids| ==> Ahead(f, ids[i], ids[j], o) by {
      if scan.Range? { ScanMeaning(p, f, keys, scan.bounds, reverse); }
    }
    RowsAtAhead(rm, ids, f, o);
    KeptMembers(b, filters, picked);
    KeptAhead(b, filters, picked, f, o);
  }

  /** The rows read and kept are the rows the full scan keeps, in scan order. */
  lemma ReadAgrees(
    b: Builtins, t: TableSchema, d: IndexDefinition, p: Posting, keys: seq<Key>, rows: seq<Row>, stages: seq<Stage>,
    reverse: bool)
    requires Readable(b, t, d, p, keys, rows, stages)
    requires BoundFilters(b, t, LeadingFilters(stages)) && Proven(b, d, LeadingFilters(stages))
    ensures var rm, filters, scan := RowMapOf(rows), LeadingFilters(stages), PlanScan(t, d, stages);
            var read, all := ReadRows(b, p, keys, rm, scan, reverse, stages), Kept(b, filters, rows);
            && (forall r <- RowsAt(rm, ScannedIds(p, keys, scan, reverse)) ::
                  Passes(b, filters, RowResolver(r.fields)).Some?)
            && read.Some? && all.Some? && multiset(read.value) == multiset(all.value)
            && RowsAhead(FilingOf(t, d, rm), read.value, if reverse then Greater else Less)
  {
    hide RowMapOf, FilingOf, Lists, KeysOf, LeadingFilters, PlanScan, Selects, ScannedIds, Passes, Kept, RowsAt,
      Unfileable, BoundFilters, Proven, ScanOrder, Ahead, ReadRows;
    var rm, filters, scan := RowMapOf(rows), LeadingFilters(stages), PlanScan(t, d, stages);
    var f, o := FilingOf(t, d, rm), if reverse then Greater else Less;
    RowMapMembers(rows);
    ScanAhead(b, t, d, p, keys, rows, stages, scan, reverse);
    KeptMembers(b, filters, rows);
    var all, read := Kept(b, filters, rows).value, ReadRows(b, p, keys, rm, scan, reverse, stages).value;
    forall r ensures r in all <==> r in read {
      if r in all {
        PassingSelected(b, t, d, stages, r.fields);
        FilingAt(t, d, rm, r.id);
      }
    }
    AheadDistinct(f, read, o);
    AscendingDistinct(all);
    DistinctPermutation(read, all);
  }

  lemma AscendingDistinct(rows: seq<Row>)
    requires AscendingRows(rows)
    ensures Distinct(rows)
  {}

  // ---- Reading only what is needed --------------------------------------------------------------

  lemma {:induction false} EligibleIsKept(b: Builtins, filters: seq<Condition>, rm: RowMap, hits: seq<RowId>)
    requires AllEvaluate(b, filters, rm) && forall id <- hits :: id in rm
    ensures Kept(b, filters, RowsAt(rm, hits)) == Some(RowsAt(rm, Eligible(b, filters, rm, hits)))
    ensures |RowsAt(rm, Eligible(b, filters, rm, hits))| == |Eligible(b, filters, rm, hits)|
    ensures forall id <- Eligible(b, filters, rm, hits) ::
              id in rm && Passes(b, filters, RowResolver(rm[id])) == Some(true)
  {
    hide Passes, Kept, RowsAt;
    if hits == [] {
      NothingKept(b, filters, rm);
    } else {
      var n := |hits| - 1;
      var last := hits[n];
      var row, before := Row(last, rm[last]), Eligible(b, filters, rm, hits[..n]);
      EligibleIsKept(b, filters, rm, hits[..n]);
      assert hits == hits[..n] + [last];
      RowsAtPush(rm, hits[..n], last);
      RowsAtPush(rm, before, last);
      KeptPush(b, filters, RowsAt(rm, hits[..n]), row);
      var x := Passes(b, filters, RowResolver(rm[last]));
      assert x == Some(x.value);
      assert Eligible(b, filters, rm, hits) == before + (if x.value then [last] else []);
      if !x.value {
        assert before + [] == before && RowsAt(rm, before) + [] == RowsAt(rm, before);
      }
    }
  }

  lemma NothingKept(b: Builtins, filters: seq<Condition>, rm: RowMap)
    ensures RowsAt(rm, []) == [] && Kept(b, filters, []) == Some([])
  {}

  lemma RowsAtPush(rm: RowMap, ids: seq<RowId>, last: RowId)
    requires last in rm
    ensures RowsAt(rm, ids + [last]) == RowsAt(rm, ids) + [Row(last, rm[last])]
  {
    RowsAtConcat(rm, ids, [last]);
    assert RowsAt(rm, [last]) == [Row(last, rm[last])] + RowsAt(rm, []);
  }

  lemma KeptPush(b: Builtins, filters: seq<Condition>, rows: seq<Row>, row: Row)
    requires Kept(b, filters, rows).Some? && Passes(b, filters, RowResolver(row.fields)).Some?
    ensures Kept(b, filters, rows + [row]) ==
            Some(Kept(b, filters, rows).value +
                 (if Passes(b, filters, RowResolver(row.fields)).value then [row] else []))
  {
    hide Passes;
    KeptConcat(b, filters, rows, [row]);
    assert Kept(b, filters, []) == Some([]);
    var one := if Passes(b, filters, RowResolver(row.fields)).value then [row] else [];
    assert one + [] == one;
    assert Kept(b, filters, [row]) == Some(one);
  }

  lemma {:induction false} RowsAtConcat(rm: RowMap, a: seq<RowId>, c: seq<RowId>)
    ensures RowsAt(rm, a + c) == RowsAt(rm, a) + RowsAt(rm, c)
  {
    if a == [] {
      assert a + c == c;
    } else {
      RowsAtConcat(rm, a[1..], c);
      assert (a + c)[1..] == a[1..] + c && (a + c)[0] == a[0];
      Regroup(if a[0] in rm then [Row(a[0], rm[a[0]])] else [], RowsAt(rm, a[1..]), RowsAt(rm, c));
    }
  }

  lemma {:induction false} KeptConcat(b: Builtins, filters: seq<Condition>, a: seq<Row>, c: seq<Row>)
    ensures Kept(b, filters, a + c) ==
            var x, y := Kept(b, filters, a), Kept(b, filters, c);
            if x.None? || y.None? then None else Some(x.value + y.value)
  {
    hide Passes;
    var x, y := Kept(b, filters, a), Kept(b, filters, c);
    if a == [] {
      assert a + c == c;
      assert y.Some? ==> [] + y.value == y.value;
    } else {
      KeptConcat(b, filters, a[1..], c);
      assert (a + c)[1..] == a[1..] + c;
      var rest, head := Kept(b, filters, a[1..]), Passes(b, filters, RowResolver(a[0].fields));
      if head.Some? && rest.Some? && y.Some? {
        var first := if head.value then [a[0]] else [];
        Regroup(first, rest.value, y.value);
      }
    }
  }

  lemma {:induction false} RowsAtCut(rm: RowMap, ids: seq<RowId>, n: nat)
    requires n <= |ids| && forall id <- ids :: id in rm
    ensures |RowsAt(rm, ids)| == |ids| && RowsAt(rm, ids[..n]) == RowsAt(rm, ids)[..n]
  {
    RowsAtLength(rm, ids);
    RowsAtLength(rm, ids[..n]);
    RowsAtConcat(rm, ids[..n], ids[n..]);
    assert ids == ids[..n] + ids[n..];
    assert RowsAt(rm, ids)[..n] == RowsAt(rm, ids[..n]);
  }

  lemma {:induction false} RowsAtLength(rm: RowMap, ids: seq<RowId>)
    requires forall id <- ids :: id in rm
    ensures |RowsAt(rm, ids)| == |ids|
  {
    if ids != [] { RowsAtLength(rm, ids[1..]); }
  }

  /** Stopping after `n` eligible entries keeps the first `n` rows of the whole read. */
  lemma EarlyStop(b: Builtins, filters: seq<Condition>, rm: RowMap, hits: seq<RowId>, n: nat)
    requires AllEvaluate(b, filters, rm) && forall id <- hits :: id in rm
    ensures var chosen := if filters == [] then Cut(hits, Some(n)) else Cut(Eligible(b, filters, rm, hits), Some(n));
            var all := Kept(b, filters, RowsAt(rm, hits));
            all.Some? && Kept(b, filters, RowsAt(rm, chosen)) == Some(Cut(all.value, Some(n)))
  {
    hide Passes, Kept, RowsAt;
    EligibleIsKept(b, filters, rm, hits);
    var eligible := Eligible(b, filters, rm, hits);
    if filters == [] {
      NoFilters(b, rm, hits);
    }
    var chosen := Cut(eligible, Some(n));
    RowsAtCut(rm, eligible, |chosen|);
    EligibleIsKept(b, filters, rm, chosen);
    AllEligible(b, filters, rm, chosen);
  }

  lemma {:induction false} AllEligible(b: Builtins, filters: seq<Condition>, rm: RowMap, ids: seq<RowId>)
    requires forall id <- ids :: id in rm && Passes(b, filters, RowResolver(rm[id])) == Some(true)
    ensures Eligible(b, filters, rm, ids) == ids
  {
    hide Passes, Eligible;
    if ids == [] {
      NoneEligible(b, filters, rm);
    } else {
      var front, last := ids[..|ids| - 1], ids[|ids| - 1];
      assert ids == front + [last];
      assert forall id <- front :: id in ids;
      AllEligible(b, filters, rm, front);
      EligiblePush(b, filters, rm, front, last);
    }
  }

  lemma NoFilters(b: Builtins, rm: RowMap, ids: seq<RowId>)
    requires forall id <- ids :: id in rm
    ensures Eligible(b, [], rm, ids) == ids
  {
    AllEligible(b, [], rm, ids);
  }
}
