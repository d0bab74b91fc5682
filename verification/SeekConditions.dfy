/** Which pages may be sought: the exact condition on a query under which starting at the
    cursor inside the index never loses a row of the page. */
module SeekConditions {
  import opened Bytes
  import opened Model
  import opened OrderedKey
  import opened KeyBounds
  import opened Schema
  import opened TableStore
  import opened Tables
  import opened Expressions
  import opened Planner
  import opened IndexPredicates
  import opened IndexAccess
  import opened OrderedScan
  import opened PageOrders
  import opened PageSeek
  import Paging

  // ---- The condition ----------------------------------------------------------------------------

  /** How many leading components the equality prefix and the page order give a value for. */
  function Bounded(cs: seq<IndexComponent>, m: nat, keys: seq<SortKey>, i: nat): (n: nat)
    requires i <= |cs|
    ensures i <= n <= |cs|
    ensures forall j :: i <= j < n ==> j < m || NamedBy(keys, cs[j].column)
    decreases |cs| - i
  {
    if i == |cs| || !(i < m || NamedBy(keys, cs[i].column)) then i else Bounded(cs, m, keys, i + 1)
  }

  /** A cursor of this order starts the scan inside the index: it gives a value for as many
      components as it has keys that the filters leave open, and some component is open. */
  predicate Seeks(cs: seq<IndexComponent>, m: nat, keys: seq<SortKey>)
    requires m <= |cs|
  {
    m < |cs| && Bounded(cs, m, keys, 0) >= Reach(keys, cs, m)
  }

  /** The stages hand the stored value of the column on to the sort. */
  predicate Survives(before: seq<Stage>, column: string) {
    NeverDerives(before, column) && KeepsKey(before, column)
  }

  predicate AllKept(before: seq<Stage>, keys: seq<SortKey>) {
    forall k <- keys :: Survives(before, k.column)
  }

  /** The keys on columns that no equality filter fixes. */
  function Open(keys: seq<SortKey>, constraints: seq<Constraint>): seq<SortKey> {
    if keys == [] then []
    else (if FixedBy(constraints, keys[0].column) then [] else [keys[0]]) + Open(keys[1..], constraints)
  }

  /** The keys name the components one after another, fixed components left out, and all in
      the direction of the scan. */
  predicate Runs(cs: seq<IndexComponent>, keys: seq<SortKey>, constraints: seq<Constraint>, reverse: bool) {
    if keys == [] then true
    else if cs == [] then false
    else if FixedBy(constraints, cs[0].column) then Runs(cs[1..], keys, constraints, reverse)
    else
      && keys[0].column == cs[0].column && (keys[0].descending != cs[0].descending) == reverse
      && Runs(cs[1..], keys[1..], constraints, reverse)
  }

  /** The first `n` page keys are stored values and run along the bounded components, and they
      are all keys or leave no ties. */
  predicate SafeFront(
    b: Builtins, t: TableSchema, ds: seq<IndexDefinition>, cs: seq<IndexComponent>, m: nat, reverse: bool,
    stages: seq<Stage>, position: nat, n: nat)
    requires m <= |cs| && position < |stages| && stages[position].Sort? && n <= |stages[position].keys|
  {
    var keys, constraints := stages[position].keys, LeadingConstraints(stages, false);
    && AllKept(stages[..position], keys[..n])
    && Runs(cs[..Bounded(cs, m, keys, 0)], Open(keys[..n], constraints), constraints, reverse)
    && (n == |keys| || KeyDecides(b, t, ds, stages, keys[..n]))
  }

  /** The condition: the page is not sought at all, or the filters fix a unique index and there
      is at most one row, or every value of the boundary is stored and the page keys, as far
      as they matter, run along the index in the direction of the scan. */
  predicate SeekSafe(
    b: Builtins, t: TableSchema, ds: seq<IndexDefinition>, cs: seq<IndexComponent>, m: nat, reverse: bool,
    stages: seq<Stage>, position: nat)
    requires m <= |cs| && position < |stages| && stages[position].Sort?
  {
    var keys := stages[position].keys;
    || !Seeks(cs, m, keys)
    || KeyDecides(b, t, ds, stages, [])
    || (&& AllKept(stages[..position], Visible(keys, FixedColumns(cs, m)))
        && exists n :: 0 <= n <= |keys| && SafeFront(b, t, ds, cs, m, reverse, stages, position, n))
  }

  // ---- What may be lost -------------------------------------------------------------------------

  /** The bound order of the page: a key that is still the stored field has its type. */
  ghost predicate OrderOf(t: TableSchema, before: seq<Stage>, keys: seq<SortKey>, order: seq<Paging.OrderKey>) {
    && |order| == |keys|
    && forall i :: 0 <= i < |keys| ==>
         && order[i].column == keys[i].column && order[i].descending == keys[i].descending
         && (NeverDerives(before, keys[i].column) && KeepsKey(before, keys[i].column) ==>
             FieldType(t.catalog, t.columns, keys[i].column) == Some(order[i].ty))
  }

  /** The row has a value of the bound type for every key of the order. */
  ghost predicate Placed(catalog: Catalog, order: seq<Paging.OrderKey>, row: Fields) {
    var cursor := Paging.Cursor(order, row);
    cursor.Some? && |cursor.value| == |order| && EncodeComponents(catalog, Comps(order), cursor.value).Some?
  }

  /** Row `i` passes the leading filters and, on reaching the sort, lies on the asked side of
      row `j`, whose cursor is the boundary. */
  ghost predicate Asked(
    b: Builtins, t: TableSchema, rm: RowMap, stages: seq<Stage>, position: nat, derive: (nat, Fields) -> Value,
    order: seq<Paging.OrderKey>, boundary: seq<Value>, direction: Paging.Direction, i: RowId, j: RowId)
    requires position < |stages| && stages[position].Sort?
  {
    var before, filters := stages[..position], LeadingFilters(stages);
    && i in rm && j in rm
    && Passes(b, filters, RowResolver(rm[i])) == Some(true) && Passes(b, filters, RowResolver(rm[j])) == Some(true)
    && OrderOf(t, before, stages[position].keys, order)
    && var x, y := Transform(before, 0, derive, rm[i]), Transform(before, 0, derive, rm[j]);
       && Placed(t.catalog, order, x) && Placed(t.catalog, order, y) && Paging.Cursor(order, y) == Some(boundary)
       && OnAskedSide(direction, Paging.CompareBoundary(t.catalog, order, x, boundary))
  }

  /** The planned scan of the page reads the row. */
  ghost predicate Read(
    t: TableSchema, d: IndexDefinition, stages: seq<Stage>, keys: seq<SortKey>, boundary: seq<Value>,
    direction: Paging.Direction, reverse: bool, fields: Fields) {
    && FiledKey(t, d, fields).Some?
    && Selects(PageScan(t, d, stages, keys, Some(boundary), Greaterwards(direction, reverse)),
               FiledKey(t, d, fields).value)
  }

  /** On no table, for no derivation and no cursor does the scan miss a row of the page. */
  ghost predicate LosesNothing(
    b: Builtins, t: TableSchema, ds: seq<IndexDefinition>, d: IndexDefinition, stages: seq<Stage>, reverse: bool,
    position: nat)
    requires position < |stages| && stages[position].Sort?
  {
    forall rm, derive, order, boundary, direction, i, j ::
      Sound(t, ds, rm) && Asked(b, t, rm, stages, position, derive, order, boundary, direction, i, j) ==>
      Read(t, d, stages, stages[position].keys, boundary, direction, reverse, rm[i])
  }

  // ---- The condition is sufficient --------------------------------------------------------------

  /** The cursor fixes exactly the leading components that are bounded. */
  lemma {:induction false} BoundedValues(
    cs: seq<IndexComponent>, equality: seq<Value>, keys: seq<SortKey>, boundary: seq<Value>, i: nat)
    requires DistinctComponents(cs) && |equality| <= |cs| && |boundary| == |keys| && i <= |cs|
    ensures i + |BoundaryValues(cs, equality, keys, boundary, i)| == Bounded(cs, |equality|, keys, i)
    decreases |cs| - i
  {
    hide DistinctComponents;
    if i < |cs| {
      FixedValueAt(cs, equality, i);
      OrderValueNamed(keys, boundary, cs[i].column);
      if i < |equality| || NamedBy(keys, cs[i].column) {
        BoundedValues(cs, equality, keys, boundary, i + 1);
      }
    }
  }

  lemma {:induction false} OrderValueNamed(keys: seq<SortKey>, boundary: seq<Value>, column: string)
    requires |boundary| == |keys|
    ensures OrderValue(keys, boundary, column).Some? <==> NamedBy(keys, column)
  {
    if keys != [] {
      OrderValueNamed(keys[1..], boundary[1..], column);
      assert forall k :: k in keys <==> k == keys[0] || k in keys[1..];
    }
  }

  lemma {:induction false} ExactValues(
    cs: seq<IndexComponent>, equality: seq<Value>, keys: seq<SortKey>, boundary: seq<Value>, i: nat)
    requires DistinctComponents(cs) && |equality| == |cs| && i <= |cs|
    ensures BoundaryValues(cs, equality, keys, boundary, i) == equality[i..]
    decreases |cs| - i
  {
    hide DistinctComponents;
    if i < |cs| {
      FixedValueAt(cs, equality, i);
      ExactValues(cs, equality, keys, boundary, i + 1);
      assert equality[i..] == [equality[i]] + equality[i+1..];
    }
  }

  /** A page that is not sought reads what the plan without a page reads. */
  lemma {:induction false} Unsought(
    t: TableSchema, d: IndexDefinition, stages: seq<Stage>, comps: seq<Component>, keys: seq<SortKey>,
    boundary: seq<Value>, greater: bool)
    requires BoundComponents(t, d.components) == Some(comps) && DistinctComponents(d.components) && |boundary| == |keys|
    requires var a := MatchComponents(t, d.components, LeadingConstraints(stages, false));
             && a.Access? && Used(a) <= |d.components| && AccessEncodes(t.catalog, comps, a)
             && !Seeks(d.components, |a.equality|, keys)
    ensures PageScan(t, d, stages, keys, Some(boundary), greater) == PlanScan(t, d, stages)
  {
    hide MatchComponents, LeadingConstraints, BoundComponents, DistinctComponents, PlanBounds, BoundaryValues,
      Bounded, Reach, EncodeComponents, Encodes;
    var a := MatchComponents(t, d.components, LeadingConstraints(stages, false));
    BoundedValues(d.components, a.equality, keys, boundary, 0);
    if |a.equality| == |d.components| {
      ExactValues(d.components, a.equality, keys, boundary, 0);
      assert a.equality[0..] == a.equality && comps[..|a.equality|] == comps;
      ComponentsEncode(t.catalog, comps, a.equality);
    }
  }

  // ---- Stored keys compare as stored ------------------------------------------------------------

  /** A kept key reads the same from the row that reaches the sort. */
  lemma {:induction false} KeptField(before: seq<Stage>, derive: (nat, Fields) -> Value, x: Fields, column: string)
    requires NeverDerives(before, column) && KeepsKey(before, column) && PlainNames(x) && RowField(x, column).Some?
    ensures RowField(Transform(before, 0, derive, x), column) == RowField(x, column)
  {
    hide Transform, Follow, RowField;
    StartTracks(x, column);
    KeptKey(before, 0, derive, x, x, column, Start(column));
  }

  lemma FrontTail(keys: seq<SortKey>, n: nat)
    requires 0 < n <= |keys|
    ensures keys[..n][1..] == keys[1..][..n-1]
  {}

  /** The first `n` keys compare with the cursor as stored, where both rows show their stored
      values; the rest only matters if they tie. */
  lemma {:induction false} StoredFront(
    t: TableSchema, keys: seq<SortKey>, order: seq<Paging.OrderKey>, x: Fields, x': Fields, y: Fields,
    boundary: seq<Value>, n: nat)
    requires n <= |keys| == |order| == |boundary|
    requires forall i :: 0 <= i < n ==>
      && order[i].column == keys[i].column && order[i].descending == keys[i].descending
      && FieldType(t.catalog, t.columns, keys[i].column) == Some(order[i].ty)
      && RowField(x', keys[i].column) == RowField(x, keys[i].column)
      && RowField(y, keys[i].column) == Some(boundary[i])
    ensures Paging.CompareBoundary(t.catalog, order, x', boundary) ==
            var front := CompareRows(t, keys[..n], x, y);
            if front != Some(Equal) then front else Paging.CompareBoundary(t.catalog, order[n..], x', boundary[n..])
  {
    hide FieldType, RowField, CompareComponent;
    if n == 0 {
      assert order[0..] == order && boundary[0..] == boundary;
    } else {
      FrontTail(keys, n);
      StoredFront(t, keys[1..], order[1..], x, x', y, boundary[1..], n - 1);
      assert order[1..][n-1..] == order[n..] && boundary[1..][n-1..] == boundary[n..];
    }
  }

  lemma {:induction false} CursorFields(order: seq<Paging.OrderKey>, row: Fields)
    requires Paging.Cursor(order, row).Some?
    ensures |Paging.Cursor(order, row).value| == |order|
    ensures forall i :: 0 <= i < |order| ==> RowField(row, order[i].column) == Some(Paging.Cursor(order, row).value[i])
  {
    hide RowField;
    if order != [] {
      CursorFields(order[1..], row);
      assert Paging.Cursor(order, row).value[1..] == Paging.Cursor(order[1..], row).value;
      forall i | 0 <= i < |order| ensures RowField(row, order[i].column) == Some(Paging.Cursor(order, row).value[i]) {
        if i > 0 { assert order[i] == order[1..][i-1]; }
      }
    }
  }

  // ---- A sought order permutes the next components ----------------------------------------------

  function ColumnsIn(keys: seq<SortKey>): (r: set<string>)
    ensures forall name :: name in r <==> NamedBy(keys, name)
  {
    set k <- keys :: k.column
  }

  predicate DistinctKeys(keys: seq<SortKey>) {
    forall i, j :: 0 <= i < j < |keys| ==> keys[i].column != keys[j].column
  }

  lemma {:induction false} KeyColumns(keys: seq<SortKey>)
    ensures |ColumnsIn(keys)| <= |keys|
    ensures |ColumnsIn(keys)| == |keys| ==> DistinctKeys(keys)
  {
    if keys != [] {
      var front, last := keys[..|keys|-1], keys[|keys|-1];
      assert keys == front + [last];
      KeyColumns(front);
      assert ColumnsIn(keys) == ColumnsIn(front) + {last.column};
      if |ColumnsIn(keys)| == |keys| {
        assert last.column !in ColumnsIn(front);
        forall i, j | 0 <= i < j < |keys| ensures keys[i].column != keys[j].column {
          assert keys[i] == front[i] && front[i] in front;
          if j < |front| { assert keys[j] == front[j]; }
        }
      }
    }
  }

  function ColumnsBetween(cs: seq<IndexComponent>, m: nat, n: nat): set<string>
    requires m <= n <= |cs|
  {
    set i | m <= i < n :: cs[i].column
  }

  lemma {:induction false} CountColumns(cs: seq<IndexComponent>, m: nat, n: nat)
    requires DistinctComponents(cs) && m <= n <= |cs|
    ensures |ColumnsBetween(cs, m, n)| == n - m
  {
    if m < n {
      CountColumns(cs, m, n - 1);
      assert ColumnsBetween(cs, m, n) == ColumnsBetween(cs, m, n - 1) + {cs[n-1].column};
    }
  }

  lemma {:induction false} PrefixBounded(cs: seq<IndexComponent>, m: nat, keys: seq<SortKey>, i: nat)
    requires i <= m <= |cs|
    ensures Bounded(cs, m, keys, i) >= m
    decreases m - i
  {
    if i < m { PrefixBounded(cs, m, keys, i + 1); }
  }

  /** A cursor that reaches far enough names the next components, each once. */
  lemma {:induction false} SoughtPermutes(cs: seq<IndexComponent>, m: nat, keys: seq<SortKey>)
    requires DistinctComponents(cs) && m <= |cs| && Seeks(cs, m, keys)
    ensures var visible, n := Visible(keys, FixedColumns(cs, m)), Bounded(cs, m, keys, 0);
            && m <= n && |visible| == n - m && DistinctKeys(visible)
            && forall k <- visible :: exists i :: m <= i < n && cs[i].column == k.column
  {
    hide Visible, Bounded, DistinctComponents;
    var visible, n := Visible(keys, FixedColumns(cs, m)), Bounded(cs, m, keys, 0);
    PrefixBounded(cs, m, keys, 0);
    var a, c := ColumnsBetween(cs, m, n), ColumnsIn(visible);
    CountColumns(cs, m, n);
    KeyColumns(visible);
    VisibleMembers(keys, FixedColumns(cs, m));
    assert a <= c by {
      forall name <- a ensures name in c {
        var i :| m <= i < n && cs[i].column == name;
        var k :| k in keys && k.column == name;
        assert name !in FixedColumns(cs, m) by { OpenColumn(cs, m, i); }
        assert k in visible;
      }
    }
    SameSize(a, c);
    forall k <- visible ensures exists i :: m <= i < n && cs[i].column == k.column {
      assert k.column in c;
    }
  }

  lemma OpenColumn(cs: seq<IndexComponent>, m: nat, i: nat)
    requires DistinctComponents(cs) && m <= i < |cs|
    ensures cs[i].column !in FixedColumns(cs, m)
  {}

  lemma {:induction false} SameSize(a: set<string>, c: set<string>)
    requires a <= c && |a| >= |c|
    ensures a == c
  {
    assert c == a + (c - a);
    assert |c| == |a| + |c - a|;
  }

  /** A key of a sought order names a bounded component. */
  lemma {:induction false} SoughtKey(cs: seq<IndexComponent>, m: nat, keys: seq<SortKey>, k: SortKey) returns (i: nat)
    requires DistinctComponents(cs) && m <= |cs| && Seeks(cs, m, keys) && k in keys
    ensures i < Bounded(cs, m, keys, 0) <= |cs| && cs[i].column == k.column
    ensures k.column !in FixedColumns(cs, m) ==> m <= i
  {
    hide Visible, Bounded, DistinctComponents;
    SoughtPermutes(cs, m, keys);
    VisibleMembers(keys, FixedColumns(cs, m));
    if k.column in FixedColumns(cs, m) {
      i :| 0 <= i < m && cs[i].column == k.column;
    } else {
      assert k in Visible(keys, FixedColumns(cs, m));
      i :| m <= i < Bounded(cs, m, keys, 0) && cs[i].column == k.column;
    }
  }

  // ---- Keys that run along the index ------------------------------------------------------------

  /** Keys that run along the components decide as the components do. */
  lemma {:induction false} RunsOrder(
    t: TableSchema, cs: seq<IndexComponent>, comps: seq<Component>, xs: seq<Value>, ys: seq<Value>, x: Fields,
    y: Fields, keys: seq<SortKey>, constraints: seq<Constraint>, reverse: bool)
    requires TypedRow(t, cs, comps, xs, x) && TypedRow(t, cs, comps, ys, y) && Runs(cs, keys, constraints, reverse)
    requires forall i :: 0 <= i < |cs| && FixedBy(constraints, cs[i].column) ==>
               CompareTyped(t.catalog, comps[i].ty, xs[i], ys[i], 0) == Some(Equal)
    ensures CompareRows(t, keys, x, y) != Some(Equal) ==>
              CompareComponents(t.catalog, comps, xs, ys) == Turned(CompareRows(t, keys, x, y), reverse)
  {
    hide FieldType, RowField, Encodes, CompareTyped, FixedBy;
    if keys != [] {
      RestTyped(t, cs, comps, xs, x, 1);
      RestTyped(t, cs, comps, ys, y, 1);
      assert forall i :: 0 <= i < |cs| - 1 ==> cs[1..][i] == cs[i+1] && comps[1..][i] == comps[i+1];
      if FixedBy(constraints, cs[0].column) {
        RunsOrder(t, cs[1..], comps[1..], xs[1..], ys[1..], x, y, keys, constraints, reverse);
      } else {
        RunsOrder(t, cs[1..], comps[1..], xs[1..], ys[1..], x, y, keys[1..], constraints, reverse);
        assert CompareKey(t, keys[0], x, y) == Turned(CompareComponent(t.catalog, comps[0], xs[0], ys[0]), reverse);
      }
    }
  }

  /** Keys on fixed columns do not tell the rows apart. */
  lemma {:induction false} OpenOrder(
    t: TableSchema, keys: seq<SortKey>, x: Fields, y: Fields, constraints: seq<Constraint>)
    requires forall k <- keys :: FixedBy(constraints, k.column) ==> CompareKey(t, k, x, y) == Some(Equal)
    ensures CompareRows(t, keys, x, y) == CompareRows(t, Open(keys, constraints), x, y)
  {
    hide CompareKey, FixedBy;
    if keys != [] {
      assert keys[0] in keys;
      OpenOrder(t, keys[1..], x, y, constraints);
      var open := Open(keys, constraints);
      if FixedBy(constraints, keys[0].column) {
        assert open == Open(keys[1..], constraints);
      } else {
        assert open[0] == keys[0] && open[1..] == Open(keys[1..], constraints);
      }
    }
  }

  // ---- The boundary of a safe seek --------------------------------------------------------------

  /** Two rows that pass the filters, as the index and the sort see them. */
  ghost predicate PassingPair(
    b: Builtins, t: TableSchema, d: IndexDefinition, stages: seq<Stage>, comps: seq<Component>, xs: seq<Value>,
    ys: seq<Value>, x: Fields, y: Fields) {
    && BoundFilters(b, t, LeadingFilters(stages)) && BoundComponents(t, d.components) == Some(comps)
    && FiledKey(t, d, x).Some? && FiledKey(t, d, y).Some?
    && TypedRow(t, d.components, comps, xs, x) && TypedRow(t, d.components, comps, ys, y)
    && EncodeComponents(t.catalog, comps, xs) == FiledKey(t, d, x)
    && EncodeComponents(t.catalog, comps, ys) == FiledKey(t, d, y)
    && Passes(b, LeadingFilters(stages), RowResolver(x)) == Some(true)
    && Passes(b, LeadingFilters(stages), RowResolver(y)) == Some(true)
  }

  /** On every component the equality prefix or a stored value of the boundary row. */
  lemma {:induction false} StoredBoundary(
    t: TableSchema, cs: seq<IndexComponent>, comps: seq<Component>, equality: seq<Value>, keys: seq<SortKey>,
    boundary: seq<Value>, y: Fields, y': Fields, ys: seq<Value>, i: nat)
    requires TypedRow(t, cs, comps, ys, y) && DistinctComponents(cs) && |equality| <= |cs| && |boundary| == |keys|
    requires CursorOf(y', keys, boundary) && i <= Bounded(cs, |equality|, keys, 0)
    requires forall j :: |equality| <= j < Bounded(cs, |equality|, keys, 0) ==>
               RowField(y', cs[j].column) == RowField(y, cs[j].column)
    ensures var n := Bounded(cs, |equality|, keys, 0);
            && |equality| <= n
            && BoundaryValues(cs, equality, keys, boundary, i) == (equality + ys[|equality|..n])[i..]
    decreases |cs| - i
  {
    hide RowField, FieldType, Encodes, DistinctComponents, FixedValue, OrderValue, Bounded;
    var m, n := |equality|, Bounded(cs, |equality|, keys, 0);
    PrefixBounded(cs, m, keys, 0);
    var all := equality + ys[m..n];
    if i < n {
      FixedValueAt(cs, equality, i);
      if i >= m {
        OrderValueOf(keys, boundary, y', cs[i].column);
        assert NamedBy(keys, cs[i].column);
      }
      StoredBoundary(t, cs, comps, equality, keys, boundary, y, y', ys, i + 1);
      assert all[i..] == [all[i]] + all[i+1..];
    } else if i < |cs| {
      FixedValueAt(cs, equality, i);
      OrderValueNamed(keys, boundary, cs[i].column);
      BoundedEnds(cs, m, keys, 0);
    }
  }

  lemma {:induction false} BoundedEnds(cs: seq<IndexComponent>, m: nat, keys: seq<SortKey>, i: nat)
    requires i <= |cs|
    ensures var n := Bounded(cs, m, keys, i); n < |cs| ==> n >= m && !NamedBy(keys, cs[n].column)
    decreases |cs| - i
  {
    hide NamedBy;
    if i < |cs| && (i < m || NamedBy(keys, cs[i].column)) { BoundedEnds(cs, m, keys, i + 1); }
  }

  /** A row of the planned range that the components place beyond the boundary is read. */
  lemma {:induction false} BeyondBoundary(
    t: TableSchema, comps: seq<Component>, a: Access, xs: seq<Value>, ys: seq<Value>, n: nat,
    direction: Paging.Direction, reverse: bool)
    requires a.Access? && |comps| == |xs| == |ys| && Used(a) <= |comps| && |a.equality| <= n <= |comps|
    requires AccessEncodes(t.catalog, comps, a)
    requires EncodeComponents(t.catalog, comps, xs).Some? && EncodeComponents(t.catalog, comps, ys).Some?
    requires AccessHolds(t.catalog, comps, xs, a) && AccessHolds(t.catalog, comps, ys, a)
    requires var asked := Some(if direction == Paging.Forward then Greater else Less);
             CompareComponents(t.catalog, comps[..n], xs[..n], ys[..n]) == Turned(asked, reverse)
    ensures var seek := EncodeComponents(t.catalog, comps[..n], a.equality + ys[|a.equality|..n]);
            && seek.Some?
            && SeekKeeps(t.catalog, comps, a, seek.value, Greaterwards(direction, reverse),
                         EncodeComponents(t.catalog, comps, xs).value)
  {
    hide Encodes, CompareComponents, EncodeComponents, Compare, PlanBounds, Contains, PageSeekBounds;
    var m := |a.equality|;
    var bound := a.equality + ys[m..n];
    AccessSamePrefix(t.catalog, comps, xs, ys, a);
    BoundEncodes(t.catalog, comps, a, ys, n);
    BoundarySides(t.catalog, comps, xs, bound);
    ComponentsThen(t.catalog, comps[..n], xs[..n], bound, m);
    ComponentsThen(t.catalog, comps[..n], xs[..n], ys[..n], m);
    assert comps[..n][..m] == comps[..m] && xs[..n][..m] == xs[..m];
    assert bound[..m] == a.equality && ys[..n][..m] == ys[..m];
    assert bound[m..] == ys[..n][m..];
    BoundsExact(t.catalog, comps, xs, a);
    var scan, k := PlanBounds(t.catalog, comps, a), EncodeComponents(t.catalog, comps, xs).value;
    PageSeekExact(scan.bounds.start, scan.bounds.end, EncodeComponents(t.catalog, comps[..n], bound).value,
                  Greaterwards(direction, reverse), k);
  }
  /** No row lies beyond its own cursor. */
  lemma {:induction false} NotBeyondItself(
    catalog: Catalog, order: seq<Paging.OrderKey>, x: Fields, direction: Paging.Direction)
    requires Placed(catalog, order, x)
    ensures !OnAskedSide(direction, Paging.CompareBoundary(catalog, order, x, Paging.Cursor(order, x).value))
  {
    hide Paging.Cursor, Paging.CompareBoundary, EncodeComponents, Comps;
    BothWays(catalog, order, x, x);
  }

  /** Both rows show their stored values wherever the stages keep them. */
  lemma {:induction false} ShownStored(
    t: TableSchema, cs: seq<IndexComponent>, comps: seq<Component>, xs: seq<Value>, x: Fields, before: seq<Stage>,
    derive: (nat, Fields) -> Value, c: nat)
    requires TypedRow(t, cs, comps, xs, x) && PlainNames(x) && c < |cs| && Survives(before, cs[c].column)
    ensures RowField(Transform(before, 0, derive, x), cs[c].column) == RowField(x, cs[c].column) == Some(xs[c])
  {
    hide RowField, Transform, FieldType, Encodes, NeverDerives, KeepsKey, PlainNames;
    KeptField(before, derive, x, cs[c].column);
  }

  /** The first `n` keys place the asked row on the asked side, as stored. */
  lemma {:induction false} FrontAsked(
    b: Builtins, t: TableSchema, ds: seq<IndexDefinition>, d: IndexDefinition, stages: seq<Stage>, m: nat,
    reverse: bool, position: nat, n: nat, rm: RowMap, derive: (nat, Fields) -> Value, order: seq<Paging.OrderKey>,
    boundary: seq<Value>, direction: Paging.Direction, i: RowId, j: RowId, comps: seq<Component>, xs: seq<Value>,
    ys: seq<Value>)
    requires Sound(t, ds, rm) && position < |stages| && stages[position].Sort? && i != j
    requires Asked(b, t, rm, stages, position, derive, order, boundary, direction, i, j)
    requires PassingPair(b, t, d, stages, comps, xs, ys, rm[i], rm[j]) && DistinctComponents(d.components)
    requires m <= |d.components| && n <= |stages[position].keys| && Seeks(d.components, m, stages[position].keys)
    requires SafeFront(b, t, ds, d.components, m, reverse, stages, position, n)
    ensures CompareRows(t, stages[position].keys[..n], rm[i], rm[j]) ==
            Some(if direction == Paging.Forward then Greater else Less)
  {
    hide BoundFilters, LeadingFilters, Passes, FiledKey, Transform, Paging.Cursor, Paging.CompareBoundary,
      CompareRows, FieldType, RowField, DistinctComponents, LeadingConstraints, Survives, PlainNames,
      BoundComponents, Encodes, EncodeComponents, KeyDecides, Runs, Open, AllFileable, NoDuplicates, RowResolver,
      Placed, Seeks;
    var cs, keys, before := d.components, stages[position].keys, stages[..position];
    var x, y := rm[i], rm[j];
    var x', y' := Transform(before, 0, derive, x), Transform(before, 0, derive, y);
    assert |order| == |keys|;
    assert Paging.Cursor(order, y').Some? && Paging.Cursor(order, y') == Some(boundary);
    CursorFields(order, y');
    forall e | 0 <= e < n
      ensures FieldType(t.catalog, t.columns, keys[e].column) == Some(order[e].ty)
      ensures RowField(x', keys[e].column) == RowField(x, keys[e].column)
      ensures RowField(y, keys[e].column) == Some(boundary[e])
    {
      assert keys[..n][e] == keys[e] && keys[e] in keys[..n] && keys[e] in keys;
      var c := SoughtKey(cs, m, keys, keys[e]);
      ShownStored(t, cs, comps, xs, x, before, derive, c);
      ShownStored(t, cs, comps, ys, y, before, derive, c);
      assert NeverDerives(before, keys[e].column) && KeepsKey(before, keys[e].column) by {
        SurvivesBoth(before, keys[e].column);
      }
    }
    StoredFront(t, keys, order, x, x', y, boundary, n);
    NoMoreKeys(t.catalog, x', boundary[n..]);
    assert n == |keys| ==> order[n..] == [];
    if CompareRows(t, keys[..n], x, y) == Some(Equal) {
      TiedSame(b, t, ds, rm, stages, keys[..n], i, j);
      assert false;
    }
  }

  lemma SurvivesBoth(before: seq<Stage>, column: string)
    requires Survives(before, column)
    ensures NeverDerives(before, column) && KeepsKey(before, column)
  {}

  lemma NoMoreKeys(catalog: Catalog, x: Fields, boundary: seq<Value>)
    ensures Paging.CompareBoundary(catalog, [], x, boundary) == Some(Equal)
  {}

  /** So do the bounded components. */
  lemma {:induction false} ComponentsAsked(
    b: Builtins, t: TableSchema, d: IndexDefinition, stages: seq<Stage>, m: nat, reverse: bool, keys: seq<SortKey>,
    n: nat, o: Ordering, x: Fields, y: Fields, comps: seq<Component>, xs: seq<Value>, ys: seq<Value>)
    requires PassingPair(b, t, d, stages, comps, xs, ys, x, y) && DistinctComponents(d.components)
    requires m <= |d.components| && n <= |keys| && Seeks(d.components, m, keys) && o != Equal
    requires var constraints := LeadingConstraints(stages, false);
             Runs(d.components[..Bounded(d.components, m, keys, 0)], Open(keys[..n], constraints), constraints, reverse)
    requires CompareRows(t, keys[..n], x, y) == Some(o)
    ensures var q := Bounded(d.components, m, keys, 0);
            q <= |comps| && CompareComponents(t.catalog, comps[..q], xs[..q], ys[..q]) == Turned(Some(o), reverse)
  {
    hide BoundFilters, LeadingFilters, Passes, FiledKey, CompareRows, FieldType, RowField, DistinctComponents,
      LeadingConstraints, BoundComponents, Encodes, EncodeComponents, Runs, Open, RowResolver, Seeks, CompareTyped,
      CompareComponents, FixedBy, Bounded;
    var cs, constraints, q := d.components, LeadingConstraints(stages, false), Bounded(d.components, m, keys, 0);
    forall c | 0 <= c < |cs| && FixedBy(constraints, cs[c].column)
      ensures CompareTyped(t.catalog, comps[c].ty, xs[c], ys[c], 0) == Some(Equal)
    {
      FixedComponent(b, t, d, stages, comps, xs, ys, x, y, c);
    }
    forall k <- keys[..n] | FixedBy(constraints, k.column) ensures CompareKey(t, k, x, y) == Some(Equal) {
      assert k in keys;
      var c := SoughtKey(cs, m, keys, k);
      assert CompareTyped(t.catalog, comps[c].ty, xs[c], ys[c], 0) == Some(Equal);
    }
    OpenOrder(t, keys[..n], x, y, constraints);
    FrontTyped(t, cs, comps, xs, x, q);
    FrontTyped(t, cs, comps, ys, y, q);
    RunsOrder(t, cs[..q], comps[..q], xs[..q], ys[..q], x, y, Open(keys[..n], constraints), constraints, reverse);
  }

  lemma FrontTyped(t: TableSchema, cs: seq<IndexComponent>, comps: seq<Component>, xs: seq<Value>, x: Fields, n: nat)
    requires TypedRow(t, cs, comps, xs, x) && n <= |cs|
    ensures TypedRow(t, cs[..n], comps[..n], xs[..n], x)
  {
    hide FieldType, RowField, Encodes;
  }

  /** Where the visible keys are stored, the boundary is made of the equality prefix and the
      boundary row's own components. */
  lemma {:induction false} SafeBoundary(
    t: TableSchema, d: IndexDefinition, stages: seq<Stage>, position: nat, derive: (nat, Fields) -> Value,
    order: seq<Paging.OrderKey>, boundary: seq<Value>, equality: seq<Value>, y: Fields, comps: seq<Component>,
    ys: seq<Value>)
    requires position < |stages| && stages[position].Sort? && DistinctComponents(d.components) && PlainNames(y)
    requires TypedRow(t, d.components, comps, ys, y) && |equality| <= |d.components|
    requires Seeks(d.components, |equality|, stages[position].keys)
    requires AllKept(stages[..position], Visible(stages[position].keys, FixedColumns(d.components, |equality|)))
    requires OrderOf(t, stages[..position], stages[position].keys, order)
    requires Paging.Cursor(order, Transform(stages[..position], 0, derive, y)) == Some(boundary)
    ensures var keys := stages[position].keys;
            var n := Bounded(d.components, |equality|, keys, 0);
            && |equality| <= n <= |d.components| && |boundary| == |keys|
            && BoundaryValues(d.components, equality, keys, boundary, 0) == equality + ys[|equality|..n]
  {
    hide Transform, Paging.Cursor, FieldType, RowField, DistinctComponents, Survives, PlainNames, Encodes, Visible,
      Seeks, Bounded, BoundaryValues;
    var cs, keys, before, m := d.components, stages[position].keys, stages[..position], |equality|;
    var y', n := Transform(before, 0, derive, y), Bounded(cs, m, keys, 0);
    assert |order| == |keys|;
    CursorFields(order, y');
    assert CursorOf(y', keys, boundary);
    VisibleMembers(keys, FixedColumns(cs, m));
    forall c | m <= c < n ensures RowField(y', cs[c].column) == RowField(y, cs[c].column) {
      assert NamedBy(keys, cs[c].column);
      var k :| k in keys && k.column == cs[c].column;
      OpenColumn(cs, m, c);
      assert k in Visible(keys, FixedColumns(cs, m));
      ShownStored(t, cs, comps, ys, y, before, derive, c);
    }
    StoredBoundary(t, cs, comps, equality, keys, boundary, y, y', ys, 0);
    var all := equality + ys[m..n];
    assert all[0..] == all;
  }

  /** With a safe front, the row beyond the cursor is read. */
  lemma {:induction false} FrontSeek(
    b: Builtins, t: TableSchema, ds: seq<IndexDefinition>, d: IndexDefinition, stages: seq<Stage>, reverse: bool,
    position: nat, n: nat, rm: RowMap, derive: (nat, Fields) -> Value, order: seq<Paging.OrderKey>,
    boundary: seq<Value>, direction: Paging.Direction, i: RowId, j: RowId)
    requires Sound(t, ds, rm) && d in ds && DistinctComponents(d.components) && i != j
    requires BoundFilters(b, t, LeadingFilters(stages)) && position < |stages| && stages[position].Sort?
    requires Asked(b, t, rm, stages, position, derive, order, boundary, direction, i, j)
    requires FiledKey(t, d, rm[i]).Some? && FiledKey(t, d, rm[j]).Some? && n <= |stages[position].keys|
    requires var a := MatchComponents(t, d.components, LeadingConstraints(stages, false));
             && a.Access? && |a.equality| <= |d.components| && Seeks(d.components, |a.equality|, stages[position].keys)
             && AllKept(stages[..position], Visible(stages[position].keys, FixedColumns(d.components, |a.equality|)))
             && SafeFront(b, t, ds, d.components, |a.equality|, reverse, stages, position, n)
    ensures Read(t, d, stages, stages[position].keys, boundary, direction, reverse, rm[i])
  {
    hide BoundFilters, LeadingFilters, Passes, FiledKey, Transform, Paging.Cursor, Paging.CompareBoundary,
      CompareRows, FieldType, RowField, DistinctComponents, LeadingConstraints, PlainNames, BoundComponents,
      Encodes, EncodeComponents, KeyDecides, Runs, Open, AllFileable, NoDuplicates, RowResolver, Placed,
      MatchComponents, Visible, AllKept, AccessEncodes, UsedHold, LiteralsEncode, BoundaryValues, Bounded,
      CompareComponents, OrderOf, PlanBounds, SeekScan, AccessHolds, Selects, SafeFront;
    var x, y, cs, keys := rm[i], rm[j], d.components, stages[position].keys;
    var constraints := LeadingConstraints(stages, false);
    var a := MatchComponents(t, cs, constraints);
    var comps, xs := FiledTyped(t, d, x);
    var comps', ys := FiledTyped(t, d, y);
    LeadingAreSimple(stages, false);
    LeadingLiteralsEncode(b, t, cs, stages);
    AccessExact(t, cs, comps, xs, constraints, x);
    AccessExact(t, cs, comps, ys, constraints, y);
    PassingHolds(b, t, d, stages, x, Used(a));
    PassingHolds(b, t, d, stages, y, Used(a));
    var o, q := if direction == Paging.Forward then Greater else Less, Bounded(cs, |a.equality|, keys, 0);
    FrontAsked(b, t, ds, d, stages, |a.equality|, reverse, position, n, rm, derive, order, boundary, direction, i, j,
               comps, xs, ys);
    assert Runs(cs[..q], Open(keys[..n], constraints), constraints, reverse) by {
      FrontRuns(b, t, ds, cs, |a.equality|, reverse, stages, position, n);
    }
    ComponentsAsked(b, t, d, stages, |a.equality|, reverse, keys, n, o, x, y, comps, xs, ys);
    SafeBoundary(t, d, stages, position, derive, order, boundary, a.equality, y, comps, ys);
    BeyondBoundary(t, comps, a, xs, ys, q, direction, reverse);
    HoldsPossible(t.catalog, comps, xs, a);
  }

  lemma FrontRuns(
    b: Builtins, t: TableSchema, ds: seq<IndexDefinition>, cs: seq<IndexComponent>, m: nat, reverse: bool,
    stages: seq<Stage>, position: nat, n: nat)
    requires m <= |cs| && position < |stages| && stages[position].Sort? && n <= |stages[position].keys|
    requires SafeFront(b, t, ds, cs, m, reverse, stages, position, n)
    ensures var keys, constraints := stages[position].keys, LeadingConstraints(stages, false);
            Runs(cs[..Bounded(cs, m, keys, 0)], Open(keys[..n], constraints), constraints, reverse)
  {
    hide Runs, Open, Bounded, KeyDecides, AllKept, LeadingConstraints;
  }

  lemma HoldsPossible(catalog: Catalog, comps: seq<Component>, xs: seq<Value>, a: Access)
    requires a.Access? && |comps| == |xs| && Used(a) <= |comps| && AccessHolds(catalog, comps, xs, a)
    ensures !a.impossible
  {
    hide CompareComponents;
  }

  /** The condition suffices, on every schema, index and query: a row of the page is read. */
  lemma {:induction false} SafeSeek(
    b: Builtins, t: TableSchema, ds: seq<IndexDefinition>, d: IndexDefinition, stages: seq<Stage>, sm: SortMatch,
    position: nat, rm: RowMap, derive: (nat, Fields) -> Value, order: seq<Paging.OrderKey>, boundary: seq<Value>,
    direction: Paging.Direction, i: RowId, j: RowId)
    requires Satisfies(t, d, stages, sm) && d in ds && DistinctComponents(d.components)
    requires BoundFilters(b, t, LeadingFilters(stages)) && Proven(b, d, LeadingFilters(stages))
    requires position < |stages| && stages[position].Sort?
    requires var m := |MatchComponents(t, d.components, LeadingConstraints(stages, false)).equality|;
             SeekSafe(b, t, ds, d.components, m, sm.reverse, stages, position)
    requires Sound(t, ds, rm) && Asked(b, t, rm, stages, position, derive, order, boundary, direction, i, j)
    ensures Read(t, d, stages, stages[position].keys, boundary, direction, sm.reverse, rm[i])
  {
    hide BoundFilters, LeadingFilters, Passes, FiledKey, Transform, Paging.Cursor, Paging.CompareBoundary,
      DistinctComponents, Visible, MatchComponents, LeadingConstraints, PlainNames, BoundComponents, PageScan,
      Selects, Placed, OrderOf, AllKept, Proven, Seeks, KeyDecides, IndexSortMatch, PlanScan, Unfileable, SafeFront;
    var a := MatchComponents(t, d.components, LeadingConstraints(stages, false));
    var keys := stages[position].keys;
    PassingSelected(b, t, d, stages, rm[i]);
    PassingSelected(b, t, d, stages, rm[j]);
    if i == j {
      NotBeyondItself(t.catalog, order, Transform(stages[..position], 0, derive, rm[i]), direction);
    } else if !Seeks(d.components, |a.equality|, keys) {
      PlannedAccess(b, t, d, stages, rm[i]);
      PlacedLength(t.catalog, order, Transform(stages[..position], 0, derive, rm[j]));
      OrderLength(t, stages[..position], keys, order);
      var comps, xs := FiledTyped(t, d, rm[i]);
      Unsought(t, d, stages, comps, keys, boundary, Greaterwards(direction, sm.reverse));
    } else if KeyDecides(b, t, ds, stages, []) {
      TiedSame(b, t, ds, rm, stages, [], i, j);
    } else {
      var n :| 0 <= n <= |keys| &&
        SafeFront(b, t, ds, d.components, |a.equality|, sm.reverse, stages, position, n);
      FrontSeek(b, t, ds, d, stages, sm.reverse, position, n, rm, derive, order, boundary, direction, i, j);
    }
  }

  lemma PlacedLength(catalog: Catalog, order: seq<Paging.OrderKey>, row: Fields)
    requires Placed(catalog, order, row)
    ensures Paging.Cursor(order, row).Some? && |Paging.Cursor(order, row).value| == |order|
  {
    hide Paging.Cursor, EncodeComponents;
  }

  lemma OrderLength(t: TableSchema, before: seq<Stage>, keys: seq<SortKey>, order: seq<Paging.OrderKey>)
    requires OrderOf(t, before, keys, order)
    ensures |order| == |keys|
  {}

  lemma PlannedAccess(b: Builtins, t: TableSchema, d: IndexDefinition, stages: seq<Stage>, fields: Fields)
    requires FiledKey(t, d, fields).Some? && BoundFilters(b, t, LeadingFilters(stages))
    ensures var a, comps := MatchComponents(t, d.components, LeadingConstraints(stages, false)),
            BoundComponents(t, d.components);
            comps.Some? && a.Access? && Used(a) <= |d.components| && AccessEncodes(t.catalog, comps.value, a)
  {
    hide FiledKey, BoundFilters, LeadingFilters, LeadingConstraints, MatchComponents, LiteralsEncode,
      BoundComponents, AccessEncodes, EncodeComponents, AccessHolds, UsedHold;
    var comps, vs := FiledTyped(t, d, fields);
    LeadingAreSimple(stages, false);
    LeadingLiteralsEncode(b, t, d.components, stages);
    AccessExact(t, d.components, comps, vs, LeadingConstraints(stages, false), fields);
  }

  // ---- The page's own sort ----------------------------------------------------------------------

  predicate LeavesRows(s: Stage) {
    !s.Derive? && !s.Select?
  }

  lemma {:induction false} LetsLeave(stages: seq<Stage>)
    ensures forall i :: 0 <= i < LetsEnd(stages) ==> LeavesRows(stages[i])
  {
    if stages != [] && stages[0].Let? {
      LetsLeave(stages[1..]);
      forall i | 0 <= i < LetsEnd(stages) ensures LeavesRows(stages[i]) {
        if i > 0 { assert stages[i] == stages[1..][i-1]; }
      }
    }
  }

  lemma {:induction false} FiltersLeave(stages: seq<Stage>, i: nat)
    requires i <= |stages| && FiltersEnd(stages, i).Some?
    ensures forall j :: i <= j < FiltersEnd(stages, i).value ==> LeavesRows(stages[j])
    decreases |stages| - i
  {
    if i < |stages| && stages[i].Filter? { FiltersLeave(stages, i + 1); }
  }

  lemma {:induction false} FollowNothing(stages: seq<Stage>, i: nat, key: string, track: Track)
    requires i <= |stages| && forall j :: i <= j < |stages| ==> LeavesRows(stages[j])
    ensures Follow(stages, i, key, track) == track
    decreases |stages| - i
  {
    if i < |stages| { FollowNothing(stages, i + 1, key, track); }
  }

  /** The components of the equality prefix are fixed by filters. */
  lemma {:induction false} EqualityFixed(t: TableSchema, cs: seq<IndexComponent>, constraints: seq<Constraint>, i: nat)
    requires var a := MatchComponents(t, cs, constraints); a.Access? && i < |a.equality| && i < |cs|
    ensures FixedBy(constraints, cs[i].column)
  {
    hide FieldType, MeetsAll, Merge, RangeIsEmpty, Own, FirstEqual, FixedBy;
    if i == 0 {
      OwnEqual(constraints, cs[0].column);
    } else {
      EqualityFixed(t, cs[1..], constraints, i - 1);
    }
  }

  lemma OwnEqual(constraints: seq<Constraint>, column: string)
    requires FirstEqual(Own(constraints, column)).Some?
    ensures FixedBy(constraints, column)
  {
    var own := Own(constraints, column);
    var c :| c in own && c.op == Eq && c.value == FirstEqual(own).value;
    assert c in constraints;
  }

  /** Keys that name components one by one run along them, with fixed ones left out. */
  lemma {:induction false} AlongRuns(
    cs: seq<IndexComponent>, keys: seq<SortKey>, constraints: seq<Constraint>, reverse: bool)
    requires |keys| <= |cs| && SameColumns(keys, cs) && SameDirections(keys, cs, reverse)
    ensures Runs(cs, Open(keys, constraints), constraints, reverse)
  {
    hide FixedBy;
    if keys != [] {
      assert keys[0].column == cs[0].column;
      AlongRuns(cs[1..], keys[1..], constraints, reverse);
      var open := Open(keys, constraints);
      if FixedBy(constraints, cs[0].column) {
        assert open == Open(keys[1..], constraints);
      } else {
        assert open[0] == keys[0] && open[1..] == Open(keys[1..], constraints);
      }
    }
  }

  /** Leading fixed components are passed over. */
  lemma {:induction false} RunsBehind(
    cs: seq<IndexComponent>, m: nat, keys: seq<SortKey>, constraints: seq<Constraint>, reverse: bool)
    requires m <= |cs| && Runs(cs[m..], keys, constraints, reverse)
    requires forall i :: 0 <= i < m ==> FixedBy(constraints, cs[i].column)
    ensures Runs(cs, keys, constraints, reverse)
  {
    hide FixedBy;
    if m == 0 {
      assert cs[0..] == cs;
    } else {
      assert cs[1..][m-1..] == cs[m..];
      assert forall i :: 0 <= i < m - 1 ==> cs[1..][i] == cs[i+1];
      RunsBehind(cs[1..], m - 1, keys, constraints, reverse);
    }
  }

  /** Keys the planner leaves out are on fixed columns anyway. */
  lemma {:induction false} OpenVisibleKeys(keys: seq<SortKey>, fixed: set<string>, constraints: seq<Constraint>)
    requires forall column <- fixed :: FixedBy(constraints, column)
    ensures Open(Visible(keys, fixed), constraints) == Open(keys, constraints)
  {
    hide FixedBy;
    if keys != [] {
      OpenVisibleKeys(keys[1..], fixed, constraints);
      var visible := Visible(keys, fixed);
      if keys[0].column in fixed {
        assert visible == Visible(keys[1..], fixed);
        assert Open(keys, constraints) == Open(keys[1..], constraints);
      } else {
        assert visible[0] == keys[0] && visible[1..] == Visible(keys[1..], fixed);
      }
    }
  }

  /** An order along the index reaches no further than it is bounded. */
  lemma {:induction false} AlongBounded(cs: seq<IndexComponent>, keys: seq<SortKey>, m: nat, i: nat)
    requires m <= |cs| && Along(keys, cs, m) && i <= Reach(keys, cs, m)
    ensures Bounded(cs, m, keys, i) >= Reach(keys, cs, m)
    decreases |cs| - i
  {
    hide Visible;
    if i < Reach(keys, cs, m) {
      if i >= m {
        var visible := Visible(keys, FixedColumns(cs, m));
        VisibleMembers(keys, FixedColumns(cs, m));
        assert visible[i-m].column == cs[m..][i-m].column && visible[i-m] in visible;
      }
      AlongBounded(cs, keys, m, i + 1);
    }
  }

  /** A page whose own sort is the matched one is always safe to seek. */
  lemma {:induction false} OwnSortSafe(
    b: Builtins, t: TableSchema, ds: seq<IndexDefinition>, d: IndexDefinition, stages: seq<Stage>, sm: SortMatch)
    requires Satisfies(t, d, stages, sm)
    ensures SeekSafe(b, t, ds, d.components,
                     |MatchComponents(t, d.components, LeadingConstraints(stages, false)).equality|, sm.reverse, stages,
                     sm.position)
  {
    hide MatchComponents, LeadingConstraints, Visible, Bounded, Along, SameDirections, FixedBy, KeyDecides, Runs,
      Open, LetsEnd, FiltersEnd, Seeks;
    var cs, keys, constraints := d.components, stages[sm.position].keys, LeadingConstraints(stages, false);
    var m := |MatchComponents(t, cs, constraints).equality|;
    MatchedRunsAlong(t, d, stages, sm);
    MatchedBehind(stages, cs, m, sm);
    hide Satisfies, RunsAlong, IndexSortMatch;
    var before := stages[..sm.position];
    forall column ensures Survives(before, column) {
      FollowNothing(before, 0, column, Start(column));
      forall s <- before ensures !s.Derive? {
        var i :| 0 <= i < |before| && before[i] == s;
        assert LeavesRows(stages[i]);
      }
    }
    hide Survives;
    OwnRuns(t, cs, keys, constraints, sm.reverse);
    assert keys[..|keys|] == keys;
    assert SafeFront(b, t, ds, cs, m, sm.reverse, stages, sm.position, |keys|);
  }

  lemma {:induction false} OwnRuns(
    t: TableSchema, cs: seq<IndexComponent>, keys: seq<SortKey>, constraints: seq<Constraint>, reverse: bool)
    requires var a := MatchComponents(t, cs, constraints);
             && a.Access? && |a.equality| <= |cs| && Along(keys, cs, |a.equality|)
             && SameDirections(Visible(keys, FixedColumns(cs, |a.equality|)), cs[|a.equality|..], reverse)
    ensures var m := |MatchComponents(t, cs, constraints).equality|;
            Runs(cs[..Bounded(cs, m, keys, 0)], Open(keys, constraints), constraints, reverse)
  {
    hide MatchComponents, Visible, Bounded, FixedBy, Runs, Open;
    var m := |MatchComponents(t, cs, constraints).equality|;
    forall i | 0 <= i < m ensures FixedBy(constraints, cs[i].column) { EqualityFixed(t, cs, constraints, i); }
    AlongBounded(cs, keys, m, 0);
    var q, visible := Bounded(cs, m, keys, 0), Visible(keys, FixedColumns(cs, m));
    assert cs[..q][m..] == cs[m..q];
    assert forall i :: 0 <= i < |visible| ==> cs[m..q][i] == cs[m..][i];
    AlongRuns(cs[m..q], visible, constraints, reverse);
    RunsBehind(cs[..q], m, Open(visible, constraints), constraints, reverse);
    OpenVisibleKeys(keys, FixedColumns(cs, m), constraints);
  }

  lemma MatchedBehind(stages: seq<Stage>, cs: seq<IndexComponent>, m: nat, sm: SortMatch)
    requires m <= |cs| && IndexSortMatch(stages, cs, m) == Some(sm)
    ensures sm.position <= |stages| && forall i :: 0 <= i < sm.position ==> LeavesRows(stages[i])
  {
    hide Visible, LetsEnd, FiltersEnd;
    LetsLeave(stages);
    FiltersLeave(stages, LetsEnd(stages));
  }
}
