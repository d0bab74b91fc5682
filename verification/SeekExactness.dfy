/** The condition for seeking a page is necessary too: for every paged query over integer
    columns that violates it there is a table and a cursor on which the scan misses a row. */
module SeekExactness {
  import opened Bytes
  import opened Scalars
  import opened Model
  import opened OrderedKey
  import opened KeyBounds
  import opened Schema
  import opened TableStore
  import opened Tables
  import opened Expressions
  import opened Planner
  import opened IndexPredicates
  import opened IndexAccess
  import opened OrderedScan
  import opened PageOrders
  import opened PageSeek
  import opened SeekConditions
  import opened IntTables
  import Paging

  // ---- Where a plain column comes from ----------------------------------------------------------

  /** What the stages leave of a column: dropped, the stored value, or a derived one. */
  function ViewOf(stages: seq<Stage>, i: nat, column: string, view: View): View
    requires i <= |stages|
    decreases |stages| - i
  {
    if i == |stages| then view
    else match stages[i]
      case Derive(name) => ViewOf(stages, i + 1, column, if name == column then Derived else view)
      case Select(columns) => ViewOf(stages, i + 1, column, if column in columns then view else View.Absent)
      case _ => ViewOf(stages, i + 1, column, view)
  }

  function Initially(columns: seq<IndexComponent>, column: string): View {
    if column in ColumnNames(columns) then Stored else View.Absent
  }

  function FinalView(columns: seq<IndexComponent>, before: seq<Stage>, column: string): View {
    ViewOf(before, 0, column, Initially(columns, column))
  }

  /** A column that ends as stored was stored all along, and no stage derived it. */
  lemma {:induction false} StoredThroughout(stages: seq<Stage>, i: nat, column: string, view: View)
    requires i <= |stages| && '.' !in column && ViewOf(stages, i, column, view) == Stored
    ensures view == Stored && Follow(stages, i, column, Track(Stored, View.Absent)).Resolved() == Stored
    ensures forall j :: i <= j < |stages| && stages[j].Derive? ==> stages[j].name != column
    decreases |stages| - i
  {
    NameNotKey(column, column);
    if i < |stages| {
      match stages[i]
      case Derive(name) => StoredThroughout(stages, i + 1, column, if name == column then Derived else view);
      case Select(columns) => StoredThroughout(stages, i + 1, column, if column in columns then view else View.Absent);
      case _ => StoredThroughout(stages, i + 1, column, view);
    }
  }

  lemma StoredIsKept(columns: seq<IndexComponent>, before: seq<Stage>, column: string)
    requires '.' !in column && FinalView(columns, before, column) == Stored
    ensures column in ColumnNames(columns) && Survives(before, column)
  {
    hide Follow, ViewOf;
    StoredThroughout(before, 0, column, Initially(columns, column));
  }

  lemma {:induction false} KeptIsStored(stages: seq<Stage>, i: nat, column: string, view: View)
    requires i <= |stages| && view != Derived && ViewOf(stages, i, column, view) != View.Absent
    requires forall j :: i <= j < |stages| && stages[j].Derive? ==> stages[j].name != column
    ensures ViewOf(stages, i, column, view) == Stored
    decreases |stages| - i
  {
    if i < |stages| {
      match stages[i]
      case Derive(name) => KeptIsStored(stages, i + 1, column, view);
      case Select(columns) => KeptIsStored(stages, i + 1, column, if column in columns then view else View.Absent);
      case _ => KeptIsStored(stages, i + 1, column, view);
    }
  }

  // ---- Rows that reach the sort -----------------------------------------------------------------

  /** A derivation that looks at the primary key: `zero` for key zero, else `other`. */
  function ByKey(key: string, zero: Value, other: Value): (nat, Fields) -> Value {
    (n, fields) => if RowField(fields, key) == Some(Int(0)) then zero else other
  }

  ghost predicate Carries(fields: Fields, column: string, view: View, stored: I64, derived: Value) {
    match view
    case Absent => column !in fields
    case Stored => column in fields && fields[column] == Int(stored)
    case Derived => column in fields && fields[column] == derived
  }

  lemma PlainField(fields: Fields, column: string)
    requires '.' !in column
    ensures RowField(fields, column) == if column in fields then Some(fields[column]) else None
  {
    hide NestedField;
    NoSplit(column);
  }

  /** Stage by stage, a plain column holds what its view says. */
  lemma {:induction false} Carried(
    stages: seq<Stage>, i: nat, key: string, zero: Value, other: Value, at: Contents, fields: Fields, column: string,
    view: View)
    requires i <= |stages| && '.' !in key && '.' !in column
    requires ViewOf(stages, i, key, Stored) == Stored && Carries(fields, key, Stored, at(key), zero)
    requires Carries(fields, column, view, at(column), if at(key) == 0 then zero else other)
    ensures Carries(Transform(stages, i, ByKey(key, zero, other), fields), column, ViewOf(stages, i, column, view),
                    at(column), if at(key) == 0 then zero else other)
    decreases |stages| - i
  {
    hide RowField, ByKey, Project;
    if i < |stages| {
      StoredThroughout(stages, i, key, Stored);
      match stages[i]
      case Derive(name) =>
        DeriveCarries(fields, key, zero, other, at, i, name, column, view);
        Carried(stages, i + 1, key, zero, other, at, fields[name := ByKey(key, zero, other)(i, fields)], column,
                if name == column then Derived else view);
      case Select(columns) =>
        StoredNext(stages, i, key);
        SelectCarries(fields, columns, key, at(key), zero, Stored);
        SelectCarries(fields, columns, column, at(column), if at(key) == 0 then zero else other, view);
        Carried(stages, i + 1, key, zero, other, at, Project(columns, fields), column,
                if column in columns then view else View.Absent);
      case _ => Carried(stages, i + 1, key, zero, other, at, fields, column, view);
    }
  }

  lemma DeriveCarries(
    fields: Fields, key: string, zero: Value, other: Value, at: Contents, i: nat, name: string, column: string,
    view: View)
    requires '.' !in key && name != key && Carries(fields, key, Stored, at(key), zero)
    requires Carries(fields, column, view, at(column), if at(key) == 0 then zero else other)
    ensures var next := fields[name := ByKey(key, zero, other)(i, fields)];
            && Carries(next, key, Stored, at(key), zero)
            && Carries(next, column, if name == column then Derived else view, at(column),
                       if at(key) == 0 then zero else other)
  {
    hide RowField;
    PlainField(fields, key);
  }

  lemma SelectCarries(fields: Fields, columns: seq<string>, column: string, stored: I64, derived: Value, view: View)
    requires '.' !in column && Carries(fields, column, view, stored, derived)
    ensures Carries(Project(columns, fields), column, if column in columns then view else View.Absent, stored, derived)
  {
    hide RowField;
    PlainField(fields, column);
  }

  lemma {:induction false} StoredNext(stages: seq<Stage>, i: nat, key: string)
    requires i < |stages| && stages[i].Select? && '.' !in key && ViewOf(stages, i, key, Stored) == Stored
    ensures key in stages[i].columns && ViewOf(stages, i + 1, key, Stored) == Stored
  {
    StoredThroughout(stages, i + 1, key, if key in stages[i].columns then Stored else View.Absent);
  }

  // ---- The queries ------------------------------------------------------------------------------

  /** A paged query on a table of integers with any indexes, one of which it reads: filters
      that fix columns to zero, a sort for the index, further stages, and the sort and size
      of the page. */
  datatype Paged = Paged(
    columns: seq<IndexComponent>, ds: seq<IndexDefinition>, d: IndexDefinition, fixed: seq<string>,
    first: seq<SortKey>, between: seq<Stage>, keys: seq<SortKey>, size: nat, key: string)
  {
    function Schema(): TableSchema {
      IntSchema(columns, Some(key))
    }

    function Behind(): seq<Stage> {
      [Sort(first)] + between + [Sort(keys), Page(size)]
    }

    function Stages(): seq<Stage> {
      ZeroFilters(fixed, Behind())
    }

    function SortAt(): nat {
      |fixed| + 1 + |between|
    }

    /** The stages in front of the page's sort. */
    function Before(): seq<Stage> {
      if SortAt() <= |Stages()| then Stages()[..SortAt()] else []
    }

    /** The leading components the filters fix. */
    function Prefix(): (m: nat)
      ensures m <= |d.components|
    {
      FixedCount(d.components, ZeroConstraints(fixed))
    }

    predicate IsStored(column: string) {
      FinalView(columns, Before(), column) == Stored
    }
  }

  /** What preparing the page demands: every sort key reaches the sort, and the last one is
      the primary key under its own name. */
  ghost predicate Prepared(q: Paged) {
    && q.keys != [] && q.keys[|q.keys|-1].column == q.key && NeverDerives(q.Before(), q.key)
    && forall k <- q.keys :: '.' !in k.column && FinalView(q.columns, q.Before(), k.column) != View.Absent
  }

  /** The stages between the two sorts drop no row. */
  ghost predicate KeepsRows(stages: seq<Stage>) {
    forall s <- stages :: s.Let? || s.Derive? || s.Select? || s.Sort?
  }

  /** A prepared paged query whose first sort the index satisfies. */
  ghost predicate Plain(q: Paged, reverse: bool) {
    && KeepsRows(q.between) && IntTable(q.columns, Some(q.key), q.ds) && q.d in q.ds
    && DistinctComponents(q.d.components) && OverColumns(q.columns, q.fixed) && Prepared(q)
    && IndexSortMatch(q.Stages(), q.d.components, q.Prefix()) == Some(SortMatch(|q.fixed|, reverse))
  }

  lemma StagesShape(q: Paged)
    ensures |q.Stages()| == |q.fixed| + |q.between| + 3 && q.Stages()[q.SortAt()] == Sort(q.keys)
    ensures q.Before() == q.Stages()[..q.SortAt()] && q.Stages()[|q.fixed|].Sort?
    ensures LeadingConstraints(q.Stages(), false) == ZeroConstraints(q.fixed)
    ensures LeadingFilters(q.Stages()) == ZeroConditions(q.fixed)
  {
    hide ZeroFilters, LeadingConstraints, LeadingFilters, ZeroConstraints, ZeroConditions;
    var stages := q.Stages();
    ZeroLeading(q.fixed, q.Behind());
    assert stages[q.SortAt()] == stages[|q.fixed|..][1 + |q.between|];
    assert stages[|q.fixed|] == stages[|q.fixed|..][0];
  }

  /** The access of the query, and that it is planned. */
  lemma {:induction false} MatchOf(q: Paged, reverse: bool)
    requires Plain(q, reverse)
    ensures BoundComponents(q.Schema(), q.d.components) == Some(IntComps(q.d.components))
    ensures MatchComponents(q.Schema(), q.d.components, LeadingConstraints(q.Stages(), false)) ==
            Access(Zeros(q.Prefix()), None, false)
    ensures Satisfies(q.Schema(), q.d, q.Stages(), SortMatch(|q.fixed|, reverse))
  {
    hide MatchComponents, LeadingConstraints, ZeroConstraints, ZeroFilters, IndexSortMatch, FieldType, IntColumns;
    StagesShape(q);
    IntFields(q.columns, q.d);
    ZeroMatch(q.Schema(), q.d.components, q.fixed);
    IntBound(q.Schema(), q.d.components);
  }

  lemma {:induction false} ZeroPlan(cs: seq<IndexComponent>, m: nat)
    requires m < |cs|
    ensures PlanBounds(map[], IntComps(cs), Access(Zeros(m), None, false)).Range?
  {
    hide EncodeComponents, IntComps, Zeros, PrefixBounds, IntValues;
    var front := cs[..m];
    IntLength(front, AllZero());
    assert IntComps(cs)[..m] == IntComps(front) && Zeros(m) == IntValues(front, AllZero());
  }

  /** The primary key is a stored column. */
  lemma {:induction false} KeyStored(q: Paged)
    requires Prepared(q)
    ensures q.key in ColumnNames(q.columns) && '.' !in q.key && ViewOf(q.Before(), 0, q.key, Stored) == Stored
  {
    hide ViewOf;
    var before := q.Before();
    assert q.keys[|q.keys|-1] in q.keys;
    assert forall j :: 0 <= j < |before| ==> before[j] in before;
    KeptIsStored(before, 0, q.key, Initially(q.columns, q.key));
    StoredIsKept(q.columns, before, q.key);
  }

  // ---- What the rows show the page order --------------------------------------------------------

  /** What a row shows for a sort key: its stored value, or the derived one. */
  function Shows(q: Paged, at: Contents, derived: Value, column: string): Value {
    if q.IsStored(column) then Int(at(column)) else derived
  }

  function ShownValues(q: Paged, keys: seq<SortKey>, at: Contents, derived: Value): (r: seq<Value>)
    ensures |r| == |keys| && forall i :: 0 <= i < |keys| ==> r[i] == Shows(q, at, derived, keys[i].column)
  {
    seq(|keys|, i requires 0 <= i < |keys| => Shows(q, at, derived, keys[i].column))
  }

  /** The page order, with one type for every derived key. */
  function OrderFor(q: Paged, keys: seq<SortKey>, ty: ScalarType): (r: seq<Paging.OrderKey>)
    ensures |r| == |keys|
    ensures forall i :: 0 <= i < |keys| ==>
              var k := keys[i];
              r[i] == Paging.OrderKey(k.column, k.descending, if q.IsStored(k.column) then TInt else ty)
  {
    seq(|keys|, i requires 0 <= i < |keys| =>
      Paging.OrderKey(keys[i].column, keys[i].descending, if q.IsStored(keys[i].column) then TInt else ty))
  }

  function AtSort(q: Paged, zero: Value, other: Value, at: Contents): Fields {
    Transform(q.Before(), 0, ByKey(q.key, zero, other), IntRow(q.columns, at))
  }

  /** On reaching the sort, a row shows its stored value or the derived one. */
  lemma {:induction false} RowShows(q: Paged, at: Contents, zero: Value, other: Value, k: SortKey)
    requires Prepared(q) && k in q.keys
    ensures RowField(AtSort(q, zero, other, at), k.column) ==
            Some(Shows(q, at, if at(q.key) == 0 then zero else other, k.column))
  {
    hide Transform, ViewOf, RowField;
    var before, row := q.Before(), IntRow(q.columns, at);
    KeyStored(q);
    Carried(before, 0, q.key, zero, other, at, row, k.column, Initially(q.columns, k.column));
    PlainField(Transform(before, 0, ByKey(q.key, zero, other), row), k.column);
  }

  /** A row with a value of the right type for every key has those values as its cursor. */
  lemma {:induction false} CursorIs(order: seq<Paging.OrderKey>, row: Fields, vals: seq<Value>)
    requires |vals| == |order| && forall i :: 0 <= i < |order| ==> RowField(row, order[i].column) == Some(vals[i])
    requires forall i :: 0 <= i < |order| ==> Encodes(map[], order[i].ty, vals[i])
    ensures Paging.Cursor(order, row) == Some(vals) && Placed(map[], order, row)
  {
    hide RowField, Encodes;
    CursorSome(order, row, vals);
    ComponentsEncode(map[], Comps(order), vals);
  }

  lemma {:induction false} CursorSome(order: seq<Paging.OrderKey>, row: Fields, vals: seq<Value>)
    requires |vals| == |order| && forall i :: 0 <= i < |order| ==> RowField(row, order[i].column) == Some(vals[i])
    ensures Paging.Cursor(order, row) == Some(vals)
  {
    hide RowField;
    if order != [] {
      assert forall i :: 0 <= i < |order| - 1 ==> order[1..][i] == order[i+1] && vals[1..][i] == vals[i+1];
      CursorSome(order[1..], row, vals[1..]);
      assert vals == [vals[0]] + vals[1..];
    }
  }

  /** The cursor a row shows when derived values have type `ty`. */
  lemma {:induction false} ShownCursor(q: Paged, at: Contents, zero: Value, other: Value, ty: ScalarType)
    requires Prepared(q) && Encodes(map[], ty, zero) && Encodes(map[], ty, other)
    ensures var row, order := AtSort(q, zero, other, at), OrderFor(q, q.keys, ty);
            && Placed(map[], order, row)
            && Paging.Cursor(order, row) == Some(ShownValues(q, q.keys, at, if at(q.key) == 0 then zero else other))
  {
    hide AtSort, Placed, Paging.Cursor, RowField, Prepared, Encodes, Shows, OrderFor, ShownValues;
    var row, order := AtSort(q, zero, other, at), OrderFor(q, q.keys, ty);
    var vals := ShownValues(q, q.keys, at, if at(q.key) == 0 then zero else other);
    forall i | 0 <= i < |order|
      ensures RowField(row, order[i].column) == Some(vals[i]) && Encodes(map[], order[i].ty, vals[i])
    {
      assert q.keys[i] in q.keys;
      RowShows(q, at, zero, other, q.keys[i]);
      ShowsEncodes(q, at, if at(q.key) == 0 then zero else other, q.keys[i].column, ty);
    }
    CursorIs(order, row, vals);
  }

  lemma ShowsEncodes(q: Paged, at: Contents, derived: Value, column: string, ty: ScalarType)
    requires Encodes(map[], ty, derived)
    ensures Encodes(map[], if q.IsStored(column) then TInt else ty, Shows(q, at, derived, column))
  {
    hide Encodes, FinalView;
    IntEncodes(at(column));
  }

  function BeyondValue(descending: bool): I64 {
    if descending then -1 else 1
  }

  /** The first key that differs from the boundary decides. */
  lemma {:induction false} FirstKeyDecides(
    order: seq<Paging.OrderKey>, row: Fields, vals: seq<Value>, boundary: seq<Value>, n: nat)
    requires n < |order| == |vals| == |boundary|
    requires forall i :: 0 <= i < |order| ==> RowField(row, order[i].column) == Some(vals[i])
    requires forall i :: 0 <= i < n ==> vals[i] == boundary[i] && Encodes(map[], order[i].ty, vals[i])
    requires order[n].ty == TInt && boundary[n] == Int(0) && vals[n] == Int(BeyondValue(order[n].descending))
    ensures Paging.CompareBoundary(map[], order, row, boundary) == Some(Greater)
  {
    hide RowField, CompareComponent, Encodes;
    if n == 0 {
      AgainstZero(order[0].descending);
    } else {
      SameIsEqual(map[], order[0].ty, order[0].descending, vals[0]);
      assert forall i :: 0 <= i < |order| - 1 ==> order[1..][i] == order[i+1] && vals[1..][i] == vals[i+1];
      FirstKeyDecides(order[1..], row, vals[1..], boundary[1..], n - 1);
    }
  }

  lemma AgainstZero(descending: bool)
    ensures CompareComponent(map[], Component(TInt, descending), Int(BeyondValue(descending)), Int(0)) == Some(Greater)
  {}

  /** The bound order of the page. */
  lemma {:induction false} OrderForOf(q: Paged, ty: ScalarType)
    requires Prepared(q)
    ensures OrderOf(q.Schema(), q.Before(), q.keys, OrderFor(q, q.keys, ty))
  {
    hide FieldType, ViewOf, KeepsKey, IntColumns, OrderFor;
    var before := q.Before();
    forall i | 0 <= i < |q.keys| && NeverDerives(before, q.keys[i].column)
      ensures q.IsStored(q.keys[i].column)
      ensures FieldType(map[], IntColumns(q.columns), q.keys[i].column) == Some(TInt)
    {
      var column := q.keys[i].column;
      assert q.keys[i] in q.keys;
      assert forall j :: 0 <= j < |before| ==> before[j] in before;
      KeptIsStored(before, 0, column, Initially(q.columns, column));
      StoredIsKept(q.columns, before, column);
      var j :| 0 <= j < |q.columns| && q.columns[j].column == column;
      IntAt(q.columns, Some(q.key), AllZero(), j);
    }
  }

  // ---- The table, the cursor and the row that is lost -------------------------------------------

  /** Row 1 passes the filters and differs from row 0 under every unique index. */
  ghost predicate Admissible(q: Paged, at: Contents) {
    && (forall column <- q.fixed :: at(column) == 0)
    && forall u <- q.ds :: MustBeUnique(q.Schema(), u) ==>
         exists i :: 0 <= i < |u.components| && at(u.components[i].column) != 0
  }

  /** Row 1 comes behind row 0's cursor at key `sortKey`. */
  ghost predicate Behind(q: Paged, at: Contents, derived: Value, zero: Value, sortKey: nat) {
    && sortKey < |q.keys|
    && Shows(q, at, derived, q.keys[sortKey].column) == Int(BeyondValue(q.keys[sortKey].descending))
    && Shows(q, AllZero(), zero, q.keys[sortKey].column) == Int(0)
    && forall i :: 0 <= i < sortKey ==>
         Shows(q, at, derived, q.keys[i].column) == Shows(q, AllZero(), zero, q.keys[i].column)
  }

  /** A row behind the cursor that the scan does not read is lost. */
  lemma {:induction false} Loses(
    b: Builtins, q: Paged, reverse: bool, at: Contents, zero: Value, other: Value, ty: ScalarType, sortKey: nat)
    requires Plain(q, reverse) && Admissible(q, at) && at(q.key) != 0 && Behind(q, at, other, zero, sortKey)
    requires Encodes(map[], ty, zero) && Encodes(map[], ty, other)
    requires q.IsStored(q.keys[sortKey].column) || ty == TInt
    requires var boundary := ShownValues(q, q.keys, AllZero(), zero);
             !Read(q.Schema(), q.d, q.Stages(), q.keys, boundary, Paging.Forward, reverse, IntRow(q.columns, at))
    ensures q.SortAt() < |q.Stages()| && q.Stages()[q.SortAt()] == Sort(q.keys)
    ensures !LosesNothing(b, q.Schema(), q.ds, q.d, q.Stages(), reverse, q.SortAt())
  {
    hide IndexSortMatch, ViewOf, ZeroFilters, LeadingConstraints, LeadingFilters, ZeroConstraints, ZeroConditions,
      Placed, Paging.Cursor, Paging.CompareBoundary, IntRow, OrderFor, ByKey, Read, Sound, OrderOf, Passes,
      RowResolver, Shows, ShownValues, Encodes, Transform, FinalView;
    var rm, order, boundary := ZeroAnd(q.columns, at), OrderFor(q, q.keys, ty), ShownValues(q, q.keys, AllZero(), zero);
    StagesShape(q);
    ZeroAndSound(q.columns, Some(q.key), q.ds, at);
    ZeroPasses(b, q.columns, q.fixed, at);
    ZeroPasses(b, q.columns, q.fixed, AllZero());
    OrderForOf(q, ty);
    ShownCursor(q, AllZero(), zero, other, ty);
    ShownCursor(q, at, zero, other, ty);
    AskedBehind(q, at, zero, other, ty, sortKey);
    assert Asked(b, q.Schema(), rm, q.Stages(), q.SortAt(), ByKey(q.key, zero, other), order, boundary, Paging.Forward,
                 1, 0);
  }

  lemma {:induction false} AskedBehind(
    q: Paged, at: Contents, zero: Value, other: Value, ty: ScalarType, sortKey: nat)
    requires Prepared(q) && at(q.key) != 0 && Behind(q, at, other, zero, sortKey)
    requires Encodes(map[], ty, zero) && Encodes(map[], ty, other)
    requires q.IsStored(q.keys[sortKey].column) || ty == TInt
    ensures Paging.CompareBoundary(map[], OrderFor(q, q.keys, ty), AtSort(q, zero, other, at),
                                   ShownValues(q, q.keys, AllZero(), zero)) == Some(Greater)
  {
    hide Prepared, AtSort, RowField, Encodes, Shows, OrderFor, ShownValues, FinalView, Paging.CompareBoundary;
    var order, row := OrderFor(q, q.keys, ty), AtSort(q, zero, other, at);
    var vals, boundary := ShownValues(q, q.keys, at, other), ShownValues(q, q.keys, AllZero(), zero);
    forall i | 0 <= i < |order|
      ensures RowField(row, order[i].column) == Some(vals[i]) && Encodes(map[], order[i].ty, vals[i])
    {
      assert q.keys[i] in q.keys;
      RowShows(q, at, zero, other, q.keys[i]);
      ShowsEncodes(q, at, other, q.keys[i].column, ty);
    }
    FirstKeyDecides(order, row, vals, boundary, sortKey);
  }

  // ---- The scan misses the row ------------------------------------------------------------------

  lemma {:induction false} ZeroFixedValue(cs: seq<IndexComponent>, n: nat, column: string)
    requires n <= |cs|
    ensures var v := FixedValue(cs, Zeros(n), column); v.Some? ==> v == Some(Int(0))
  {
    if n > 0 {
      assert Zeros(n)[1..] == Zeros(n - 1);
      ZeroFixedValue(cs[1..], n - 1, column);
    }
  }

  lemma {:induction false} ZeroOrderValue(keys: seq<SortKey>, column: string)
    ensures var v := OrderValue(keys, Zeros(|keys|), column); v.Some? ==> v == Some(Int(0))
  {
    if keys != [] {
      assert Zeros(|keys|)[1..] == Zeros(|keys| - 1);
      ZeroOrderValue(keys[1..], column);
    }
  }

  /** A cursor of zeros under a prefix of zeros makes a boundary of zeros. */
  lemma {:induction false} ZeroBoundary(cs: seq<IndexComponent>, n: nat, keys: seq<SortKey>, i: nat)
    requires n <= |cs| && i <= |cs|
    ensures var bound := BoundaryValues(cs, Zeros(n), keys, Zeros(|keys|), i); bound == Zeros(|bound|)
    decreases |cs| - i
  {
    hide Zeros;
    if i < |cs| {
      ZeroFixedValue(cs, n, cs[i].column);
      ZeroOrderValue(keys, cs[i].column);
      ZeroBoundary(cs, n, keys, i + 1);
      var bound := BoundaryValues(cs, Zeros(n), keys, Zeros(|keys|), i);
      assert forall j :: 0 <= j < |bound| ==> bound[j] == Int(0);
    }
  }

  /** A row on the near side of a boundary of zeros is not kept by a seek from there. */
  lemma {:induction false} NearSide(
    cs: seq<IndexComponent>, at: Contents, n: nat, component: nat, reverse: bool, scan: Scan)
    requires component < n <= |cs| && scan.Range?
    requires forall i :: 0 <= i < component ==> at(cs[i].column) == 0
    requires at(cs[component].column) == EarlierValue(cs[component].descending, reverse)
    ensures var key, boundary := EncodeComponents(map[], IntComps(cs), IntValues(cs, at)),
                                 EncodeComponents(map[], IntComps(cs)[..n], Zeros(n));
            key.Some? && boundary.Some? && !Selects(SeekScan(scan, boundary.value, !reverse), key.value)
  {
    hide EncodeComponents, CompareComponents, IntComps, IntValues, Contains, PageSeekBounds, Compare, Zeros;
    var front, comps, xs, zero := cs[..n], IntComps(cs), IntValues(cs, at), AllZero();
    assert comps[..n] == IntComps(front) && xs[..n] == IntValues(front, at) && Zeros(n) == IntValues(front, zero);
    IntLength(cs, at);
    IntLength(front, zero);
    FirstDifference(front, at, zero, component);
    BoundarySides(map[], comps, xs, Zeros(n));
    var key, boundary := EncodeComponents(map[], comps, xs).value, EncodeComponents(map[], comps[..n], Zeros(n)).value;
    PageSeekExact(scan.bounds.start, scan.bounds.end, boundary, !reverse, key);
  }

  /** A cursor of zeros that reaches far enough starts the scan at zeros. */
  lemma {:induction false} ZeroSeek(cs: seq<IndexComponent>, m: nat, keys: seq<SortKey>)
    requires DistinctComponents(cs) && m <= |cs| && Seeks(cs, m, keys)
    ensures var n := Bounded(cs, m, keys, 0);
            var boundary := EncodeComponents(map[], IntComps(cs)[..n], Zeros(n));
            boundary.Some? && SeekAt(map[], cs, IntComps(cs), Zeros(m), keys, Zeros(|keys|)) == From(boundary.value)
  {
    hide EncodeComponents, IntComps, IntValues, BoundaryValues, Reach, Zeros, Bounded, DistinctComponents;
    var n := Bounded(cs, m, keys, 0);
    BoundedValues(cs, Zeros(m), keys, Zeros(|keys|), 0);
    ZeroBoundary(cs, m, keys, 0);
    var front := cs[..n];
    IntLength(front, AllZero());
    assert IntComps(cs)[..n] == IntComps(front) && Zeros(n) == IntValues(front, AllZero());
  }

  /** What the scan of a sought page is. */
  lemma SoughtScan(
    t: TableSchema, d: IndexDefinition, stages: seq<Stage>, comps: seq<Component>, a: Access, keys: seq<SortKey>,
    boundary: seq<Value>, seek: Key, greater: bool)
    requires BoundComponents(t, d.components) == Some(comps)
    requires MatchComponents(t, d.components, LeadingConstraints(stages, false)) == a
    requires a.Access? && !a.impossible && Used(a) <= |comps| && !ExactLookup(d.components, a)
    requires SeekAt(t.catalog, d.components, comps, a.equality, keys, boundary) == From(seek)
    ensures PageScan(t, d, stages, keys, Some(boundary), greater) ==
            SeekScan(PlanBounds(t.catalog, comps, a), seek, greater)
  {
    hide BoundComponents, MatchComponents, LeadingConstraints, SeekAt, SeekScan, PlanBounds;
  }

  /** Contents that lose row 1: at the first component that differs from zero the scan has it
      on the near side of the cursor; at the first sort key that differs the page has it on
      the far side. */
  ghost predicate LosingRow(q: Paged, reverse: bool, at: Contents, v: I64, component: nat, sortKey: nat) {
    && Admissible(q, at) && at(q.key) != 0 && Behind(q, at, Int(v), Int(0), sortKey)
    && component < Bounded(q.d.components, q.Prefix(), q.keys, 0)
    && (forall i :: 0 <= i < component ==> at(q.d.components[i].column) == 0)
    && at(q.d.components[component].column) == EarlierValue(q.d.components[component].descending, reverse)
  }

  lemma {:induction false} ZeroShown(q: Paged)
    ensures ShownValues(q, q.keys, AllZero(), Int(0)) == Zeros(|q.keys|)
  {
    hide FinalView, Zeros;
  }

  lemma {:induction false} LosingUnread(q: Paged, reverse: bool, at: Contents, n: nat, component: nat)
    requires Plain(q, reverse) && Seeks(q.d.components, q.Prefix(), q.keys)
    requires n == Bounded(q.d.components, q.Prefix(), q.keys, 0) && component < n
    requires forall i :: 0 <= i < component ==> at(q.d.components[i].column) == 0
    requires at(q.d.components[component].column) == EarlierValue(q.d.components[component].descending, reverse)
    ensures !Read(q.Schema(), q.d, q.Stages(), q.keys, Zeros(|q.keys|), Paging.Forward, reverse, IntRow(q.columns, at))
  {
    hide ZeroFilters, MatchComponents, LeadingConstraints, BoundComponents, EncodeComponents, IntComps, IntValues,
      IntRow, FiledKey, SeekScan, Selects, PlanBounds, BoundaryValues, Reach, Zeros, IntSchema, Satisfies, Bounded,
      DistinctComponents, SeekAt, PageScan, Prepared, ZeroConstraints, IndexSortMatch;
    MatchOf(q, reverse);
    var cs, m, t, a := q.d.components, q.Prefix(), q.Schema(), Access(Zeros(q.Prefix()), None, false);
    var comps := IntComps(cs);
    ZeroPlan(cs, m);
    ZeroSeek(cs, m, q.keys);
    var seek := EncodeComponents(map[], comps[..n], Zeros(n)).value;
    assert t.catalog == map[] by { PlainCatalog(q); }
    SoughtScan(t, q.d, q.Stages(), comps, a, q.keys, Zeros(|q.keys|), seek, !reverse);
    IntFiledUnder(q.columns, Some(q.key), at, q.d);
    NearSide(cs, at, n, component, reverse, PlanBounds(map[], comps, a));
  }

  lemma PlainCatalog(q: Paged)
    ensures q.Schema().catalog == map[] && q.Schema().primaryKey == Some(q.key)
  {}

  lemma {:induction false} RowLoses(
    b: Builtins, q: Paged, reverse: bool, at: Contents, v: I64, component: nat, sortKey: nat)
    requires Plain(q, reverse) && Seeks(q.d.components, q.Prefix(), q.keys)
    requires LosingRow(q, reverse, at, v, component, sortKey)
    ensures q.SortAt() < |q.Stages()| && q.Stages()[q.SortAt()] == Sort(q.keys)
    ensures !LosesNothing(b, q.Schema(), q.ds, q.d, q.Stages(), reverse, q.SortAt())
  {
    hide Plain, Admissible, Behind, Read, LosesNothing, ZeroFilters, Bounded, Seeks, Encodes, ShownValues, Zeros,
      FinalView;
    ZeroShown(q);
    LosingUnread(q, reverse, at, Bounded(q.d.components, q.Prefix(), q.keys, 0), component);
    IntEncodes(0);
    IntEncodes(v);
    Loses(b, q, reverse, at, Int(0), Int(v), TInt, sortKey);
  }

  // ---- Fronts of the page order -----------------------------------------------------------------

  /** The first `n` page keys are stored and run along the bounded components. */
  predicate GoodFront(q: Paged, reverse: bool, n: nat)
    requires n <= |q.keys|
  {
    var constraints := ZeroConstraints(q.fixed);
    && AllKept(q.Before(), q.keys[..n])
    && Runs(q.d.components[..Bounded(q.d.components, q.Prefix(), q.keys, 0)], Open(q.keys[..n], constraints),
            constraints, reverse)
  }

  lemma {:induction false} LongestFront(q: Paged, reverse: bool, n: nat) returns (p: nat)
    requires n <= |q.keys| && GoodFront(q, reverse, n)
    ensures n <= p <= |q.keys| && GoodFront(q, reverse, p) && (p < |q.keys| ==> !GoodFront(q, reverse, p + 1))
    decreases |q.keys| - n
  {
    hide GoodFront;
    if n < |q.keys| && GoodFront(q, reverse, n + 1) { p := LongestFront(q, reverse, n + 1); } else { p := n; }
  }

  lemma NoFront(q: Paged, reverse: bool)
    ensures GoodFront(q, reverse, 0)
  {}

  /** A column that the first `n` keys name or the filters fix. */
  predicate Seen(q: Paged, n: nat, column: string)
    requires n <= |q.keys|
  {
    column in q.fixed || NamedBy(q.keys[..n], column)
  }

  /** A key the stages keep is stored. */
  lemma {:induction false} KeptStored(q: Paged, k: SortKey)
    requires Prepared(q) && k in q.keys
    ensures q.IsStored(k.column) <==> Survives(q.Before(), k.column)
  {
    hide ViewOf, KeepsKey;
    var before := q.Before();
    if q.IsStored(k.column) {
      StoredIsKept(q.columns, before, k.column);
    } else if NeverDerives(before, k.column) {
      assert forall j :: 0 <= j < |before| ==> before[j] in before;
      KeptIsStored(before, 0, k.column, Initially(q.columns, k.column));
    }
  }

  /** Contents that are zero on the filtered columns and not zero on any column the first `n`
      keys leave open, where those keys leave ties. */
  lemma {:induction false} OpenAdmissible(b: Builtins, q: Paged, n: nat, at: Contents)
    requires n <= |q.keys| && IntTable(q.columns, Some(q.key), q.ds)
    requires !KeyDecides(b, q.Schema(), q.ds, q.Stages(), q.keys[..n])
    requires forall column <- q.fixed :: at(column) == 0
    requires forall column :: !Seen(q, n, column) ==> at(column) != 0
    ensures Admissible(q, at) && at(q.key) != 0 && !Seen(q, n, q.key)
  {
    hide LeadingConstraints, ZeroConstraints, MustBeUnique, ZeroFilters, Proven, FixedBy, NamedBy, LeadingFilters;
    StagesShape(q);
    forall u <- q.ds | MustBeUnique(q.Schema(), u)
      ensures exists i :: 0 <= i < |u.components| && !Seen(q, n, u.components[i].column)
    {
      TotalProven(b, u, LeadingFilters(q.Stages()));
      assert !Pinned(u.components, q.keys[..n], ZeroConstraints(q.fixed));
      var i :| 0 <= i < |u.components| && !NamedBy(q.keys[..n], u.components[i].column)
               && !FixedBy(ZeroConstraints(q.fixed), u.components[i].column);
      ZeroFixed(q.fixed, u.components[i].column);
      assert !Seen(q, n, u.components[i].column);
    }
    var primary := PrimaryDefinition(q.key);
    assert primary in q.ds && MustBeUnique(q.Schema(), primary) by { PrimaryUnique(q); }
  }

  lemma PrimaryUnique(q: Paged)
    requires IntTable(q.columns, Some(q.key), q.ds)
    ensures PrimaryDefinition(q.key) in q.ds && MustBeUnique(q.Schema(), PrimaryDefinition(q.key))
  {}

  // ---- A derived sort key -----------------------------------------------------------------------

  predicate Descends(cs: seq<IndexComponent>, column: string) {
    exists c <- cs :: c.column == column && c.descending
  }

  lemma DescendsAt(cs: seq<IndexComponent>, i: nat)
    requires DistinctComponents(cs) && i < |cs|
    ensures Descends(cs, cs[i].column) == cs[i].descending
  {
    forall c <- cs | c.column == cs[i].column ensures c == cs[i] {
      var j :| 0 <= j < |cs| && cs[j] == c;
    }
  }

  /** Zero on the columns seen so far, and read early in every other component. */
  function Shadowed(q: Paged, n: nat, reverse: bool): Contents
    requires n <= |q.keys|
  {
    column => if Seen(q, n, column) then 0 else EarlierValue(Descends(q.d.components, column), reverse)
  }

  lemma {:induction false} DerivedLoses(b: Builtins, q: Paged, reverse: bool, n: nat)
    requires Plain(q, reverse) && Seeks(q.d.components, q.Prefix(), q.keys)
    requires n < |q.keys| && GoodFront(q, reverse, n) && !Survives(q.Before(), q.keys[n].column)
    requires !KeyDecides(b, q.Schema(), q.ds, q.Stages(), q.keys[..n])
    ensures q.SortAt() < |q.Stages()| && q.Stages()[q.SortAt()] == Sort(q.keys)
    ensures !LosesNothing(b, q.Schema(), q.ds, q.d, q.Stages(), reverse, q.SortAt())
  {
    hide KeyDecides, Seeks, Bounded, Descends, DistinctComponents, Survives, FinalView, Runs, Open, ZeroFilters,
      LosesNothing, IndexSortMatch, IntTable, Prepared, ZeroConstraints, Seen;
    var at, cs := Shadowed(q, n, reverse), q.d.components;
    OpenAdmissible(b, q, n, at) by { FixedSeen(q, n); }
    assert q.keys != [] && q.keys[|q.keys|-1].column == q.key by { EndsInKey(q); }
    var place := SoughtKey(cs, q.Prefix(), q.keys, q.keys[|q.keys|-1]);
    var component := FirstNonZero(cs, at, 0, place);
    DescendsAt(cs, component);
    var v := BeyondValue(q.keys[n].descending);
    assert q.keys[n] in q.keys;
    KeptStored(q, q.keys[n]);
    forall i | 0 <= i < n ensures at(q.keys[i].column) == 0 && q.IsStored(q.keys[i].column) {
      assert q.keys[..n][i] == q.keys[i] && q.keys[i] in q.keys[..n] && q.keys[i] in q.keys;
      KeptStored(q, q.keys[i]);
      KeySeen(q, n, i);
    }
    RowLoses(b, q, reverse, at, v, component, n);
  }

  lemma FixedSeen(q: Paged, n: nat)
    requires n <= |q.keys|
    ensures forall column <- q.fixed :: Seen(q, n, column)
  {}

  lemma KeySeen(q: Paged, n: nat, i: nat)
    requires i < n <= |q.keys|
    ensures Seen(q, n, q.keys[i].column)
  {
    assert q.keys[..n][i] == q.keys[i] && q.keys[i] in q.keys[..n];
  }

  lemma EndsInKey(q: Paged)
    requires Prepared(q)
    ensures q.keys != [] && q.keys[|q.keys|-1].column == q.key
  {
    hide FinalView;
  }

  // ---- An order that leaves the index -----------------------------------------------------------

  /** The component at which the next key should run on: everything in front of it is fixed or
      named. */
  lemma {:induction false} NextOpen(
    cs: seq<IndexComponent>, keys: seq<SortKey>, k: SortKey, constraints: seq<Constraint>, reverse: bool)
    returns (j: nat)
    requires Runs(cs, keys, constraints, reverse) && !Runs(cs, keys + [k], constraints, reverse)
    ensures j <= |cs|
    ensures forall i :: 0 <= i < j ==> FixedBy(constraints, cs[i].column) || NamedBy(keys, cs[i].column)
    ensures j < |cs| ==> !FixedBy(constraints, cs[j].column)
    ensures j < |cs| && k.column == cs[j].column ==> (k.descending != cs[j].descending) != reverse
    ensures forall e <- keys :: exists i :: 0 <= i < j && cs[i].column == e.column
  {
    hide FixedBy;
    if cs == [] {
      j := 0;
    } else if FixedBy(constraints, cs[0].column) {
      j := NextOpen(cs[1..], keys, k, constraints, reverse);
      j := j + 1;
      forall e <- keys ensures exists i :: 0 <= i < j && cs[i].column == e.column {
        var i :| 0 <= i < j - 1 && cs[1..][i].column == e.column;
        assert cs[i+1].column == e.column;
      }
      forall i | 0 <= i < j ensures FixedBy(constraints, cs[i].column) || NamedBy(keys, cs[i].column) {
        if i > 0 { assert cs[i] == cs[1..][i-1]; }
      }
    } else if keys == [] {
      j := 0;
      assert ([] + [k])[1..] == [];
    } else {
      assert (keys + [k])[1..] == keys[1..] + [k];
      j := NextOpen(cs[1..], keys[1..], k, constraints, reverse);
      j := j + 1;
      NextNamed(cs, keys, constraints, j);
    }
  }

  lemma NextNamed(cs: seq<IndexComponent>, keys: seq<SortKey>, constraints: seq<Constraint>, j: nat)
    requires cs != [] && keys != [] && keys[0].column == cs[0].column && 1 <= j <= |cs|
    requires forall i :: 0 <= i < j - 1 ==>
               FixedBy(constraints, cs[1..][i].column) || NamedBy(keys[1..], cs[1..][i].column)
    requires forall e <- keys[1..] :: exists i :: 0 <= i < j - 1 && cs[1..][i].column == e.column
    ensures forall i :: 0 <= i < j ==> FixedBy(constraints, cs[i].column) || NamedBy(keys, cs[i].column)
    ensures forall e <- keys :: exists i :: 0 <= i < j && cs[i].column == e.column
  {
    hide FixedBy;
    assert keys[0] in keys && forall e :: e in keys <==> e == keys[0] || e in keys[1..];
    forall i | 0 <= i < j ensures FixedBy(constraints, cs[i].column) || NamedBy(keys, cs[i].column) {
      if i > 0 { assert cs[i] == cs[1..][i-1]; }
    }
    forall e <- keys ensures exists i :: 0 <= i < j && cs[i].column == e.column {
      if e == keys[0] {
        assert cs[0].column == e.column;
      } else {
        var i :| 0 <= i < j - 1 && cs[1..][i].column == e.column;
        assert cs[i+1].column == e.column;
      }
    }
  }

  lemma {:induction false} OpenMembers(keys: seq<SortKey>, constraints: seq<Constraint>)
    ensures forall k :: k in Open(keys, constraints) <==> k in keys && !FixedBy(constraints, k.column)
  {
    hide FixedBy;
    if keys != [] { OpenMembers(keys[1..], constraints); }
  }

  lemma {:induction false} OpenPush(keys: seq<SortKey>, k: SortKey, constraints: seq<Constraint>)
    ensures Open(keys + [k], constraints) ==
            Open(keys, constraints) + if FixedBy(constraints, k.column) then [] else [k]
  {
    hide FixedBy;
    if keys == [] {
      assert [k][1..] == [] && keys + [k] == [k];
    } else {
      OpenPush(keys[1..], k, constraints);
      assert (keys + [k])[1..] == keys[1..] + [k];
    }
  }

  /** A column two visible keys name appears twice among the visible keys. */
  lemma {:induction false} TwiceVisible(keys: seq<SortKey>, fixed: set<string>, i: nat, j: nat)
    requires i < j < |keys| && keys[i].column == keys[j].column && keys[i].column !in fixed
    ensures !DistinctKeys(Visible(keys, fixed))
  {
    hide Visible;
    VisibleSplit(keys, fixed, j);
    VisibleMembers(keys[..j], fixed);
    VisibleMembers(keys[j..], fixed);
    var front, back := Visible(keys[..j], fixed), Visible(keys[j..], fixed);
    assert keys[..j][i] == keys[i] && keys[i] in keys[..j];
    assert keys[j..][0] == keys[j] && keys[j] in keys[j..];
    var x :| 0 <= x < |front| && front[x] == keys[i];
    var y :| 0 <= y < |back| && back[y] == keys[j];
    var all := Visible(keys, fixed);
    assert all[x] == keys[i] && all[|front| + y] == keys[j];
  }

  lemma {:induction false} VisibleSplit(keys: seq<SortKey>, fixed: set<string>, n: nat)
    requires n <= |keys|
    ensures Visible(keys, fixed) == Visible(keys[..n], fixed) + Visible(keys[n..], fixed)
  {
    if n == 0 {
      assert keys[..0] == [] && keys[0..] == keys;
    } else {
      VisibleSplit(keys[1..], fixed, n - 1);
      assert keys[..n][1..] == keys[1..][..n-1] && keys[1..][n-1..] == keys[n..];
    }
  }

  /** Zero on the columns seen so far; early in the next component, late under the next key. */
  function Crossed(q: Paged, n: nat, reverse: bool, c: IndexComponent): Contents
    requires n < |q.keys|
  {
    column =>
      if Seen(q, n, column) then 0
      else if column == c.column then EarlierValue(c.descending, reverse)
      else if column == q.keys[n].column then BeyondValue(q.keys[n].descending)
      else 1
  }

  /** Where the next key leaves the index, and that neither side has been seen. */
  lemma {:induction false} LeavesAt(q: Paged, reverse: bool, n: nat) returns (j: nat)
    requires DistinctComponents(q.d.components) && Seeks(q.d.components, q.Prefix(), q.keys)
    requires n < |q.keys| && GoodFront(q, reverse, n) && !GoodFront(q, reverse, n + 1)
    requires Survives(q.Before(), q.keys[n].column)
    ensures j < Bounded(q.d.components, q.Prefix(), q.keys, 0)
    ensures forall i :: 0 <= i < j ==> Seen(q, n, q.d.components[i].column)
    ensures !Seen(q, n, q.d.components[j].column) && !Seen(q, n, q.keys[n].column)
    ensures q.keys[n].column == q.d.components[j].column ==>
              (q.keys[n].descending != q.d.components[j].descending) != reverse
  {
    hide Seeks, Bounded, Survives, Runs, Open, ZeroConstraints, FixedBy, Visible, FixedColumns;
    var cs, k, constraints, front := q.d.components, q.keys[n], ZeroConstraints(q.fixed), q.keys[..n];
    var bounded := cs[..Bounded(cs, q.Prefix(), q.keys, 0)];
    assert q.keys[..n+1] == front + [k];
    OpenPush(front, k, constraints);
    assert Open(front, constraints) + [] == Open(front, constraints);
    assert !FixedBy(constraints, k.column);
    j := NextOpen(bounded, Open(front, constraints), k, constraints, reverse);
    OpenMembers(front, constraints);
    forall column ensures FixedBy(constraints, column) <==> column in q.fixed { ZeroFixed(q.fixed, column); }
    assert k in q.keys;
    var place := SoughtKey(cs, q.Prefix(), q.keys, k);
    NewKey(q, n);
    assert forall i :: 0 <= i < j ==> bounded[i].column != k.column;
    assert bounded[place].column == k.column;
    forall i | 0 <= i < j ensures Seen(q, n, cs[i].column) { assert bounded[i] == cs[i]; }
    forall e <- front ensures e.column != cs[j].column {
      if e in Open(front, constraints) {
        var i :| 0 <= i < j && bounded[i].column == e.column;
      }
    }
  }

  /** A sought order names an open column once. */
  lemma {:induction false} NewKey(q: Paged, n: nat)
    requires DistinctComponents(q.d.components) && Seeks(q.d.components, q.Prefix(), q.keys)
    requires n < |q.keys| && q.keys[n].column !in q.fixed
    ensures !NamedBy(q.keys[..n], q.keys[n].column)
  {
    hide Seeks, Bounded, ZeroConstraints, FixedBy, Visible, DistinctComponents;
    var cs, m := q.d.components, q.Prefix();
    SoughtPermutes(cs, m, q.keys);
    if NamedBy(q.keys[..n], q.keys[n].column) {
      var e :| e in q.keys[..n] && e.column == q.keys[n].column;
      var i :| 0 <= i < n && q.keys[..n][i] == e;
      assert q.keys[i].column !in FixedColumns(cs, m) by {
        if q.keys[i].column in FixedColumns(cs, m) {
          var c :| 0 <= c < m && cs[c].column == q.keys[i].column;
          ZeroFixed(q.fixed, cs[c].column);
        }
      }
      TwiceVisible(q.keys, FixedColumns(cs, m), i, n);
      assert false;
    }
  }

  lemma {:induction false} LeavingLoses(b: Builtins, q: Paged, reverse: bool, n: nat)
    requires Plain(q, reverse) && Seeks(q.d.components, q.Prefix(), q.keys)
    requires n < |q.keys| && GoodFront(q, reverse, n) && !GoodFront(q, reverse, n + 1)
    requires Survives(q.Before(), q.keys[n].column)
    requires !KeyDecides(b, q.Schema(), q.ds, q.Stages(), q.keys[..n])
    ensures q.SortAt() < |q.Stages()| && q.Stages()[q.SortAt()] == Sort(q.keys)
    ensures !LosesNothing(b, q.Schema(), q.ds, q.d, q.Stages(), reverse, q.SortAt())
  {
    hide KeyDecides, Seeks, Bounded, DistinctComponents, Survives, FinalView, Runs, Open, ZeroFilters, LosesNothing,
      IndexSortMatch, IntTable, Prepared, ZeroConstraints, Seen;
    var j := LeavesAt(q, reverse, n);
    var at := Crossed(q, n, reverse, q.d.components[j]);
    OpenAdmissible(b, q, n, at) by { FixedSeen(q, n); }
    assert q.keys[n] in q.keys;
    KeptStored(q, q.keys[n]);
    forall i | 0 <= i < n ensures at(q.keys[i].column) == 0 && q.IsStored(q.keys[i].column) {
      assert q.keys[..n][i] == q.keys[i] && q.keys[i] in q.keys[..n] && q.keys[i] in q.keys;
      KeptStored(q, q.keys[i]);
      KeySeen(q, n, i);
    }
    RowLoses(b, q, reverse, at, 0, j, n);
  }

  // ---- A boundary without a key -----------------------------------------------------------------

  const EMPTY_TEXT: Value := Text([])

  lemma EmptyTextEncodes()
    ensures Encodes(map[], TText, EMPTY_TEXT) && !Encodes(map[], TInt, EMPTY_TEXT)
  {}

  /** Zero on the filtered columns, late under the first open key, and nowhere else zero. */
  function Late(q: Paged, e: nat): Contents
    requires e < |q.keys|
  {
    column =>
      if column in q.fixed then 0
      else if column == q.keys[e].column then BeyondValue(q.keys[e].descending)
      else 1
  }

  /** The first key that no filter fixes. */
  lemma {:induction false} FirstOpenKey(q: Paged, from: nat, n: nat) returns (e: nat)
    requires from <= n <= |q.keys| && exists i :: from <= i < n && q.keys[i].column !in q.fixed
    ensures from <= e < n && q.keys[e].column !in q.fixed
    ensures forall i :: from <= i < e ==> q.keys[i].column in q.fixed
    decreases n - from
  {
    if q.keys[from].column !in q.fixed { e := from; } else { e := FirstOpenKey(q, from + 1, n); }
  }

  /** Keys on filtered columns only decide no more than the filters do. */
  lemma {:induction false} OnlyFixedKeys(b: Builtins, q: Paged, n: nat)
    requires n <= |q.keys| && KeyDecides(b, q.Schema(), q.ds, q.Stages(), q.keys[..n])
    requires forall i :: 0 <= i < n ==> q.keys[i].column in q.fixed
    ensures KeyDecides(b, q.Schema(), q.ds, q.Stages(), [])
  {
    hide LeadingConstraints, ZeroConstraints, MustBeUnique, ZeroFilters, Proven, FixedBy, LeadingFilters;
    StagesShape(q);
    var u :| u in q.ds && MustBeUnique(q.Schema(), u) && Proven(b, u, LeadingFilters(q.Stages()))
             && Pinned(u.components, q.keys[..n], ZeroConstraints(q.fixed));
    forall i | 0 <= i < |u.components| ensures FixedBy(ZeroConstraints(q.fixed), u.components[i].column) {
      ZeroFixed(q.fixed, u.components[i].column);
    }
    assert Pinned(u.components, [], ZeroConstraints(q.fixed));
  }

  /** A boundary that holds a text under an integer column has no key. */
  lemma {:induction false} TextUnencodable(q: Paged, k: SortKey)
    requires Prepared(q) && DistinctComponents(q.d.components) && Seeks(q.d.components, q.Prefix(), q.keys)
    requires k in q.keys && k.column !in FixedColumns(q.d.components, q.Prefix()) && !q.IsStored(k.column)
    ensures SeekAt(map[], q.d.components, IntComps(q.d.components), Zeros(q.Prefix()), q.keys,
                   ShownValues(q, q.keys, AllZero(), EMPTY_TEXT)) == Unencodable
  {
    hide Bounded, BoundaryValues, EncodeComponents, IntComps, Zeros, ZeroConstraints, DistinctComponents, FinalView,
      Encodes, Prepared, ShownValues, Reach, FixedColumns;
    var cs, m, boundary := q.d.components, q.Prefix(), ShownValues(q, q.keys, AllZero(), EMPTY_TEXT);
    var c := SoughtKey(cs, m, q.keys, k);
    BoundedValues(cs, Zeros(m), q.keys, boundary, 0);
    var bound := BoundaryValues(cs, Zeros(m), q.keys, boundary, 0);
    BoundaryHolds(cs, Zeros(m), q.keys, boundary, 0, c);
    FixedValueAt(cs, Zeros(m), c);
    ShownAt(q, q.keys, cs[c].column);
    EmptyTextEncodes();
    assert !Encodes(map[], IntComps(cs)[..|bound|][c].ty, bound[c]);
    ComponentsEncode(map[], IntComps(cs)[..|bound|], bound);
  }

  lemma {:induction false} BoundaryHolds(
    cs: seq<IndexComponent>, equality: seq<Value>, keys: seq<SortKey>, boundary: seq<Value>, i: nat, c: nat)
    requires |equality| <= |cs| && i <= |cs| && i <= c < i + |BoundaryValues(cs, equality, keys, boundary, i)|
    ensures c < |cs| && BoundaryValue(cs, equality, keys, boundary, cs[c].column) ==
                        Some(BoundaryValues(cs, equality, keys, boundary, i)[c - i])
    decreases |cs| - i
  {
    hide BoundaryValue;
    if i < c { BoundaryHolds(cs, equality, keys, boundary, i + 1, c); }
  }

  lemma {:induction false} ShownAt(q: Paged, keys: seq<SortKey>, column: string)
    requires NamedBy(keys, column)
    ensures OrderValue(keys, ShownValues(q, keys, AllZero(), EMPTY_TEXT), column) ==
            Some(Shows(q, AllZero(), EMPTY_TEXT, column))
  {
    hide Shows;
    var vals := ShownValues(q, keys, AllZero(), EMPTY_TEXT);
    if keys[0].column != column {
      assert vals[1..] == ShownValues(q, keys[1..], AllZero(), EMPTY_TEXT);
      assert forall e :: e in keys <==> e == keys[0] || e in keys[1..];
      ShownAt(q, keys[1..], column);
    }
  }

  lemma {:induction false} TextUnread(q: Paged, reverse: bool, k: SortKey, at: Contents)
    requires Plain(q, reverse) && Seeks(q.d.components, q.Prefix(), q.keys)
    requires k in q.keys && k.column !in FixedColumns(q.d.components, q.Prefix()) && !q.IsStored(k.column)
    ensures !Read(q.Schema(), q.d, q.Stages(), q.keys, ShownValues(q, q.keys, AllZero(), EMPTY_TEXT), Paging.Forward,
                  reverse, IntRow(q.columns, at))
  {
    hide ZeroFilters, MatchComponents, LeadingConstraints, BoundComponents, IntComps, IntRow, FiledKey, PlanBounds,
      Zeros, IntSchema, Satisfies, SeekAt, Prepared, ZeroConstraints, IndexSortMatch, ShownValues, FinalView, Seeks,
      DistinctComponents, FixedColumns;
    MatchOf(q, reverse);
    PlainCatalog(q);
    TextUnencodable(q, k);
  }

  lemma {:induction false} TextLoses(b: Builtins, q: Paged, reverse: bool, n: nat, k: SortKey)
    requires Plain(q, reverse) && Seeks(q.d.components, q.Prefix(), q.keys)
    requires n <= |q.keys| && GoodFront(q, reverse, n) && KeyDecides(b, q.Schema(), q.ds, q.Stages(), q.keys[..n])
    requires !KeyDecides(b, q.Schema(), q.ds, q.Stages(), [])
    requires k in q.keys && k.column !in FixedColumns(q.d.components, q.Prefix()) && !q.IsStored(k.column)
    ensures q.SortAt() < |q.Stages()| && q.Stages()[q.SortAt()] == Sort(q.keys)
    ensures !LosesNothing(b, q.Schema(), q.ds, q.d, q.Stages(), reverse, q.SortAt())
  {
    hide KeyDecides, Seeks, Bounded, DistinctComponents, Survives, FinalView, Runs, Open, ZeroFilters, LosesNothing,
      IndexSortMatch, IntTable, Prepared, ZeroConstraints, FixedColumns, ShownValues, Read, Encodes;
    if forall i :: 0 <= i < n ==> q.keys[i].column in q.fixed { OnlyFixedKeys(b, q, n); }
    var e := FirstOpenKey(q, 0, n);
    var at := Late(q, e);
    assert q.keys[..0] == [];
    OpenAdmissible(b, q, 0, at);
    forall i | 0 <= i <= e ensures q.IsStored(q.keys[i].column) {
      assert q.keys[..n][i] == q.keys[i] && q.keys[i] in q.keys[..n] && q.keys[i] in q.keys;
      KeptStored(q, q.keys[i]);
    }
    TextUnread(q, reverse, k, at);
    EmptyTextEncodes();
    Loses(b, q, reverse, at, EMPTY_TEXT, EMPTY_TEXT, TText, e);
  }

  // ---- The exact condition ----------------------------------------------------------------------

  /** For every paged query on a table of integers, whatever its other indexes: seeking loses no
      row, on any table and for any derivation and cursor, exactly when the condition holds. */
  lemma {:induction false} SeekExact(b: Builtins, q: Paged, reverse: bool)
    requires PlainBuiltins(b) && Plain(q, reverse)
    ensures q.SortAt() < |q.Stages()| && q.Stages()[q.SortAt()] == Sort(q.keys)
    ensures SeekSafe(b, q.Schema(), q.ds, q.d.components, q.Prefix(), reverse, q.Stages(), q.SortAt()) <==>
            LosesNothing(b, q.Schema(), q.ds, q.d, q.Stages(), reverse, q.SortAt())
  {
    hide Plain, ZeroFilters, LosesNothing, SeekSafe, LeadingConstraints, LeadingFilters, ZeroConstraints,
      ZeroConditions;
    StagesShape(q);
    if SeekSafe(b, q.Schema(), q.ds, q.d.components, q.Prefix(), reverse, q.Stages(), q.SortAt()) {
      SafeLosesNothing(b, q, reverse);
    } else {
      UnsafeLoses(b, q, reverse);
    }
  }

  lemma {:induction false} SafeLosesNothing(b: Builtins, q: Paged, reverse: bool)
    requires PlainBuiltins(b) && Plain(q, reverse)
    requires q.SortAt() < |q.Stages()| && q.Stages()[q.SortAt()] == Sort(q.keys)
    requires SeekSafe(b, q.Schema(), q.ds, q.d.components, q.Prefix(), reverse, q.Stages(), q.SortAt())
    ensures LosesNothing(b, q.Schema(), q.ds, q.d, q.Stages(), reverse, q.SortAt())
  {
    hide ZeroFilters, SeekSafe, Sound, Asked, Read, MatchComponents, LeadingConstraints, Satisfies, BoundFilters,
      Proven, LeadingFilters, DistinctComponents, Prepared, Zeros, ZeroConditions, ZeroConstraints, IntSchema,
      IndexSortMatch;
    MatchOf(q, reverse);
    StagesShape(q);
    ZeroBound(b, q.columns, Some(q.key), q.fixed);
    TotalProven(b, q.d, ZeroConditions(q.fixed));
    var t, stages, position := q.Schema(), q.Stages(), q.SortAt();
    forall rm, derive, order, boundary, direction, i, j
      | Sound(t, q.ds, rm) && Asked(b, t, rm, stages, position, derive, order, boundary, direction, i, j)
      ensures i in rm && Read(t, q.d, stages, q.keys, boundary, direction, reverse, rm[i])
    {
      assert i in rm by { AskedRow(b, t, rm, stages, position, derive, order, boundary, direction, i, j); }
      SafeSeek(b, t, q.ds, q.d, stages, SortMatch(|q.fixed|, reverse), position, rm, derive, order, boundary, direction,
               i, j);
    }
  }

  lemma {:induction false} AskedRow(
    b: Builtins, t: TableSchema, rm: RowMap, stages: seq<Stage>, position: nat, derive: (nat, Fields) -> Value,
    order: seq<Paging.OrderKey>, boundary: seq<Value>, direction: Paging.Direction, i: RowId, j: RowId)
    requires position < |stages| && stages[position].Sort?
    requires Asked(b, t, rm, stages, position, derive, order, boundary, direction, i, j)
    ensures i in rm
  {
    hide Transform, Placed, OrderOf, Passes, LeadingFilters, Paging.Cursor, Paging.CompareBoundary;
  }

  /** A front that runs along the index and decides, or is the whole order, is a safe one. */
  lemma {:induction false} GoodIsSafe(b: Builtins, q: Paged, reverse: bool, n: nat)
    requires n <= |q.keys| && GoodFront(q, reverse, n)
    requires n == |q.keys| || KeyDecides(b, q.Schema(), q.ds, q.Stages(), q.keys[..n])
    ensures q.SortAt() < |q.Stages()| && q.Stages()[q.SortAt()] == Sort(q.keys)
    ensures SafeFront(b, q.Schema(), q.ds, q.d.components, q.Prefix(), reverse, q.Stages(), q.SortAt(), n)
  {
    hide LeadingConstraints, ZeroConstraints, ZeroFilters, KeyDecides, Runs, Open, Bounded, AllKept, LeadingFilters;
    StagesShape(q);
  }

  lemma {:induction false} UnsafeLoses(b: Builtins, q: Paged, reverse: bool)
    requires Plain(q, reverse) && q.SortAt() < |q.Stages()| && q.Stages()[q.SortAt()] == Sort(q.keys)
    requires !SeekSafe(b, q.Schema(), q.ds, q.d.components, q.Prefix(), reverse, q.Stages(), q.SortAt())
    ensures !LosesNothing(b, q.Schema(), q.ds, q.d, q.Stages(), reverse, q.SortAt())
  {
    hide ZeroFilters, LosesNothing, Seeks, Visible, FinalView, Survives, KeyDecides, SafeFront, GoodFront,
      IndexSortMatch, DistinctComponents, IntTable, LeadingConstraints, ZeroConstraints, FixedColumns, Prepared,
      IntSchema, LeadingFilters;
    StagesShape(q);
    NoFront(q, reverse);
    var n := LongestFront(q, reverse, 0);
    if n == |q.keys| || KeyDecides(b, q.Schema(), q.ds, q.Stages(), q.keys[..n]) {
      GoodIsSafe(b, q, reverse, n);
      var visible := Visible(q.keys, FixedColumns(q.d.components, q.Prefix()));
      VisibleMembers(q.keys, FixedColumns(q.d.components, q.Prefix()));
      var k :| k in visible && !Survives(q.Before(), k.column);
      KeptStored(q, k);
      if n == |q.keys| { WholeFront(q, reverse, k); }
      TextLoses(b, q, reverse, n, k);
    } else if Survives(q.Before(), q.keys[n].column) {
      LeavingLoses(b, q, reverse, n);
    } else {
      DerivedLoses(b, q, reverse, n);
    }
  }

  lemma WholeFront(q: Paged, reverse: bool, k: SortKey)
    requires GoodFront(q, reverse, |q.keys|) && k in q.keys
    ensures Survives(q.Before(), k.column)
  {
    hide Survives, Runs;
    assert q.keys[..|q.keys|] == q.keys;
  }

  // ---- Three ways to lose a row -----------------------------------------------------------------

  function KeyedQuery(
    cs: seq<IndexComponent>, first: seq<SortKey>, between: seq<Stage>, keys: seq<SortKey>): Paged {
    var d := IntIndex(cs);
    Paged(cs, [d, PrimaryDefinition("id")], d, [], first, between, keys, 1, "id")
  }

  /** `sort id desc | sort id | page`: the scan runs backwards and the page forwards. */
  const OPPOSITE: Paged := KeyedQuery([IndexComponent("id", false)], [SortKey("id", true)], [], [SortKey("id", false)])

  /** `sort x, id | derive x | sort x, id | page`: the cursor holds the derived value. */
  const DERIVED: Paged := KeyedQuery(
    [IndexComponent("x", false), IndexComponent("id", false)], [SortKey("x", false), SortKey("id", false)],
    [Derive("x")], [SortKey("x", false), SortKey("id", false)])

  /** `sort a | sort b, a, id | page` on an index on `a`, `b` and `id`: the page order names
      the components in another order. */
  const PERMUTED: Paged := KeyedQuery(
    [IndexComponent("a", false), IndexComponent("b", false), IndexComponent("id", false)], [SortKey("a", false)],
    [], [SortKey("b", false), SortKey("a", false), SortKey("id", false)])

  lemma OpenVisible(cs: seq<IndexComponent>, keys: seq<SortKey>)
    ensures Visible(keys, FixedColumns(cs, 0)) == keys
  {
    assert FixedColumns(cs, 0) == {};
    NothingFixed(keys);
  }

  lemma {:induction false} NothingFixed(keys: seq<SortKey>)
    ensures Visible(keys, {}) == keys
  {
    if keys != [] { NothingFixed(keys[1..]); }
  }


  lemma {:induction false} OpenAll(keys: seq<SortKey>)
    ensures Open(keys, []) == keys
  {
    if keys != [] { OpenAll(keys[1..]); }
  }

  /** Without filters there may be many rows. */
  lemma {:induction false} ManyRows(b: Builtins, q: Paged)
    requires q.fixed == [] && forall u <- q.ds :: u.components != []
    ensures LeadingConstraints(q.Stages(), false) == [] && q.Prefix() == 0
    ensures !KeyDecides(b, q.Schema(), q.ds, q.Stages(), [])
  {
    hide MustBeUnique, Proven, LeadingFilters;
    StagesShape(q);
    forall u <- q.ds ensures !Pinned(u.components, [], []) { assert !FixedBy([], u.components[0].column); }
    assert q.d.components == [] || !FixedBy([], q.d.components[0].column);
  }

  /** No front is safe when the first key already goes wrong. */
  lemma {:induction false} FirstKeyWrong(b: Builtins, q: Paged, reverse: bool)
    requires q.fixed == [] && q.keys != [] && (forall u <- q.ds :: u.components != []) && q.d.components != []
    requires q.Stages()[q.SortAt()..] == [Sort(q.keys), Page(q.size)] && Seeks(q.d.components, 0, q.keys)
    requires var k, c := q.keys[0], q.d.components[0];
             k.column != c.column || (k.descending != c.descending) != reverse
    ensures !SeekSafe(b, q.Schema(), q.ds, q.d.components, 0, reverse, q.Stages(), q.SortAt())
  {
    hide KeyDecides, LeadingConstraints, Visible, Survives, ZeroFilters, LeadingFilters, Seeks;
    ManyRows(b, q);
    StagesShape(q);
    forall n | 0 <= n <= |q.keys|
      ensures !SafeFront(b, q.Schema(), q.ds, q.d.components, 0, reverse, q.Stages(), q.SortAt(), n)
    {
      OpenAll(q.keys[..n]);
      if n == 0 {
        assert q.keys[..0] == [];
      } else {
        var bounded := q.d.components[..Bounded(q.d.components, 0, q.keys, 0)];
        assert bounded != [] ==> bounded[0] == q.d.components[0] && !FixedBy([], bounded[0].column);
        assert q.keys[..n][0] == q.keys[0];
      }
    }
  }

  lemma OppositePlain()
    ensures Plain(OPPOSITE, true) && OPPOSITE.Stages() == OPPOSITE.Behind() && OPPOSITE.Prefix() == 0
    ensures Seeks(OPPOSITE.d.components, 0, OPPOSITE.keys)
  {
    hide Visible;
    var q := OPPOSITE;
    var cs := q.d.components;
    assert !FixedBy([], cs[0].column);
    OpenVisible(cs, q.first);
    OpenVisible(cs, q.keys);
    assert FiltersEnd(q.Stages(), 0) == Some(0);
    assert cs[0].column in ColumnNames(q.columns);
    assert ViewOf(q.Before(), 1, "id", Stored) == Stored;
    assert q.keys[0] in q.keys;
    assert Bounded(cs, 0, q.keys, 1) == 1;
  }

  /** Each of the three is accepted, and the seek loses a row of its page. */
  lemma OppositeSorts(b: Builtins)
    requires PlainBuiltins(b)
    ensures var q := OPPOSITE;
            && Plain(q, true) && q.SortAt() < |q.Stages()| && q.Stages()[q.SortAt()] == Sort(q.keys)
            && !LosesNothing(b, q.Schema(), q.ds, q.d, q.Stages(), true, q.SortAt())
  {
    hide LosesNothing, Plain, Seeks, SeekSafe, ZeroFilters;
    OppositePlain();
    SeekExact(b, OPPOSITE, true);
    FirstKeyWrong(b, OPPOSITE, true);
  }

  lemma DerivedSeeks()
    ensures Seeks(DERIVED.d.components, 0, DERIVED.keys)
  {
    hide Visible;
    var cs, keys := DERIVED.d.components, DERIVED.keys;
    OpenVisible(cs, keys);
    assert keys[0] in keys && keys[1] in keys;
    assert Bounded(cs, 0, keys, 2) == 2 && Bounded(cs, 0, keys, 1) == 2;
  }

  lemma DerivedPrepared()
    ensures Prepared(DERIVED) && DERIVED.Stages() == DERIVED.Behind() && DERIVED.Prefix() == 0
  {
    var q := DERIVED;
    var before := q.Before();
    assert !FixedBy([], q.d.components[0].column);
    assert q.columns[0].column in ColumnNames(q.columns) && q.columns[1].column in ColumnNames(q.columns);
    assert ViewOf(before, 2, "id", Stored) == Stored && ViewOf(before, 2, "x", Derived) == Derived;
    assert ViewOf(before, 1, "id", Stored) == Stored && ViewOf(before, 1, "x", Stored) == Derived;
  }

  lemma DerivedPlain()
    ensures Plain(DERIVED, false) && DERIVED.Stages() == DERIVED.Behind() && DERIVED.Prefix() == 0
  {
    hide Visible, Prepared;
    var q := DERIVED;
    DerivedPrepared();
    OpenVisible(q.d.components, q.first);
    assert FiltersEnd(q.Stages(), 0) == Some(0);
    assert q.columns[1].column in ColumnNames(q.columns);
  }

  lemma DerivedColumn(b: Builtins)
    requires PlainBuiltins(b)
    ensures var q := DERIVED;
            && Plain(q, false) && q.SortAt() < |q.Stages()| && q.Stages()[q.SortAt()] == Sort(q.keys)
            && !LosesNothing(b, q.Schema(), q.ds, q.d, q.Stages(), false, q.SortAt())
  {
    hide LosesNothing, Plain, Seeks, ZeroFilters, KeyDecides, SafeFront, Visible;
    var q := DERIVED;
    DerivedPlain();
    DerivedSeeks();
    SeekExact(b, q, false);
    ManyRows(b, q);
    OpenVisible(q.d.components, q.keys);
    assert q.Before()[1] == Derive("x") && q.Before()[1] in q.Before();
    assert !Survives(q.Before(), "x") && q.keys[0] in q.keys && q.keys[0].column == "x";
  }

  lemma PermutedSeeks()
    ensures Seeks(PERMUTED.d.components, 0, PERMUTED.keys)
  {
    hide Visible;
    var cs, keys := PERMUTED.d.components, PERMUTED.keys;
    OpenVisible(cs, keys);
    assert keys[0] in keys && keys[1] in keys && keys[2] in keys;
    assert Bounded(cs, 0, keys, 3) == 3 && Bounded(cs, 0, keys, 2) == 3 && Bounded(cs, 0, keys, 1) == 3;
  }

  lemma PermutedPrepared()
    ensures Prepared(PERMUTED) && PERMUTED.Stages() == PERMUTED.Behind() && PERMUTED.Prefix() == 0
  {
    var q := PERMUTED;
    var before := q.Before();
    assert !FixedBy([], q.d.components[0].column);
    forall k <- q.keys ensures FinalView(q.columns, before, k.column) == Stored {
      assert q.columns[0].column == "a" && q.columns[1].column == "b" && q.columns[2].column == "id";
      assert ViewOf(before, 1, k.column, Stored) == Stored;
    }
  }

  lemma PermutedPlain()
    ensures Plain(PERMUTED, false) && PERMUTED.Stages() == PERMUTED.Behind() && PERMUTED.Prefix() == 0
  {
    hide Visible, Prepared;
    var q := PERMUTED;
    PermutedPrepared();
    OpenVisible(q.d.components, q.first);
    assert FiltersEnd(q.Stages(), 0) == Some(0);
    assert q.columns[2].column in ColumnNames(q.columns);
  }

  lemma PermutedOrder(b: Builtins)
    requires PlainBuiltins(b)
    ensures var q := PERMUTED;
            && Plain(q, false) && q.SortAt() < |q.Stages()| && q.Stages()[q.SortAt()] == Sort(q.keys)
            && !LosesNothing(b, q.Schema(), q.ds, q.d, q.Stages(), false, q.SortAt())
  {
    hide LosesNothing, Plain, Seeks, SeekSafe, ZeroFilters;
    PermutedPlain();
    PermutedSeeks();
    SeekExact(b, PERMUTED, false);
    FirstKeyWrong(b, PERMUTED, false);
  }

  // ---- A unique index that decides early --------------------------------------------------------

  /** `sort u, id | sort u, id desc | page` with a unique index on `u`: the two sorts disagree
      only behind a key that leaves no ties. */
  const DECIDED: Paged :=
    var d := IntIndex([IndexComponent("u", false), IndexComponent("id", false)]);
    var unique := IndexDefinition("u", [IndexComponent("u", false)], true, None);
    Paged(d.components, [d, PrimaryDefinition("id"), unique], d, [], [SortKey("u", false), SortKey("id", false)], [],
          [SortKey("u", false), SortKey("id", true)], 1, "id")

  lemma DecidedPrepared()
    ensures Prepared(DECIDED) && DECIDED.Stages() == DECIDED.Behind() && DECIDED.Prefix() == 0
    ensures DECIDED.Before() == [Sort(DECIDED.first)]
  {
    var q := DECIDED;
    var before := q.Before();
    assert !FixedBy([], q.d.components[0].column);
    assert q.columns[0].column in ColumnNames(q.columns) && q.columns[1].column in ColumnNames(q.columns);
    assert ViewOf(before, 1, "id", Stored) == Stored && ViewOf(before, 1, "u", Stored) == Stored;
  }

  lemma DecidedPlain()
    ensures Plain(DECIDED, false) && DECIDED.Stages() == DECIDED.Behind() && DECIDED.Prefix() == 0
    ensures DECIDED.Before() == [Sort(DECIDED.first)]
  {
    hide Visible, Prepared;
    var q := DECIDED;
    DecidedPrepared();
    OpenVisible(q.d.components, q.first);
    assert FiltersEnd(q.Stages(), 0) == Some(0);
    assert q.columns[0].column in ColumnNames(q.columns) && q.columns[1].column in ColumnNames(q.columns);
  }

  /** It loses nothing, although the page order does not run along the index. */
  lemma DecidedEarly(b: Builtins)
    requires PlainBuiltins(b)
    ensures var q := DECIDED;
            && Plain(q, false) && q.SortAt() < |q.Stages()| && q.Stages()[q.SortAt()] == Sort(q.keys)
            && LosesNothing(b, q.Schema(), q.ds, q.d, q.Stages(), false, q.SortAt())
  {
    hide LosesNothing, Plain, ZeroFilters, Visible, KeyDecides, Bounded, Survives;
    var q := DECIDED;
    DecidedPlain();
    SeekExact(b, q, false);
    ManyRows(b, q);
    var cs, front := q.d.components, q.keys[..1];
    assert front == [SortKey("u", false)];
    DecidedKey(b);
    VisibleMembers(q.keys, FixedColumns(cs, 0));
    OpenAll(front);
    DecidedRuns();
    assert SafeFront(b, q.Schema(), q.ds, cs, 0, false, q.Stages(), q.SortAt(), 1);
  }

  lemma DecidedKey(b: Builtins)
    ensures KeyDecides(b, DECIDED.Schema(), DECIDED.ds, DECIDED.Stages(), [SortKey("u", false)])
    ensures forall k <- DECIDED.keys :: Survives(DECIDED.Before(), k.column)
  {
    hide ZeroFilters, Proven;
    var q, front := DECIDED, [SortKey("u", false)];
    var u := q.ds[2];
    DecidedPrepared();
    ManyRows(b, q);
    forall k <- q.keys ensures Survives(q.Before(), k.column) {
      FollowNothing(q.Before(), 0, k.column, Start(k.column));
    }
    assert u in q.ds && MustBeUnique(q.Schema(), u) && front[0] in front;
    TotalProven(b, u, LeadingFilters(q.Stages()));
    assert Pinned(u.components, front, []);
  }

  lemma DecidedRuns()
    ensures var cs := DECIDED.d.components;
            Runs(cs[..Bounded(cs, 0, DECIDED.keys, 0)], [SortKey("u", false)], [], false)
  {
    var cs, keys := DECIDED.d.components, DECIDED.keys;
    assert keys[0] in keys && keys[1] in keys;
    assert Bounded(cs, 0, keys, 2) == 2 && Bounded(cs, 0, keys, 1) == 2;
    assert !FixedBy([], cs[0].column);
    assert cs[..2] == cs;
  }
}
