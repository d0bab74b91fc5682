/** Seeking to a page: the cursor's values become a byte boundary inside the planned index
    range, so that a scan starts right after (or before) the boundary row. */
module PageSeek {
  import opened Bytes
  import opened Model
  import opened OrderedKey
  import opened KeyBounds
  import opened Schema
  import opened Postings
  import opened TableStore
  import opened Expressions
  import opened Planner
  import opened IndexPredicates
  import opened IndexScan
  import opened IndexAccess
  import opened OrderedScan
  import Paging

  // ---- The boundary tuple -----------------------------------------------------------------------

  function FixedValue(cs: seq<IndexComponent>, equality: seq<Value>, column: string): (r: Option<Value>)
    requires |equality| <= |cs|
  {
    if equality == [] then None
    else if cs[0].column == column then Some(equality[0])
    else FixedValue(cs[1..], equality[1..], column)
  }

  function OrderValue(keys: seq<SortKey>, boundary: seq<Value>, column: string): Option<Value> {
    if keys == [] || boundary == [] then None
    else if keys[0].column == column then Some(boundary[0])
    else OrderValue(keys[1..], boundary[1..], column)
  }

  function BoundaryValue(
    cs: seq<IndexComponent>, equality: seq<Value>, keys: seq<SortKey>, boundary: seq<Value>,
    column: string): Option<Value>
    requires |equality| <= |cs|
  {
    var v := FixedValue(cs, equality, column);
    if v.Some? then v else OrderValue(keys, boundary, column)
  }

  /** One value per leading component, up to the first that neither the equality prefix nor
      the cursor fixes. */
  function BoundaryValues(
    cs: seq<IndexComponent>, equality: seq<Value>, keys: seq<SortKey>, boundary: seq<Value>, i: nat): (r: seq<Value>)
    requires |equality| <= |cs| && i <= |cs|
    ensures |r| <= |cs| - i
    decreases |cs| - i
  {
    if i == |cs| then [] else
    var v := BoundaryValue(cs, equality, keys, boundary, cs[i].column);
    if v.None? then [] else [v.value] + BoundaryValues(cs, equality, keys, boundary, i + 1)
  }

  /** The cursor does not reach far enough to seek, or a value of it has no key under the
      index, or the scan starts at the encoded tuple. */
  datatype Seek = NoSeek | Unencodable | From(key: Key)

  function SeekAt(
    catalog: Catalog, cs: seq<IndexComponent>, comps: seq<Component>, equality: seq<Value>, keys: seq<SortKey>,
    boundary: seq<Value>): Seek
    requires |equality| <= |cs| == |comps|
  {
    var bound := BoundaryValues(cs, equality, keys, boundary, 0);
    if |bound| < Reach(keys, cs, |equality|) then NoSeek else
    var key := EncodeComponents(catalog, comps[..|bound|], bound);
    if key.None? then Unencodable else From(key.value)
  }

  // ---- What the boundary tuple is ---------------------------------------------------------------

  lemma {:induction false} FixedValueAt(cs: seq<IndexComponent>, equality: seq<Value>, i: nat)
    requires DistinctComponents(cs) && |equality| <= |cs| && i < |cs|
    ensures FixedValue(cs, equality, cs[i].column) == if i < |equality| then Some(equality[i]) else None
  {
    if equality != [] && i > 0 { FixedValueAt(cs[1..], equality[1..], i - 1); }
  }

  /** The cursor of a row gives, for a sort column, the row's own value. */
  lemma {:induction false} OrderValueOf(keys: seq<SortKey>, boundary: seq<Value>, y: Fields, column: string)
    requires |boundary| == |keys| && forall i :: 0 <= i < |keys| ==> RowField(y, keys[i].column) == Some(boundary[i])
    ensures OrderValue(keys, boundary, column) ==
            if exists k <- keys :: k.column == column then RowField(y, column) else None
  {
    hide RowField;
    if keys != [] {
      OrderValueOf(keys[1..], boundary[1..], y, column);
      assert forall k :: k in keys <==> k == keys[0] || k in keys[1..];
    }
  }

  ghost predicate CursorOf(y: Fields, keys: seq<SortKey>, boundary: seq<Value>) {
    |boundary| == |keys| && forall k :: 0 <= k < |keys| ==> RowField(y, keys[k].column) == Some(boundary[k])
  }

  lemma BoundaryAt(
    t: TableSchema, cs: seq<IndexComponent>, comps: seq<Component>, equality: seq<Value>, keys: seq<SortKey>,
    boundary: seq<Value>, y: Fields, ys: seq<Value>, i: nat)
    requires TypedRow(t, cs, comps, ys, y) && DistinctComponents(cs) && |equality| <= |cs| && i < |cs|
    requires CursorOf(y, keys, boundary) && Along(keys, cs, |equality|)
    ensures BoundaryValue(cs, equality, keys, boundary, cs[i].column) ==
            if i < |equality| then Some(equality[i]) else if i < Reach(keys, cs, |equality|) then Some(ys[i]) else None
  {
    hide RowField, FieldType, Encodes, Visible;
    var m := |equality|;
    var visible := Visible(keys, FixedColumns(cs, m));
    VisibleMembers(keys, FixedColumns(cs, m));
    FixedValueAt(cs, equality, i);
    OrderValueOf(keys, boundary, y, cs[i].column);
    if m <= i < Reach(keys, cs, m) {
      assert visible[i - m].column == cs[m..][i - m].column && visible[i - m] in visible;
    } else if i >= m {
      forall k <- keys ensures k.column != cs[i].column { KeyWithinReach(keys, cs, m, k, i); }
    }
  }

  /** With the page's own sort matched to the index, the boundary tuple is the equality
      prefix followed by the boundary row's own components. */
  lemma {:induction false} BoundaryIs(
    t: TableSchema, cs: seq<IndexComponent>, comps: seq<Component>, equality: seq<Value>, keys: seq<SortKey>,
    boundary: seq<Value>, y: Fields, ys: seq<Value>, i: nat)
    requires TypedRow(t, cs, comps, ys, y) && DistinctComponents(cs) && |equality| <= |cs|
    requires CursorOf(y, keys, boundary) && Along(keys, cs, |equality|) && i <= Reach(keys, cs, |equality|)
    ensures BoundaryValues(cs, equality, keys, boundary, i) ==
            (equality + ys[|equality|..Reach(keys, cs, |equality|)])[i..]
    decreases |cs| - i
  {
    hide RowField, FieldType, Encodes, Visible, BoundaryValue, CursorOf, DistinctComponents, SameColumns;
    var m, q := |equality|, Reach(keys, cs, |equality|);
    var all := equality + ys[m..q];
    if i < |cs| {
      BoundaryAt(t, cs, comps, equality, keys, boundary, y, ys, i);
      if i < q {
        BoundaryIs(t, cs, comps, equality, keys, boundary, y, ys, i + 1);
        assert all[i..] == [all[i]] + all[i+1..];
      }
    }
  }

  // ---- Which side of the boundary a key is on ---------------------------------------------------

  /** A key against the boundary of its first components. */
  lemma BoundarySides(catalog: Catalog, comps: seq<Component>, xs: seq<Value>, bound: seq<Value>)
    requires |bound| <= |comps| == |xs|
    requires EncodeComponents(catalog, comps, xs).Some? && EncodeComponents(catalog, comps[..|bound|], bound).Some?
    ensures CompareComponents(catalog, comps[..|bound|], xs[..|bound|], bound).Some?
    ensures var k, x := EncodeComponents(catalog, comps, xs).value,
            EncodeComponents(catalog, comps[..|bound|], bound).value;
            var o := CompareComponents(catalog, comps[..|bound|], xs[..|bound|], bound).value;
            && (Compare(k, x) == Less <==> o == Less)
            && (Compare(k, x) == Greater && !(x <= k) <==> o == Greater)
  {
    hide EncodeComponents, CompareComponents, Compare;
    var q := |bound|;
    PrefixExact(catalog, comps, xs, bound);
    TupleOrder(catalog, comps[..q], xs[..q], bound);
    var k, x := EncodeComponents(catalog, comps, xs).value, EncodeComponents(catalog, comps[..q], bound).value;
    var own, rest := EncodeComponents(catalog, comps[..q], xs[..q]).value,
                     EncodeComponents(catalog, comps[q..], xs[q..]).value;
    var o := CompareComponents(catalog, comps[..q], xs[..q], bound).value;
    SuccessorSplits(x, k);
    if o != Equal {
      DecidesConcat(own, x, o, rest, [], Equal);
      assert x + [] == x;
      DecidesIsCompare(k, x, o);
    }
  }

  /** Against the boundary tuple of a row, a row of the same range compares as the page
      order compares the two rows, turned when the order runs against the index. */
  lemma BoundaryOrder(
    t: TableSchema, keys: seq<SortKey>, cs: seq<IndexComponent>, comps: seq<Component>, equality: seq<Value>,
    xs: seq<Value>, ys: seq<Value>, x: Fields, y: Fields, flip: bool)
    requires TypedRow(t, cs, comps, xs, x) && TypedRow(t, cs, comps, ys, y) && |equality| <= |cs|
    requires var m := |equality|;
             && CompareComponents(t.catalog, comps[..m], xs[..m], equality) == Some(Equal)
             && SamePrefix(t.catalog, comps, m, xs, ys)
    requires var visible := Visible(keys, FixedColumns(cs, |equality|));
             |visible| <= |cs| - |equality| && SameColumns(visible, cs[|equality|..])
               && SameDirections(visible, cs[|equality|..], flip)
    ensures var m := |equality|;
            var q := m + |Visible(keys, FixedColumns(cs, m))|;
            CompareRows(t, keys, x, y) ==
              Turned(CompareComponents(t.catalog, comps[..q], xs[..q], equality + ys[m..q]), flip)
  {
    hide FieldType, RowField, Encodes, CompareComponents, CompareRows, Visible;
    var m := |equality|;
    var visible := Visible(keys, FixedColumns(cs, m));
    var n := |visible|;
    var q := m + n;
    FixedKeysEqual(t, keys, cs, comps, m, xs, ys, x, y);
    RestTyped(t, cs, comps, xs, x, m);
    RestTyped(t, cs, comps, ys, y, m);
    VisibleOrder(t, visible, cs[m..], comps[m..], xs[m..], ys[m..], x, y, flip);
    var bound := equality + ys[m..q];
    ComponentsThen(t.catalog, comps[..q], xs[..q], bound, m);
    assert comps[..q][..m] == comps[..m] && xs[..q][..m] == xs[..m] && bound[..m] == equality;
    assert comps[..q][m..] == comps[m..][..n] && xs[..q][m..] == xs[m..][..n] && bound[m..] == ys[m..][..n];
  }

  // ---- Seeking ----------------------------------------------------------------------------------

  /** The planned read of a page: the range, narrowed to one side of the boundary. */
  function SeekScan(scan: Scan, boundary: Key, greater: bool): Scan {
    if !scan.Range? then scan else
    var b := PageSeekBounds(scan.bounds.start, scan.bounds.end, boundary, greater);
    if b.None? then Nothing else Range(b.value)
  }

  /** The scan side: after the boundary when reading forward along the index. */
  function Greaterwards(direction: Paging.Direction, reverse: bool): bool {
    if direction == Paging.Forward then !reverse else reverse
  }

  predicate OnAskedSide(direction: Paging.Direction, o: Option<Ordering>) {
    o == Some(if direction == Paging.Forward then Greater else Less)
  }

  ghost predicate SeekKeeps(catalog: Catalog, comps: seq<Component>, a: Access, seek: Key, greater: bool, k: Key)
    requires a.Access? && Used(a) <= |comps|
  {
    Selects(SeekScan(PlanBounds(catalog, comps, a), seek, greater), k)
  }

  /** For a row of the planned range: a seek for an order that runs along the index the way
      the matched sort does keeps the row exactly when it lies beyond the boundary row. */
  lemma {:induction false} SeekSides(
    t: TableSchema, keys: seq<SortKey>, cs: seq<IndexComponent>, comps: seq<Component>, a: Access,
    xs: seq<Value>, ys: seq<Value>, x: Fields, y: Fields, boundary: seq<Value>, direction: Paging.Direction,
      reverse: bool)
    requires a.Access? && Used(a) <= |cs| && DistinctComponents(cs)
    requires TypedRow(t, cs, comps, xs, x) && TypedRow(t, cs, comps, ys, y) && AccessEncodes(t.catalog, comps, a)
    requires EncodeComponents(t.catalog, comps, xs).Some? && EncodeComponents(t.catalog, comps, ys).Some?
    requires AccessHolds(t.catalog, comps, xs, a) && AccessHolds(t.catalog, comps, ys, a)
    requires CursorOf(y, keys, boundary) && Along(keys, cs, |a.equality|)
    requires SameDirections(Visible(keys, FixedColumns(cs, |a.equality|)), cs[|a.equality|..], reverse)
    ensures var seek, o, k := SeekAt(t.catalog, cs, comps, a.equality, keys, boundary), CompareRows(t, keys, x, y),
                              EncodeComponents(t.catalog, comps, xs).value;
            && seek.From? && o.Some?
            && (SeekKeeps(t.catalog, comps, a, seek.key, Greaterwards(direction, reverse), k) <==>
                OnAskedSide(direction, o))
  {
    hide FieldType, RowField, Encodes, CompareComponents, CompareRows, EncodeComponents, Compare, PlanBounds,
      Contains, PageSeekBounds, BoundaryValues, Visible;
    var m := |a.equality|;
    var q := Reach(keys, cs, m);
    var bound := a.equality + ys[m..q];
    BoundaryIs(t, cs, comps, a.equality, keys, boundary, y, ys, 0);
    assert bound[0..] == bound;
    AccessSamePrefix(t.catalog, comps, xs, ys, a);
    BoundEncodes(t.catalog, comps, a, ys, q);
    BoundarySides(t.catalog, comps, xs, bound);
    BoundaryOrder(t, keys, cs, comps, a.equality, xs, ys, x, y, reverse);
    BoundsExact(t.catalog, comps, xs, a);
    var scan, k := PlanBounds(t.catalog, comps, a), EncodeComponents(t.catalog, comps, xs).value;
    var seek := EncodeComponents(t.catalog, comps[..q], bound).value;
    PageSeekExact(scan.bounds.start, scan.bounds.end, seek, Greaterwards(direction, reverse), k);
  }

  lemma BoundEncodes(catalog: Catalog, comps: seq<Component>, a: Access, ys: seq<Value>, q: nat)
    requires a.Access? && |comps| == |ys| && Used(a) <= |comps| && |a.equality| <= q <= |comps|
             && AccessEncodes(catalog, comps, a)
    requires EncodeComponents(catalog, comps, ys).Some?
    ensures EncodeComponents(catalog, comps[..q], a.equality + ys[|a.equality|..q]).Some?
  {
    hide Encodes, EncodeComponents;
    ComponentsEncode(catalog, comps, ys);
    ComponentsEncode(catalog, comps[..q], a.equality + ys[|a.equality|..q]);
  }

  // ---- The scan of a page -----------------------------------------------------------------------

  /** Every component is fixed: one key is looked up and there is nothing to seek in. */
  predicate ExactLookup(cs: seq<IndexComponent>, a: Access)
    requires a.Access?
  {
    a.range.None? && |a.equality| == |cs|
  }

  /** The scan of a page request with these sort keys. */
  function PageScan(
    t: TableSchema, d: IndexDefinition, stages: seq<Stage>, keys: seq<SortKey>, boundary: Option<seq<Value>>,
    greater: bool): Scan
  {
    var comps, a := BoundComponents(t, d.components),
                    MatchComponents(t, d.components, LeadingConstraints(stages, false));
    if comps.None? || a.Broken? || Used(a) > |comps.value| then Scan.Failed else
    var scan := PlanBounds(t.catalog, comps.value, a);
    if boundary.None? || a.impossible then scan else
    var seek := SeekAt(t.catalog, d.components, comps.value, a.equality, keys, boundary.value);
    if seek.Unencodable? then Scan.Failed
    else if seek.NoSeek? || ExactLookup(d.components, a) then scan
    else SeekScan(scan, seek.key, greater)
  }

  /** The page order runs along the index behind the equality prefix, the way the matched
      sort does. */
  ghost predicate RunsAlong(t: TableSchema, d: IndexDefinition, stages: seq<Stage>, keys: seq<SortKey>, reverse: bool) {
    var a := MatchComponents(t, d.components, LeadingConstraints(stages, false));
    && a.Access? && |a.equality| <= |d.components| && Along(keys, d.components, |a.equality|)
    && SameDirections(Visible(keys, FixedColumns(d.components, |a.equality|)), d.components[|a.equality|..], reverse)
  }

  lemma MatchedRunsAlong(t: TableSchema, d: IndexDefinition, stages: seq<Stage>, sm: SortMatch)
    requires Satisfies(t, d, stages, sm)
    ensures RunsAlong(t, d, stages, stages[sm.position].keys, sm.reverse)
  {
    hide MatchComponents, LeadingConstraints, Visible, LetsEnd, FiltersEnd;
  }

  /** Of the rows that pass the filters, a seek for an order along the index reads exactly
      those beyond the boundary row; a lookup of one complete key reads them all. */
  lemma {:induction false} PageScanSelects(
    b: Builtins, t: TableSchema, d: IndexDefinition, stages: seq<Stage>, keys: seq<SortKey>, reverse: bool,
    x: Fields, y: Fields, boundary: seq<Value>, direction: Paging.Direction)
    requires BoundFilters(b, t, LeadingFilters(stages)) && DistinctComponents(d.components)
    requires RunsAlong(t, d, stages, keys, reverse)
    requires FiledKey(t, d, x).Some? && FiledKey(t, d, y).Some?
    requires Passes(b, LeadingFilters(stages), RowResolver(x)) == Some(true)
    requires Passes(b, LeadingFilters(stages), RowResolver(y)) == Some(true)
    requires CursorOf(y, keys, boundary)
    ensures !PageScan(t, d, stages, keys, Some(boundary), Greaterwards(direction, reverse)).Failed?
    ensures Selects(PageScan(t, d, stages, keys, Some(boundary), Greaterwards(direction, reverse)),
                    FiledKey(t, d, x).value) <==>
            ExactLookup(d.components, MatchComponents(t, d.components, LeadingConstraints(stages, false))) ||
            OnAskedSide(direction, CompareRows(t, keys, x, y))
  {
    hide FiledKey, BoundFilters, LeadingFilters, LeadingConstraints, MatchComponents, Passes, CompareRows,
      EncodeComponents, CursorOf, AccessEncodes, UsedHold, LiteralsEncode, BoundComponents, FieldType, RowField,
      Encodes, SimpleComparison, SeekAt, Visible, SameDirections, DistinctComponents, PlanBounds, Selects, Along,
      PageSeekBounds;
    var cs, constraints := d.components, LeadingConstraints(stages, false);
    var a := MatchComponents(t, cs, constraints);
    var comps, xs := FiledTyped(t, d, x);
    var comps', ys := FiledTyped(t, d, y);
    LeadingAreSimple(stages, false);
    LeadingLiteralsEncode(b, t, cs, stages);
    AccessExact(t, cs, comps, xs, constraints, x);
    AccessExact(t, cs, comps, ys, constraints, y);
    PassingHolds(b, t, d, stages, x, Used(a));
    PassingHolds(b, t, d, stages, y, Used(a));
    BoundsExact(t.catalog, comps, xs, a);
    SeekSides(t, keys, cs, comps, a, xs, ys, x, y, boundary, direction, reverse);
  }

  /** The rows read through a seek for an order along the index, filtered, are exactly the
      rows the full scan keeps that lie beyond the boundary row. A lookup of one complete
      key reads all of them. */
  lemma {:induction false} SeekPageRows(
    b: Builtins, t: TableSchema, d: IndexDefinition, p: Posting, ks: seq<Key>, rows: seq<Row>, stages: seq<Stage>,
    keys: seq<SortKey>, reverse: bool, y: Row, boundary: seq<Value>, direction: Paging.Direction, backwards: bool)
    requires Readable(b, t, d, p, ks, rows, stages) && DistinctComponents(d.components)
    requires BoundFilters(b, t, LeadingFilters(stages)) && Proven(b, d, LeadingFilters(stages))
    requires RunsAlong(t, d, stages, keys, reverse)
    requires y in rows && Passes(b, LeadingFilters(stages), RowResolver(y.fields)) == Some(true)
    requires CursorOf(y.fields, keys, boundary)
    ensures var scan := PageScan(t, d, stages, keys, Some(boundary), Greaterwards(direction, reverse));
            var read, all := ReadRows(b, p, ks, RowMapOf(rows), scan, backwards, stages),
                             Kept(b, LeadingFilters(stages), rows);
            var exact := ExactLookup(d.components, MatchComponents(t, d.components, LeadingConstraints(stages, false)));
            && read.Some? && all.Some?
            && forall r :: r in read.value <==>
                 r in all.value && (exact || OnAskedSide(direction, CompareRows(t, keys, r.fields, y.fields)))
  {
    hide RowMapOf, FilingOf, Lists, KeysOf, LeadingFilters, PageScan, Selects, ScannedIds, Passes, Kept, RowsAt,
      Unfileable, BoundFilters, Proven, MatchComponents, LeadingConstraints, CompareRows, FiledKey, CursorOf,
      DistinctComponents, ExactLookup, PlanScan, Along, Visible, SameDirections;
    var rm, filters := RowMapOf(rows), LeadingFilters(stages);
    var scan := PageScan(t, d, stages, keys, Some(boundary), Greaterwards(direction, reverse));
    var f, ids := FilingOf(t, d, rm), ScannedIds(p, ks, scan, backwards);
    RowMapMembers(rows);
    RowsAtMembers(rm, ids);
    ScannedMeaning(p, f, ks, scan, backwards);
    KeptMembers(b, filters, rows);
    KeptMembers(b, filters, RowsAt(rm, ids));
    var all, read := Kept(b, filters, rows).value, Kept(b, filters, RowsAt(rm, ids)).value;
    PassingSelected(b, t, d, stages, y.fields);
    var exact := ExactLookup(d.components, MatchComponents(t, d.components, LeadingConstraints(stages, false)));
    hide RunsAlong;
    forall r
      ensures r in read <==> r in all && (exact || OnAskedSide(direction, CompareRows(t, keys, r.fields, y.fields)))
    {
      if r in all {
        PassingSelected(b, t, d, stages, r.fields);
        FilingAt(t, d, rm, r.id);
        PageScanSelects(b, t, d, stages, keys, reverse, r.fields, y.fields, boundary, direction);
      }
    }
  }
}
