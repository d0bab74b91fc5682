/** Pages read through an index: the scan is sought to the cursor, read in the page's
    direction, cut after one row more than the page, and gives the page that sorting the
    whole result would give. */
module PageReads {
  import opened Bytes
  import opened Model
  import opened OrderedKey
  import opened KeyBounds
  import opened Schema
  import opened Postings
  import opened TableStore
  import opened Tables
  import opened Expressions
  import opened Planner
  import opened IndexPredicates
  import opened IndexScan
  import opened IndexAccess
  import opened OrderedScan
  import opened PageOrders
  import opened PageSeek
  import opened SeekConditions
  import opened Selections
  import opened IndexReads
  import Paging

  // ---- Rows beyond a boundary -------------------------------------------------------------------

  /** What each row looks like when it reaches the page. */
  type Showing = Row -> Fields

  function Image(view: Showing, rows: seq<Row>): (r: seq<Fields>)
    ensures |r| == |rows| && forall i :: 0 <= i < |rows| ==> r[i] == view(rows[i])
  {
    seq(|rows|, i requires 0 <= i < |rows| => view(rows[i]))
  }

  /** The rows the page may take, in their order. */
  function BeyondRows(
    catalog: Catalog, order: seq<Paging.OrderKey>, view: Showing, rows: seq<Row>, q: Paging.PageRequest): seq<Row> {
    if rows == [] then []
    else
      var front, last := rows[..|rows|-1], rows[|rows|-1];
      BeyondRows(catalog, order, view, front, q) + if Paging.Beyond(catalog, order, view(last), q) then [last] else []
  }

  lemma {:induction false} BeyondMembers(
    catalog: Catalog, order: seq<Paging.OrderKey>, view: Showing, rows: seq<Row>, q: Paging.PageRequest)
    ensures forall r :: r in BeyondRows(catalog, order, view, rows, q) <==>
                          r in rows && Paging.Beyond(catalog, order, view(r), q)
  {
    hide Paging.Beyond;
    if rows != [] {
      var front, last := rows[..|rows|-1], rows[|rows|-1];
      BeyondMembers(catalog, order, view, front, q);
      assert rows == front + [last];
    }
  }

  lemma {:induction false} BeyondOrder(
    catalog: Catalog, order: seq<Paging.OrderKey>, view: Showing, rows: seq<Row>, q: Paging.PageRequest, s: seq<Row>)
    requires InOrderOf(s, rows)
    ensures InOrderOf(s, BeyondRows(catalog, order, view, rows, q))
  {
    hide Paging.Beyond, Before;
    if rows != [] {
      var front, last := rows[..|rows|-1], rows[|rows|-1];
      BeyondOrder(catalog, order, view, front, q, s);
      BeyondMembers(catalog, order, view, front, q);
      var before := BeyondRows(catalog, order, view, front, q);
      forall i | 0 <= i < |before| ensures Before(s, before[i], last) {
        assert before[i] in front;
        var j :| 0 <= j < |front| && front[j] == before[i];
        assert rows[j] == before[i] && rows[|rows|-1] == last;
      }
    }
  }

  lemma ImagePush(view: Showing, rows: seq<Row>)
    requires rows != []
    ensures var n := |rows| - 1;
            && Image(view, rows)[..n] == Image(view, rows[..n]) && Image(view, rows)[n] == view(rows[n])
            && Image(view, rows) == Image(view, rows[..n]) + [view(rows[n])]
  {}

  lemma ImageAppend(view: Showing, rows: seq<Row>, r: Row)
    ensures Image(view, rows + [r]) == Image(view, rows) + [view(r)]
  {}

  lemma {:induction false} BeyondEligible(
    catalog: Catalog, order: seq<Paging.OrderKey>, view: Showing, rows: seq<Row>, q: Paging.PageRequest)
    ensures Paging.Eligible(catalog, order, Image(view, rows), q) ==
            Image(view, BeyondRows(catalog, order, view, rows, q))
  {
    hide Paging.Beyond, Image;
    if rows == [] {
      assert Image(view, rows) == [];
    } else {
      var n := |rows| - 1;
      BeyondEligible(catalog, order, view, rows[..n], q);
      ImagePush(view, rows);
      ImageAppend(view, BeyondRows(catalog, order, view, rows[..n], q), rows[n]);
    }
  }

  /** Reading only some rows, in the order of the whole result, leaves the page unchanged as
      long as no row beyond the boundary is missed. */
  lemma {:induction false} SameEligible(
    catalog: Catalog, order: seq<Paging.OrderKey>, view: Showing, full: seq<Row>, read: seq<Row>, q: Paging.PageRequest)
    requires Distinct(full) && InOrderOf(full, read) && forall r <- read :: r in full
    requires forall r <- full :: Paging.Beyond(catalog, order, view(r), q) ==> r in read
    ensures Paging.Eligible(catalog, order, Image(view, read), q) ==
            Paging.Eligible(catalog, order, Image(view, full), q)
  {
    hide Paging.Beyond, Paging.Eligible, BeyondRows, InOrderOf, Distinct;
    OwnOrder(full);
    BeyondMembers(catalog, order, view, full, q);
    BeyondMembers(catalog, order, view, read, q);
    BeyondOrder(catalog, order, view, full, q, full);
    BeyondOrder(catalog, order, view, read, q, full);
    BeyondEligible(catalog, order, view, full, q);
    BeyondEligible(catalog, order, view, read, q);
    SameSelection(full, BeyondRows(catalog, order, view, full, q), BeyondRows(catalog, order, view, read, q));
  }

  /** In a strictly ordered result, rows that compare as smaller or equal stand before. */
  lemma {:induction false} PlacesFollow(
    catalog: Catalog, order: seq<Paging.OrderKey>, view: Showing, full: seq<Row>, x: Row, y: Row)
    requires Paging.Strict(catalog, order, Image(view, full)) && x in full && y in full && x != y
    ensures Paging.Cursor(order, view(y)).Some?
    ensures var o := Paging.CompareBoundary(catalog, order, view(x), Paging.Cursor(order, view(y)).value);
            (o == Some(Less) || o == Some(Greater)) && (o == Some(Less) ==> Before(full, x, y))
  {
    hide Paging.Cursor, Paging.CompareBoundary;
    var i :| 0 <= i < |full| && full[i] == x;
    var j :| 0 <= j < |full| && full[j] == y;
    assert Image(view, full)[i] == view(x) && Image(view, full)[j] == view(y);
  }

  lemma {:induction false} StrictDistinct(catalog: Catalog, order: seq<Paging.OrderKey>, view: Showing, full: seq<Row>)
    requires Paging.Strict(catalog, order, Image(view, full))
    ensures Distinct(full)
  {
    hide Paging.Cursor, Paging.CompareBoundary;
    var rows := Image(view, full);
    forall i, j | 0 <= i < j < |full| ensures full[i] != full[j] {
      assert Paging.CompareBoundary(catalog, order, rows[i], Paging.Cursor(order, rows[j]).value) ==
             Some(CompareInt(i, j));
      assert Paging.CompareBoundary(catalog, order, rows[j], Paging.Cursor(order, rows[j]).value) ==
             Some(CompareInt(j, j));
    }
  }

  // ---- Any safe seek ----------------------------------------------------------------------------

  /** The rows of the page's result: those that pass the leading filters and whatever filters
      follow, in the order of the page. */
  ghost predicate ResultOf(
    b: Builtins, rm: RowMap, stages: seq<Stage>, later: Row -> bool, full: seq<Row>) {
    forall r :: r in full <==>
      && r.id in rm && rm[r.id] == r.fields
      && Passes(b, LeadingFilters(stages), RowResolver(r.fields)) == Some(true) && later(r)
  }

  /** The scan of a page request reads the row. */
  ghost predicate ReadFor(
    t: TableSchema, d: IndexDefinition, stages: seq<Stage>, keys: seq<SortKey>, q: Paging.PageRequest, reverse: bool,
    fields: Fields) {
    && FiledKey(t, d, fields).Some?
    && Selects(PageScan(t, d, stages, keys, q.boundary, Greaterwards(q.direction, reverse)),
               FiledKey(t, d, fields).value)
  }

  /** Rows as the stages hand them to the sort. */
  function AtSort(before: seq<Stage>, derive: (nat, Fields) -> Value): Showing {
    (r: Row) => Transform(before, 0, derive, r.fields)
  }

  lemma NoPage(t: TableSchema, d: IndexDefinition, stages: seq<Stage>, keys: seq<SortKey>, greater: bool)
    ensures PageScan(t, d, stages, keys, None, greater) == PlanScan(t, d, stages)
  {
    hide BoundComponents, MatchComponents, LeadingConstraints, PlanBounds;
  }

  /** When the seek is safe, the page made of the rows it reads, sorted, is the page of the
      whole sorted result, whatever the stages between the two sorts do. */
  lemma {:induction false} SafePage(
    b: Builtins, t: TableSchema, ds: seq<IndexDefinition>, d: IndexDefinition, stages: seq<Stage>, sm: SortMatch,
    position: nat, rm: RowMap, derive: (nat, Fields) -> Value, later: Row -> bool, order: seq<Paging.OrderKey>,
    q: Paging.PageRequest, full: seq<Row>, read: seq<Row>, k: nat)
    requires Satisfies(t, d, stages, sm) && d in ds && DistinctComponents(d.components)
    requires BoundFilters(b, t, LeadingFilters(stages)) && Proven(b, d, LeadingFilters(stages))
    requires position < |stages| && stages[position].Sort? && Sound(t, ds, rm)
    requires var m := |MatchComponents(t, d.components, LeadingConstraints(stages, false)).equality|;
             SeekSafe(b, t, ds, d.components, m, sm.reverse, stages, position)
    requires OrderOf(t, stages[..position], stages[position].keys, order)
    requires ResultOf(b, rm, stages, later, full)
    requires forall r <- full :: Placed(t.catalog, order, Transform(stages[..position], 0, derive, r.fields))
    requires var view := AtSort(stages[..position], derive);
             && Paging.Strict(t.catalog, order, Image(view, full)) && Paging.Strict(t.catalog, order, Image(view, read))
             && Paging.At(order, Image(view, full), q.boundary, k)
    requires forall r :: r in read <==>
               r in full && ReadFor(t, d, stages, stages[position].keys, q, sm.reverse, r.fields)
    ensures var view := AtSort(stages[..position], derive);
            Paging.PageOf(order, Paging.Eligible(t.catalog, order, Image(view, read), q), q) ==
            Paging.PageOf(order, Paging.Eligible(t.catalog, order, Image(view, full), q), q)
  {
    hide Satisfies, DistinctComponents, BoundFilters, Proven, SeekSafe, OrderOf, Paging.Strict, Transform, Placed,
      Paging.Eligible, Paging.PageOf, LeadingFilters, LeadingConstraints, MatchComponents, Passes, Selects,
      PlanScan, FiledKey, InOrderOf, Distinct, Image, Paging.CompareBoundary, Paging.Cursor, RowResolver, PageScan,
      Unfileable;
    var view := AtSort(stages[..position], derive);
    StrictDistinct(t.catalog, order, view, full);
    StrictOrder(t.catalog, order, view, full, read);
    forall r <- full | Paging.Beyond(t.catalog, order, view(r), q) ensures r in read {
      assert !Unfileable(t, d, r.fields);
      if q.boundary.None? {
        NoPage(t, d, stages, stages[position].keys, Greaterwards(q.direction, sm.reverse));
        PassingSelected(b, t, d, stages, r.fields);
      } else {
        var y := full[k];
        assert Paging.Cursor(order, view(y)) == q.boundary;
        assert Asked(b, t, rm, stages, position, derive, order, q.boundary.value, q.direction, r.id, y.id);
        SafeSeek(b, t, ds, d, stages, sm, position, rm, derive, order, q.boundary.value, q.direction, r.id, y.id);
      }
    }
    SameEligible(t.catalog, order, view, full, read, q);
  }

  /** A strictly ordered part of a strictly ordered result is in its order. */
  lemma {:induction false} StrictOrder(
    catalog: Catalog, order: seq<Paging.OrderKey>, view: Showing, full: seq<Row>, read: seq<Row>)
    requires Paging.Strict(catalog, order, Image(view, full)) && Paging.Strict(catalog, order, Image(view, read))
    requires forall r <- read :: r in full
    ensures InOrderOf(full, read)
  {
    hide Paging.Cursor, Paging.CompareBoundary, Before;
    StrictDistinct(catalog, order, view, read);
    var rows := Image(view, read);
    forall i, j | 0 <= i < j < |read| ensures Before(full, read[i], read[j]) {
      assert Paging.CompareBoundary(catalog, order, rows[i], Paging.Cursor(order, rows[j]).value) ==
             Some(CompareInt(i, j));
      PlacesFollow(catalog, order, view, full, read[i], read[j]);
    }
  }

  // ---- The page's own sort, read from the index -------------------------------------------------

  function StoredFields(): Showing {
    (r: Row) => r.fields
  }

  /** Kept rows of a strict result are never filed under one key. */
  lemma {:induction false} NotOneKey(
    b: Builtins, t: TableSchema, d: IndexDefinition, stages: seq<Stage>, sm: SortMatch, order: seq<Paging.OrderKey>,
    full: seq<Row>, x: Row, y: Row)
    requires BoundFilters(b, t, LeadingFilters(stages)) && Satisfies(t, d, stages, sm)
    requires TypedOrder(t, stages[sm.position].keys) == Some(order)
    requires Paging.Strict(t.catalog, order, Image(StoredFields(), full)) && x in full && y in full && x.id < y.id
    requires FiledKey(t, d, x.fields).Some? && FiledKey(t, d, y.fields).Some?
    requires Passes(b, LeadingFilters(stages), RowResolver(x.fields)) == Some(true)
    requires Passes(b, LeadingFilters(stages), RowResolver(y.fields)) == Some(true)
    ensures FiledKey(t, d, x.fields) != FiledKey(t, d, y.fields)
  {
    hide BoundFilters, LeadingFilters, Satisfies, TypedOrder, Paging.Strict, FiledKey, Passes, RowResolver, Compare,
      Before, CompareRows, Paging.Cursor, Paging.CompareBoundary, RestFixed, Image;
    assert sm.position < |stages| && stages[sm.position].Sort? by { SatisfiedSort(t, d, stages, sm); }
    var k := FiledKey(t, d, x.fields).value;
    CompareReverse(k, k);
    PlacesFollow(t.catalog, order, StoredFields(), full, x, y);
    OrderIsSort(t, stages[sm.position].keys, x.fields, y.fields);
    if FiledKey(t, d, x.fields) == FiledKey(t, d, y.fields) {
      PairOrdered(b, t, d, stages, sm, x, y);
      assert false;
    }
  }

  /** The order of two kept rows of a strict result is the order in which they are read,
      turned around for a backward page. */
  lemma {:induction false} KeysPlace(
    b: Builtins, t: TableSchema, d: IndexDefinition, stages: seq<Stage>, sm: SortMatch, order: seq<Paging.OrderKey>,
    full: seq<Row>, x: Row, y: Row, f: Filing, backward: bool)
    requires BoundFilters(b, t, LeadingFilters(stages)) && Satisfies(t, d, stages, sm)
    requires TypedOrder(t, stages[sm.position].keys) == Some(order)
    requires Paging.Strict(t.catalog, order, Image(StoredFields(), full)) && x in full && y in full
    requires x.id in f && FiledKey(t, d, x.fields) == Some(f[x.id])
    requires y.id in f && FiledKey(t, d, y.fields) == Some(f[y.id])
    requires Passes(b, LeadingFilters(stages), RowResolver(x.fields)) == Some(true)
    requires Passes(b, LeadingFilters(stages), RowResolver(y.fields)) == Some(true)
    requires var o := if sm.reverse != backward then Greater else Less;
             if backward then Ahead(f, y.id, x.id, o) else Ahead(f, x.id, y.id, o)
    ensures Before(full, x, y)
  {
    hide BoundFilters, LeadingFilters, Satisfies, TypedOrder, Paging.Strict, FiledKey, Passes, RowResolver, Compare,
      Before, CompareRows, Paging.Cursor, Paging.CompareBoundary, RestFixed, Image;
    assert sm.position < |stages| && stages[sm.position].Sort? by { SatisfiedSort(t, d, stages, sm); }
    CompareReverse(f[x.id], f[y.id]);
    CompareReverse(f[x.id], f[x.id]);
    if x.id < y.id { NotOneKey(b, t, d, stages, sm, order, full, x, y); }
    if y.id < x.id { NotOneKey(b, t, d, stages, sm, order, full, y, x); }
    PairOrdered(b, t, d, stages, sm, x, y);
    PlacesFollow(t.catalog, order, StoredFields(), full, x, y);
    OrderIsSort(t, stages[sm.position].keys, x.fields, y.fields);
  }

  lemma SatisfiedAccess(t: TableSchema, d: IndexDefinition, stages: seq<Stage>, sm: SortMatch)
    requires Satisfies(t, d, stages, sm)
    ensures MatchComponents(t, d.components, LeadingConstraints(stages, false)).Access?
  {
    hide MatchComponents, IndexSortMatch;
  }

  /** The rows a scan reads, turned into the order of the result when the page runs
      backwards. */
  function Oriented(rows: seq<Row>, backward: bool): seq<Row> {
    if backward then Reversed(rows) else rows
  }

  /** Read forwards or, for a backward page, against the sort and turned around: the rows are
      in the order of the result. */
  lemma {:induction false} ReadInOrder(
    b: Builtins, t: TableSchema, d: IndexDefinition, p: Posting, ks: seq<Key>, rows: seq<Row>, stages: seq<Stage>,
    sm: SortMatch, order: seq<Paging.OrderKey>, full: seq<Row>, scan: Scan, backward: bool)
    requires Readable(b, t, d, p, ks, rows, stages) && Satisfies(t, d, stages, sm)
    requires BoundFilters(b, t, LeadingFilters(stages))
    requires TypedOrder(t, stages[sm.position].keys) == Some(order)
    requires Paging.Strict(t.catalog, order, Image(StoredFields(), full))
    requires forall r <- rows :: Passes(b, LeadingFilters(stages), RowResolver(r.fields)) == Some(true) ==> r in full
    ensures var read := ReadRows(b, p, ks, RowMapOf(rows), scan, sm.reverse != backward, stages);
            read.Some? && InOrderOf(full, Oriented(read.value, backward))
  {
    hide Readable, Satisfies, BoundFilters, LeadingFilters, TypedOrder, Paging.Strict, Passes, RowResolver,
      FiledKey, FilingOf, Selects, RowMapOf, RowsAt, ScannedIds, ReadRows, Compare, Before, Image, Ahead;
    var rm, reverse := RowMapOf(rows), sm.reverse != backward;
    var o := if reverse then Greater else Less;
    ScanAhead(b, t, d, p, ks, rows, stages, scan, reverse);
    var f, read := FilingOf(t, d, rm), ReadRows(b, p, ks, rm, scan, reverse, stages).value;
    var oriented, n := Oriented(read, backward), |read|;
    forall i, j | 0 <= i < j < n ensures Before(full, oriented[i], oriented[j]) {
      var x, y := oriented[i], oriented[j];
      assert x in read && y in read;
      FiledRow(b, t, d, p, ks, rows, stages, x);
      FiledRow(b, t, d, p, ks, rows, stages, y);
      if backward {
        assert x == read[n-1-i] && y == read[n-1-j];
        assert Ahead(f, y.id, x.id, o);
      } else {
        assert Ahead(f, x.id, y.id, o);
      }
      KeysPlace(b, t, d, stages, sm, order, full, x, y, f, backward);
    }
  }

  /** The filing holds a row of the table under its own key. */
  lemma {:induction false} FiledRow(
    b: Builtins, t: TableSchema, d: IndexDefinition, p: Posting, ks: seq<Key>, rows: seq<Row>, stages: seq<Stage>,
      r: Row)
    requires Readable(b, t, d, p, ks, rows, stages) && r in rows
    ensures var f := FilingOf(t, d, RowMapOf(rows));
            (r.id in f <==> FiledKey(t, d, r.fields).Some?) && (r.id in f ==> FiledKey(t, d, r.fields) == Some(f[r.id]))
  {
    hide Readable, FiledKey, FilingOf, RowMapOf, LeadingFilters, Lists, KeysOf, Passes, Unfileable, RowResolver;
    ReadableRows(b, t, d, p, ks, rows, stages);
    RowMapMembers(rows);
    FilingAt(t, d, RowMapOf(rows), r.id);
  }

  // ---- Reading backwards ------------------------------------------------------------------------

  lemma {:induction false} RowsAtReversed(rm: RowMap, ids: seq<RowId>)
    requires forall id <- ids :: id in rm
    ensures RowsAt(rm, Reversed(ids)) == Reversed(RowsAt(rm, ids))
  {
    if ids != [] {
      RowsAtReversed(rm, ids[1..]);
      RowsAtPush(rm, Reversed(ids[1..]), ids[0]);
      assert RowsAt(rm, ids) == [Row(ids[0], rm[ids[0]])] + RowsAt(rm, ids[1..]);
    }
  }

  lemma {:induction false} KeptReversed(b: Builtins, filters: seq<Condition>, rows: seq<Row>)
    requires forall r <- rows :: Passes(b, filters, RowResolver(r.fields)).Some?
    ensures Kept(b, filters, rows).Some?
            && Kept(b, filters, Reversed(rows)) == Some(Reversed(Kept(b, filters, rows).value))
  {
    hide Passes, RowResolver;
    if rows != [] {
      KeptReversed(b, filters, rows[1..]);
      KeptPush(b, filters, Reversed(rows[1..]), rows[0]);
      var rest := Kept(b, filters, rows[1..]).value;
      if Passes(b, filters, RowResolver(rows[0].fields)).value {
        assert ([rows[0]] + rest)[1..] == rest;
      } else {
        assert [] + rest == rest && Reversed(rest) + [] == Reversed(rest);
      }
    }
  }

  /** The first `n` rows of a backward read, turned around, are the last `n` rows. */
  function Nearest(rows: seq<Row>, n: nat, backward: bool): seq<Row> {
    if |rows| <= n then rows else if backward then rows[|rows| - n..] else rows[..n]
  }

  lemma NearestOriented(rows: seq<Row>, n: nat, backward: bool)
    ensures Oriented(Cut(rows, Some(n)), backward) == Nearest(Oriented(rows, backward), n, backward)
  {
    if |rows| > n && backward { ReversedCut(rows, n); }
  }

  lemma ReversedCut(rows: seq<Row>, n: nat)
    requires n <= |rows|
    ensures Reversed(rows[..n]) == Reversed(rows)[|rows| - n..]
  {
    hide Reversed;
  }

  // ---- Cutting the read -------------------------------------------------------------------------

  lemma {:induction false} AllBeyond(
    catalog: Catalog, order: seq<Paging.OrderKey>, view: Showing, rows: seq<Row>, q: Paging.PageRequest)
    requires forall r <- rows :: Paging.Beyond(catalog, order, view(r), q)
    ensures Paging.Eligible(catalog, order, Image(view, rows), q) == Image(view, rows)
  {
    hide Paging.Beyond, Image;
    if rows == [] {
      assert Image(view, rows) == [];
    } else {
      var n := |rows| - 1;
      AllBeyond(catalog, order, view, rows[..n], q);
      ImagePush(view, rows);
      assert rows[n] in rows;
    }
  }

  /** A read in the order of the result, holding every row beyond the boundary, and cut next
      to the boundary, makes the page of the whole result. */
  lemma {:induction false} CutPage(
    catalog: Catalog, order: seq<Paging.OrderKey>, view: Showing, full: seq<Row>, read: seq<Row>, q: Paging.PageRequest)
    requires q.limit >= 1 && Distinct(full) && InOrderOf(full, read) && forall r <- read :: r in full
    requires forall r <- full :: Paging.Beyond(catalog, order, view(r), q) ==> r in read
    requires |read| <= q.limit + 1 || forall r <- read :: Paging.Beyond(catalog, order, view(r), q)
    ensures var cut := Nearest(read, q.limit + 1, q.direction == Paging.Backward);
            Paging.PageOf(order, Paging.Eligible(catalog, order, Image(view, cut), q), q) ==
            Paging.PageOf(order, Paging.Eligible(catalog, order, Image(view, full), q), q)
  {
    hide Paging.Beyond, Paging.Eligible, Paging.PageOf, InOrderOf, Distinct;
    SameEligible(catalog, order, view, full, read, q);
    if |read| > q.limit + 1 {
      var cut := Nearest(read, q.limit + 1, q.direction == Paging.Backward);
      AllBeyond(catalog, order, view, read, q);
      assert forall r <- cut :: r in read;
      AllBeyond(catalog, order, view, cut, q);
      assert Image(view, cut) == Paging.Nearest(Image(view, read), q);
      Paging.NearestSamePage(order, Image(view, read), q);
    }
  }

  // ---- The page through the index ---------------------------------------------------------------

  /** A lookup of one complete key reads the rows under one key. */
  lemma ExactOneKey(
    t: TableSchema, d: IndexDefinition, stages: seq<Stage>, keys: seq<SortKey>, boundary: Option<seq<Value>>,
    greater: bool, x: Key, y: Key)
    requires var a := MatchComponents(t, d.components, LeadingConstraints(stages, false));
             a.Access? && ExactLookup(d.components, a)
    requires Selects(PageScan(t, d, stages, keys, boundary, greater), x)
    requires Selects(PageScan(t, d, stages, keys, boundary, greater), y)
    ensures x == y
  {
    hide MatchComponents, LeadingConstraints, SeekAt, EncodeComponents, Compare, BoundComponents;
    BoundCount(t, d.components);
    var a, comps := MatchComponents(t, d.components, LeadingConstraints(stages, false)),
                    BoundComponents(t, d.components).value;
    var prefix := EncodeComponents(t.catalog, comps[..|a.equality|], a.equality).value;
    CompareReverse(x, prefix);
    CompareReverse(y, prefix);
  }

  lemma BoundCount(t: TableSchema, cs: seq<IndexComponent>)
    ensures BoundComponents(t, cs).Some? ==> |BoundComponents(t, cs).value| == |cs|
  {
    hide FieldType;
  }

  /** The rows of the whole result: what the full scan keeps, strictly in the page's order. */
  ghost predicate WholeResult(
    b: Builtins, t: TableSchema, rows: seq<Row>, stages: seq<Stage>, order: seq<Paging.OrderKey>, full: seq<Row>) {
    && Paging.Strict(t.catalog, order, Image(StoredFields(), full))
    && forall r :: r in full <==> r in rows && Passes(b, LeadingFilters(stages), RowResolver(r.fields)) == Some(true)
  }

  /** What the page's scan reads of the whole result: nothing beyond the boundary is missed,
      and unless one complete key is looked up, nothing else is read. */
  lemma {:induction false} ReadForPage(
    b: Builtins, t: TableSchema, d: IndexDefinition, p: Posting, ks: seq<Key>, rows: seq<Row>, stages: seq<Stage>,
    sm: SortMatch, order: seq<Paging.OrderKey>, q: Paging.PageRequest, full: seq<Row>, k: nat, r: Row)
    requires Readable(b, t, d, p, ks, rows, stages) && Satisfies(t, d, stages, sm) && DistinctComponents(d.components)
    requires BoundFilters(b, t, LeadingFilters(stages)) && Proven(b, d, LeadingFilters(stages))
    requires TypedOrder(t, stages[sm.position].keys) == Some(order) && WholeResult(b, t, rows, stages, order, full)
    requires Paging.At(order, Image(StoredFields(), full), q.boundary, k) && r in full
    ensures var a := MatchComponents(t, d.components, LeadingConstraints(stages, false));
            var scan := PageScan(t, d, stages, stages[sm.position].keys, q.boundary,
                                 Greaterwards(q.direction, sm.reverse));
            && FiledKey(t, d, r.fields).Some? && a.Access? && !scan.Failed?
            && (Selects(scan, FiledKey(t, d, r.fields).value) <==>
                Paging.Beyond(t.catalog, order, r.fields, q) || (q.boundary.Some? && ExactLookup(d.components, a)))
  {
    hide Readable, BoundFilters, Proven, LeadingFilters, TypedOrder, Paging.Strict, Passes, RowResolver, FiledKey,
      Selects, PageScan, MatchComponents, LeadingConstraints, CompareRows, Paging.Cursor, Paging.CompareBoundary,
      DistinctComponents, ExactLookup, PlanScan, Unfileable, RowMapOf, IndexSortMatch;
    var keys, greater := stages[sm.position].keys, Greaterwards(q.direction, sm.reverse);
    ReadableRows(b, t, d, p, ks, rows, stages);
    RowMapMembers(rows);
    assert !Unfileable(t, d, r.fields);
    PassingSelected(b, t, d, stages, r.fields);
    if q.boundary.None? {
      NoPage(t, d, stages, keys, greater);
      SelectionExact(b, t, d, stages, r.fields);
    } else {
      var y := full[k];
      assert y in full && Image(StoredFields(), full)[k] == y.fields;
      assert !Unfileable(t, d, y.fields);
      PassingSelected(b, t, d, stages, y.fields);
      MatchedRunsAlong(t, d, stages, sm);
      hide Satisfies, RunsAlong;
      TypedCursor(t, keys, order, y.fields);
      OrderIsSort(t, keys, r.fields, y.fields);
      PageScanSelects(b, t, d, stages, keys, sm.reverse, r.fields, y.fields, q.boundary.value, q.direction);
    }
  }

  /** The cursor of a stored row holds its values for the sort keys. */
  lemma {:induction false} TypedCursor(t: TableSchema, keys: seq<SortKey>, order: seq<Paging.OrderKey>, y: Fields)
    requires TypedOrder(t, keys) == Some(order) && Paging.Cursor(order, y).Some?
    ensures CursorOf(y, keys, Paging.Cursor(order, y).value)
  {
    hide RowField, FieldType;
    if keys != [] {
      assert order[1..] == TypedOrder(t, keys[1..]).value;
      TypedCursor(t, keys[1..], order[1..], y);
      var cursor := Paging.Cursor(order, y).value;
      assert cursor[1..] == Paging.Cursor(order[1..], y).value;
      forall i | 0 <= i < |keys| ensures RowField(y, keys[i].column) == Some(cursor[i]) {
        if i > 0 { assert keys[i] == keys[1..][i-1] && cursor[i] == cursor[1..][i-1]; }
      }
    }
  }

  /** The rows read for a page, in the order of the result: all of those beyond the boundary,
      and either no others or at most one row at all. */
  lemma {:induction false} PageRead(
    b: Builtins, t: TableSchema, d: IndexDefinition, p: Posting, ks: seq<Key>, rows: seq<Row>, stages: seq<Stage>,
    sm: SortMatch, order: seq<Paging.OrderKey>, q: Paging.PageRequest, full: seq<Row>, k: nat)
    requires Readable(b, t, d, p, ks, rows, stages) && Satisfies(t, d, stages, sm) && DistinctComponents(d.components)
    requires BoundFilters(b, t, LeadingFilters(stages)) && Proven(b, d, LeadingFilters(stages))
    requires TypedOrder(t, stages[sm.position].keys) == Some(order) && WholeResult(b, t, rows, stages, order, full)
    requires Paging.At(order, Image(StoredFields(), full), q.boundary, k)
    ensures var backward := q.direction == Paging.Backward;
            var scan := PageScan(t, d, stages, stages[sm.position].keys, q.boundary,
                                 Greaterwards(q.direction, sm.reverse));
            var read := ReadRows(b, p, ks, RowMapOf(rows), scan, sm.reverse != backward, stages);
            && read.Some?
            && var oriented := Oriented(read.value, backward);
               && InOrderOf(full, oriented) && (forall r <- oriented :: r in full)
               && (forall r <- full :: Paging.Beyond(t.catalog, order, r.fields, q) ==> r in oriented)
               && (|oriented| <= 1 || forall r <- oriented :: Paging.Beyond(t.catalog, order, r.fields, q))
  {
    hide Readable, Satisfies, BoundFilters, Proven, LeadingFilters, TypedOrder, Paging.Strict, Passes, RowResolver,
      FiledKey, Selects, PageScan, MatchComponents, LeadingConstraints, DistinctComponents, ExactLookup, RowMapOf,
      FilingOf, ReadRows, InOrderOf, Paging.Beyond, Paging.At, RowsAt, ScannedIds, RowsAhead, Image, Unfileable,
      KeysOf, Lists;
    var backward := q.direction == Paging.Backward;
    assert sm.position < |stages| && stages[sm.position].Sort? by { SatisfiedSort(t, d, stages, sm); }
    var scan := PageScan(t, d, stages, stages[sm.position].keys, q.boundary, Greaterwards(q.direction, sm.reverse));
    ReadInOrder(b, t, d, p, ks, rows, stages, sm, order, full, scan, backward);
    ScanAhead(b, t, d, p, ks, rows, stages, scan, sm.reverse != backward);
    ReadableRows(b, t, d, p, ks, rows, stages);
    RowMapMembers(rows);
    var read := ReadRows(b, p, ks, RowMapOf(rows), scan, sm.reverse != backward, stages).value;
    var oriented := Oriented(read, backward);
    assert forall r :: r in oriented <==> r in read;
    assert MatchComponents(t, d.components, LeadingConstraints(stages, false)).Access? by {
      SatisfiedAccess(t, d, stages, sm);
    }
    forall r <- full
      ensures r in oriented <==> FiledKey(t, d, r.fields).Some? && Selects(scan, FiledKey(t, d, r.fields).value)
      ensures Paging.Beyond(t.catalog, order, r.fields, q) ==> r in oriented
      ensures r in oriented && !Paging.Beyond(t.catalog, order, r.fields, q) ==>
        ExactLookup(d.components, MatchComponents(t, d.components, LeadingConstraints(stages, false)))
    {
      FilingAt(t, d, RowMapOf(rows), r.id);
      ReadForPage(b, t, d, p, ks, rows, stages, sm, order, q, full, k, r);
    }
    if exists r <- oriented :: !Paging.Beyond(t.catalog, order, r.fields, q) {
      OnlyOneExact(b, t, d, p, ks, rows, stages, sm, order, q, full, k, oriented);
    }
  }

  /** Two rows read under one complete key would tie. */
  lemma {:induction false} OnlyOneExact(
    b: Builtins, t: TableSchema, d: IndexDefinition, p: Posting, ks: seq<Key>, rows: seq<Row>, stages: seq<Stage>,
    sm: SortMatch, order: seq<Paging.OrderKey>, q: Paging.PageRequest, full: seq<Row>, k: nat, read: seq<Row>)
    requires Readable(b, t, d, p, ks, rows, stages) && Satisfies(t, d, stages, sm) && DistinctComponents(d.components)
    requires BoundFilters(b, t, LeadingFilters(stages)) && Proven(b, d, LeadingFilters(stages))
    requires TypedOrder(t, stages[sm.position].keys) == Some(order) && WholeResult(b, t, rows, stages, order, full)
    requires InOrderOf(full, read) && forall r <- read :: r in full
    requires var a := MatchComponents(t, d.components, LeadingConstraints(stages, false));
             a.Access? && ExactLookup(d.components, a)
    requires var scan :=
             PageScan(t, d, stages, stages[sm.position].keys, q.boundary, Greaterwards(q.direction, sm.reverse));
             forall r <- read :: FiledKey(t, d, r.fields).Some? && Selects(scan, FiledKey(t, d, r.fields).value)
    ensures |read| <= 1
  {
    hide Readable, Satisfies, BoundFilters, Proven, LeadingFilters, TypedOrder, Paging.Strict, Passes, RowResolver,
      FiledKey, Selects, PageScan, MatchComponents, LeadingConstraints, DistinctComponents, ExactLookup, RowMapOf,
      FilingOf, Image;
    assert sm.position < |stages| && stages[sm.position].Sort? by { SatisfiedSort(t, d, stages, sm); }
    if |read| > 1 {
      var x, y := read[0], read[1];
      assert x in read && y in read && Before(full, x, y);
      StrictDistinct(t.catalog, order, StoredFields(), full);
      NotBefore(full, x, y);
      ReadableRows(b, t, d, p, ks, rows, stages);
      RowMapMembers(rows);
      if x.id < y.id {
        NotOneKey(b, t, d, stages, sm, order, full, x, y);
      } else {
        NotOneKey(b, t, d, stages, sm, order, full, y, x);
      }
      ExactOneKey(t, d, stages, stages[sm.position].keys, q.boundary, Greaterwards(q.direction, sm.reverse),
                  FiledKey(t, d, x.fields).value, FiledKey(t, d, y.fields).value);
      assert false;
    }
  }

  /** A page whose sort the index satisfies: plan the sought scan, read it in the page's
      direction up to one row more than the page, turn a backward read around, filter, and
      cut the page. The result is the page of the whole sorted result. */
  method PageFromIndex(
    b: Builtins, t: TableSchema, d: IndexDefinition, p: Posting, ks: seq<Key>, rows: seq<Row>, stages: seq<Stage>,
    sm: SortMatch, order: seq<Paging.OrderKey>, q: Paging.PageRequest, ghost full: seq<Row>, ghost k: nat)
    returns (r: Option<Paging.Page>)
    requires Readable(b, t, d, p, ks, rows, stages) && Satisfies(t, d, stages, sm) && DistinctComponents(d.components)
    requires BoundFilters(b, t, LeadingFilters(stages)) && Proven(b, d, LeadingFilters(stages))
    requires TypedOrder(t, stages[sm.position].keys) == Some(order) && q.limit >= 1
    requires WholeResult(b, t, rows, stages, order, full)
    requires Paging.At(order, Image(StoredFields(), full), q.boundary, k)
    ensures r == if PlanScan(t, d, stages).Failed? then None
                 else Some(Paging.PageOf(order, Paging.Eligible(t.catalog, order, Image(StoredFields(), full), q), q))
  {
    hide Readable, BoundFilters, Proven, LeadingFilters, TypedOrder, Passes, RowResolver, PageScan, PlanScan,
      DistinctComponents, RowMapOf, ReadRows, InOrderOf, Paging.Beyond, Paging.At, RowsAt, Kept, Paging.Eligible,
      Paging.PageOf, Cut, Paging.Unplaceable, Paging.Incomparable, Paging.Strict, Image, WholeResult, Oriented,
      Paging.Comparable, AllEvaluate;
    assert sm.position < |stages| && stages[sm.position].Sort? by { SatisfiedSort(t, d, stages, sm); }
    hide Satisfies;
    var backward, n, rm := q.direction == Paging.Backward, q.limit + 1, RowMapOf(rows);
    var keys, greater := stages[sm.position].keys, Greaterwards(q.direction, sm.reverse);
    var scan := PageScan(t, d, stages, keys, q.boundary, greater);
    assert scan.Failed? <==> PlanScan(t, d, stages).Failed? by {
      ScanFails(b, t, d, p, ks, rows, stages, sm, order, q, full, k);
    }
    if scan.Failed? { return None; }
    var chosen := ChooseEntries(b, t, d, p, ks, rows, stages, scan, sm.reverse != backward, Some(n));
    assert AllEvaluate(b, LeadingFilters(stages), rm) by { ReadableRows(b, t, d, p, ks, rows, stages); }
    TurnedRead(b, LeadingFilters(stages), rm, chosen, backward);
    if backward { chosen := Reversed(chosen); }
    var kept := Kept(b, LeadingFilters(stages), RowsAt(rm, chosen));
    if kept.None? { return None; }
    PageCut(b, t, d, p, ks, rows, stages, sm, order, q, full, k, kept.value);
    r := Paging.ApplyPage(t.catalog, order, Image(StoredFields(), kept.value), q);
  }

  /** The cut of the page's read, turned around for a backward page, makes the page of the
      whole result. */
  lemma {:induction false} PageCut(
    b: Builtins, t: TableSchema, d: IndexDefinition, p: Posting, ks: seq<Key>, rows: seq<Row>, stages: seq<Stage>,
    sm: SortMatch, order: seq<Paging.OrderKey>, q: Paging.PageRequest, full: seq<Row>, k: nat, cut: seq<Row>)
    requires Readable(b, t, d, p, ks, rows, stages) && Satisfies(t, d, stages, sm) && DistinctComponents(d.components)
    requires BoundFilters(b, t, LeadingFilters(stages)) && Proven(b, d, LeadingFilters(stages))
    requires TypedOrder(t, stages[sm.position].keys) == Some(order) && q.limit >= 1
    requires WholeResult(b, t, rows, stages, order, full)
    requires Paging.At(order, Image(StoredFields(), full), q.boundary, k)
    requires var backward := q.direction == Paging.Backward;
             var scan := PageScan(t, d, stages, stages[sm.position].keys, q.boundary,
                                  Greaterwards(q.direction, sm.reverse));
             var read := ReadRows(b, p, ks, RowMapOf(rows), scan, sm.reverse != backward, stages);
             read.Some? && cut == Oriented(Cut(read.value, Some(q.limit + 1)), backward)
    ensures && Paging.Comparable(t.catalog, order, Image(StoredFields(), cut), q)
            && Paging.PageOf(order, Paging.Eligible(t.catalog, order, Image(StoredFields(), cut), q), q) ==
               Paging.PageOf(order, Paging.Eligible(t.catalog, order, Image(StoredFields(), full), q), q)
  {
    hide Readable, BoundFilters, Proven, LeadingFilters, TypedOrder, PageScan, DistinctComponents, RowMapOf,
      ReadRows, InOrderOf, Paging.Beyond, Paging.At, Paging.Eligible, Paging.PageOf, Cut, Paging.Strict, Image,
      WholeResult, Paging.Comparable, Oriented, Nearest;
    assert sm.position < |stages| && stages[sm.position].Sort? by { SatisfiedSort(t, d, stages, sm); }
    hide Satisfies;
    var backward := q.direction == Paging.Backward;
    var scan := PageScan(t, d, stages, stages[sm.position].keys, q.boundary, Greaterwards(q.direction, sm.reverse));
    var read := ReadRows(b, p, ks, RowMapOf(rows), scan, sm.reverse != backward, stages).value;
    NearestOriented(read, q.limit + 1, backward);
    PageRead(b, t, d, p, ks, rows, stages, sm, order, q, full, k);
    CutOfWhole(b, t, rows, stages, order, q, full, k, Oriented(read, backward));
  }

  /** Turning the chosen entries around turns the kept rows around. */
  lemma {:induction false} TurnedRead(
    b: Builtins, filters: seq<Condition>, rm: RowMap, chosen: seq<RowId>, backward: bool)
    requires AllEvaluate(b, filters, rm) && forall id <- chosen :: id in rm
    ensures var kept := Kept(b, filters, RowsAt(rm, chosen));
            kept.Some? &&
            Kept(b, filters, RowsAt(rm, if backward then Reversed(chosen) else chosen)) ==
              Some(Oriented(kept.value, backward))
  {
    hide Passes, Kept, RowsAt, RowResolver;
    RowsAtMembers(rm, chosen);
    RowsAtReversed(rm, chosen);
    KeptReversed(b, filters, RowsAt(rm, chosen));
  }

  /** The cut read can be compared with the boundary and makes the page of the result. */
  lemma {:induction false} CutOfWhole(
    b: Builtins, t: TableSchema, rows: seq<Row>, stages: seq<Stage>, order: seq<Paging.OrderKey>, q: Paging.PageRequest,
    full: seq<Row>, k: nat, read: seq<Row>)
    requires WholeResult(b, t, rows, stages, order, full) && q.limit >= 1
    requires Paging.At(order, Image(StoredFields(), full), q.boundary, k)
    requires InOrderOf(full, read) && forall r <- read :: r in full
    requires forall r <- full :: Paging.Beyond(t.catalog, order, r.fields, q) ==> r in read
    requires |read| <= 1 || forall r <- read :: Paging.Beyond(t.catalog, order, r.fields, q)
    ensures var cut := Image(StoredFields(), Nearest(read, q.limit + 1, q.direction == Paging.Backward));
            && Paging.Comparable(t.catalog, order, cut, q)
            && Paging.PageOf(order, Paging.Eligible(t.catalog, order, cut, q), q) ==
               Paging.PageOf(order, Paging.Eligible(t.catalog, order, Image(StoredFields(), full), q), q)
  {
    hide Paging.Strict, Paging.At, InOrderOf, Paging.Beyond, Paging.Eligible, Paging.PageOf, Passes, LeadingFilters,
      RowResolver, Paging.Cursor, Paging.CompareBoundary;
    StrictDistinct(t.catalog, order, StoredFields(), full);
    CutPage(t.catalog, order, StoredFields(), full, read, q);
    Paging.PlacedComparable(t.catalog, order, Image(StoredFields(), full), q, k);
    var cut := Nearest(read, q.limit + 1, q.direction == Paging.Backward);
    assert forall r <- cut :: r in read;
    forall f <- Image(StoredFields(), cut) ensures f in Image(StoredFields(), full) {
      var i :| 0 <= i < |cut| && cut[i].fields == f;
      assert cut[i] in cut;
      var j :| 0 <= j < |full| && full[j] == cut[i];
      assert Image(StoredFields(), full)[j] == f;
    }
  }

  /** A page's scan fails only where the plan without a page does. */
  lemma {:induction false} ScanFails(
    b: Builtins, t: TableSchema, d: IndexDefinition, p: Posting, ks: seq<Key>, rows: seq<Row>, stages: seq<Stage>,
    sm: SortMatch, order: seq<Paging.OrderKey>, q: Paging.PageRequest, full: seq<Row>, k: nat)
    requires Readable(b, t, d, p, ks, rows, stages) && Satisfies(t, d, stages, sm) && DistinctComponents(d.components)
    requires BoundFilters(b, t, LeadingFilters(stages)) && Proven(b, d, LeadingFilters(stages))
    requires TypedOrder(t, stages[sm.position].keys) == Some(order) && WholeResult(b, t, rows, stages, order, full)
    requires Paging.At(order, Image(StoredFields(), full), q.boundary, k)
    ensures PageScan(t, d, stages, stages[sm.position].keys, q.boundary,
                     Greaterwards(q.direction, sm.reverse)).Failed? <==>
            PlanScan(t, d, stages).Failed?
  {
    hide Readable, BoundFilters, Proven, LeadingFilters, TypedOrder, Passes, RowResolver, PageScan, PlanScan,
      DistinctComponents, MatchComponents, LeadingConstraints, Paging.Beyond, Selects, FiledKey, Paging.Strict,
      ExactLookup, Unfileable, UsedHold;
    assert sm.position < |stages| && stages[sm.position].Sort? by { SatisfiedSort(t, d, stages, sm); }
    if q.boundary.None? {
      NoPage(t, d, stages, stages[sm.position].keys, Greaterwards(q.direction, sm.reverse));
    } else {
      hide Paging.At, Satisfies;
      assert k < |full| by { AtPlace(order, full, q.boundary, k); }
      ReadForPage(b, t, d, p, ks, rows, stages, sm, order, q, full, k, full[k]);
      SelectionExact(b, t, d, stages, full[k].fields);
    }
  }

  lemma AtPlace(order: seq<Paging.OrderKey>, full: seq<Row>, boundary: Option<seq<Value>>, k: nat)
    requires Paging.At(order, Image(StoredFields(), full), boundary, k) && boundary.Some?
    ensures k < |full|
  {
    hide Paging.Cursor;
  }
}
