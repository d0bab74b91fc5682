/** Answering a sorted query from an index: choose entries in scan order, no more than the
    rest of the pipeline needs, filter them and stream them. */
module IndexReads {
  import opened Bytes
  import opened Model
  import opened OrderedKey
  import opened KeyBounds
  import opened Schema
  import opened Postings
  import opened TableStore
  import opened Tables
  import opened Expressions
  import opened Planner
  import opened IndexPredicates
  import opened IndexScan
  import opened IndexAccess
  import opened OrderedScan
  import opened StableReads
  import opened Selections
  import Streaming

  lemma ReadableRows(
    b: Builtins, t: TableSchema, d: IndexDefinition, p: Posting, ks: seq<Key>, rows: seq<Row>, stages: seq<Stage>)
    requires Readable(b, t, d, p, ks, rows, stages)
    ensures AscendingRows(rows) && KeysOf(p, ks) && Lists(p, FilingOf(t, d, RowMapOf(rows)))
    ensures AllEvaluate(b, LeadingFilters(stages), RowMapOf(rows))
    ensures forall id <- RowMapOf(rows) :: !Unfileable(t, d, RowMapOf(rows)[id])
  {
    hide RowMapOf, FilingOf, Lists, KeysOf, LeadingFilters, Passes, Unfileable;
  }

  /** Choosing the entries to read: all of them, or as many as are needed of those that
      pass. */
  method ChooseEntries(
    b: Builtins, t: TableSchema, d: IndexDefinition, p: Posting, ks: seq<Key>, rows: seq<Row>, stages: seq<Stage>,
    scan: Scan, reverse: bool, needed: Option<nat>) returns (chosen: seq<RowId>)
    requires Readable(b, t, d, p, ks, rows, stages) && (needed.Some? ==> needed.value >= 1)
    ensures forall id <- chosen :: id in RowMapOf(rows)
    ensures var read := ReadRows(b, p, ks, RowMapOf(rows), scan, reverse, stages);
            read.Some?
              && Kept(b, LeadingFilters(stages), RowsAt(RowMapOf(rows), chosen)) == Some(Cut(read.value, needed))
  {
    hide RowMapOf, FilingOf, Lists, KeysOf, LeadingFilters, Passes, Kept, RowsAt, Unfileable, Eligible, Cut,
      Readable, Selects, RowsAhead, ScanOrder;
    var filters, rm := LeadingFilters(stages), RowMapOf(rows);
    ReadableRows(b, t, d, p, ks, rows, stages);
    ScanAhead(b, t, d, p, ks, rows, stages, scan, reverse);
    if !scan.Range? {
      NothingChosen(b, filters, rm, needed);
      return [];
    }
    ghost var all := ScanOrder(p, ks, scan.bounds, reverse);
    var hits := ScanIndex(p, ks, scan.bounds, reverse, if filters == [] then needed else None);
    ScanDistinct(p, FilingOf(t, d, rm), ks, scan.bounds, reverse);
    CutFacts(all, needed);
    var selected := SelectHits(b, filters, rm, hits, needed);
    chosen := selected.value;
    if needed.Some? {
      EarlyStop(b, filters, rm, all, needed.value);
      ChosenStored(b, filters, rm, all, needed.value);
    } else {
      Uncut(ReadRows(b, p, ks, rm, scan, reverse, stages).value);
    }
  }

  lemma NothingChosen(b: Builtins, filters: seq<Condition>, rm: RowMap, needed: Option<nat>)
    ensures Kept(b, filters, RowsAt(rm, [])) == Some([]) && Cut<Row>([], needed) == []
  {}

  lemma CutFacts(all: seq<RowId>, needed: Option<nat>)
    requires Distinct(all)
    ensures Distinct(Cut(all, needed)) && Cut(Cut(all, needed), needed) == Cut(all, needed) && Cut(all, None) == all
  {}

  lemma Uncut<T>(s: seq<T>)
    ensures Cut(s, None) == s
  {}

  lemma {:induction false} ChosenStored(b: Builtins, filters: seq<Condition>, rm: RowMap, all: seq<RowId>, n: nat)
    requires AllEvaluate(b, filters, rm) && forall id <- all :: id in rm
    ensures forall id <- Cut(all, Some(n)) :: id in rm
    ensures forall id <- Cut(Eligible(b, filters, rm, all), Some(n)) :: id in rm
  {
    hide Passes, Kept, RowsAt, Eligible;
    EligibleIsKept(b, filters, rm, all);
  }

  // ---- One stable sort --------------------------------------------------------------------------

  ghost predicate Comparable(t: TableSchema, key: SortKey, x: Fields) {
    var ty, v := FieldType(t.catalog, t.columns, key.column), RowField(x, key.column);
    ty.Some? && v.Some? && Encodes(t.catalog, ty.value, v.value)
  }

  /** Comparing two rows the other way round gives the reverse. */
  lemma {:induction false} CompareFlips(t: TableSchema, keys: seq<SortKey>, x: Fields, y: Fields)
    requires forall k <- keys :: Comparable(t, k, x) && Comparable(t, k, y)
    ensures var o, p := CompareRows(t, keys, x, y), CompareRows(t, keys, y, x);
            o.Some? && p.Some? && p.value == o.value.Reverse()
  {
    hide FieldType, RowField, EncodeKey, CompareTyped;
    if keys != [] {
      assert keys[0] in keys;
      CompareFlips(t, keys[1..], x, y);
      var ty := FieldType(t.catalog, t.columns, keys[0].column).value;
      var l, r := RowField(x, keys[0].column).value, RowField(y, keys[0].column).value;
      TypedIsBytes(t.catalog, ty, l, r);
      TypedIsBytes(t.catalog, ty, r, l);
      CompareReverse(KeyOf(t.catalog, ty, l), KeyOf(t.catalog, ty, r));
    }
  }

  /** A filed row can be compared by every key of the matched sort. */
  lemma {:induction false} FiledComparable(
    t: TableSchema, d: IndexDefinition, stages: seq<Stage>, sm: SortMatch, x: Fields, k: SortKey)
    requires Satisfies(t, d, stages, sm) && FiledKey(t, d, x).Some? && k in stages[sm.position].keys
    ensures Comparable(t, k, x)
  {
    hide FiledKey, FieldType, RowField, Encodes, MatchComponents, LeadingConstraints, Visible, EncodeComponents,
      BoundComponents, IndexSortMatch;
    var comps, xs := FiledTyped(t, d, x);
    var m := |MatchComponents(t, d.components, LeadingConstraints(stages, false)).equality|;
    MatchedKeys(stages, d.components, m, sm);
    KeysReached(stages[sm.position].keys, d.components, m, k);
    var i :| 0 <= i < Reach(stages[sm.position].keys, d.components, m) && d.components[i].column == k.column;
  }

  /** Two stable sorts of the same rows are equal. */
  lemma {:induction false} StableUnique(t: TableSchema, keys: seq<SortKey>, a: seq<Row>, c: seq<Row>)
    requires StableSorted(t, keys, a) && StableSorted(t, keys, c) && multiset(a) == multiset(c)
    requires forall r <- a, k <- keys :: Comparable(t, k, r.fields)
    ensures a == c
  {
    hide CompareRows, Comparable, Before;
    forall i, j | 0 <= i < j < |a| ensures a[i] != a[j] { CompareFlips(t, keys, a[i].fields, a[i].fields); }
    assert forall x :: x in a <==> x in multiset(a);
    assert forall x :: x in c <==> x in multiset(c);
    forall i, j | 0 <= i < j < |c| ensures Before(a, c[i], c[j]) {
      assert c[i] in a && c[j] in a;
      StableBefore(t, keys, a, c, i, j);
    }
    OwnOrder(a);
    SameSelection(a, a, c);
  }

  lemma {:induction false} StableBefore(t: TableSchema, keys: seq<SortKey>, a: seq<Row>, c: seq<Row>, i: nat, j: nat)
    requires StableSorted(t, keys, a) && StableSorted(t, keys, c) && i < j < |c| && c[i] in a && c[j] in a
    requires forall r <- a, k <- keys :: Comparable(t, k, r.fields)
    ensures Before(a, c[i], c[j])
  {
    hide CompareRows, Comparable;
    var x :| 0 <= x < |a| && a[x] == c[i];
    var y :| 0 <= y < |a| && a[y] == c[j];
    CompareFlips(t, keys, c[i].fields, c[j].fields);
  }

  // ---- Take after sort --------------------------------------------------------------------------

  function FieldsOf(rows: seq<Row>): (r: seq<Fields>)
    ensures |r| == |rows| && forall i :: 0 <= i < |rows| ==> r[i] == rows[i].fields
  {
    seq(|rows|, i requires 0 <= i < |rows| => rows[i].fields)
  }

  /** The kept rows, in some order the sort allows. */
  ghost predicate SortOfKept(
    b: Builtins, t: TableSchema, rows: seq<Row>, stages: seq<Stage>, keys: seq<SortKey>, sorted: seq<Row>) {
    var kept := Kept(b, LeadingFilters(stages), rows);
    kept.Some? && multiset(sorted) == multiset(kept.value) && SortedRows(t, keys, sorted)
  }

  /** The kept rows, stably sorted. */
  ghost predicate StableSortOfKept(
    b: Builtins, t: TableSchema, rows: seq<Row>, stages: seq<Stage>, keys: seq<SortKey>, sorted: seq<Row>) {
    SortOfKept(b, t, rows, stages, keys, sorted) && StableSorted(t, keys, sorted)
  }

  /** A sort the index satisfies, followed by row-local stages: reading no more entries than
      those stages need and streaming them gives what the whole pipeline gives on the sorted
      rows of the full scan. Where ties are settled, that is the stable sort. */
  method RunFromIndex(
    b: Builtins, t: TableSchema, d: IndexDefinition, p: Posting, ks: seq<Key>, rows: seq<Row>, stages: seq<Stage>,
    sm: SortMatch, rest: seq<Streaming.RowStage>, ghost ds: seq<IndexDefinition>)
    returns (r: Option<seq<Fields>>, ghost sorted: seq<Row>)
    requires Readable(b, t, d, p, ks, rows, stages) && Satisfies(t, d, stages, sm)
    requires BoundFilters(b, t, LeadingFilters(stages)) && Proven(b, d, LeadingFilters(stages))
    ensures SortOfKept(b, t, rows, stages, stages[sm.position].keys, sorted)
    ensures PlanScan(t, d, stages).Failed? ==> r.None?
    ensures !PlanScan(t, d, stages).Failed? ==>
              var read := FieldsOf(Cut(sorted, Streaming.Needed(rest, 0)));
              r == Streaming.RunAll(rest, read[..Streaming.Consumed(rest, read, 0)])
    ensures !PlanScan(t, d, stages).Failed? && Streaming.RunAll(rest, FieldsOf(sorted)).Some? ==>
              r == Streaming.RunAll(rest, FieldsOf(sorted))
    ensures Sound(t, ds, RowMapOf(rows)) && StableSafe(b, t, ds, d, stages, sm) ==>
              forall s :: StableSortOfKept(b, t, rows, stages, stages[sm.position].keys, s) <==> s == sorted
  {
    hide Readable, Satisfies, BoundFilters, Proven, LeadingFilters, PlanScan, StableSafe, RowMapOf, ReadRows, Kept,
      RowsAt, Streaming.RunAll, Streaming.Consumed, Cut, SortOfKept, Streaming.Needed, FieldsOf, Sound,
      StableSortOfKept;
    var scan, rm, filters := PlanScan(t, d, stages), RowMapOf(rows), LeadingFilters(stages);
    ReadIsSort(b, t, ds, d, p, ks, rows, stages, sm);
    sorted := ReadRows(b, p, ks, rm, scan, sm.reverse, stages).value;
    if scan.Failed? { return None, sorted; }
    var needed := Streaming.Needed(rest, 0);
    NeededRows(rest, sorted);
    if needed == Some(0) {
      r := Streaming.StreamRows(rest, []);
      return;
    }
    var chosen := ChooseEntries(b, t, d, p, ks, rows, stages, scan, sm.reverse, needed);
    var kept := Kept(b, filters, RowsAt(rm, chosen));
    r := Streaming.StreamRows(rest, FieldsOf(kept.value));
  }

  /** Cutting the rows to what the stages need leaves their result unchanged. */
  lemma NeededRows(rest: seq<Streaming.RowStage>, sorted: seq<Row>)
    ensures var all := Streaming.RunAll(rest, FieldsOf(sorted));
            all.Some? ==> Streaming.RunAll(rest, FieldsOf(Cut(sorted, Streaming.Needed(rest, 0)))) == all
    ensures Streaming.Needed(rest, 0) == Some(0) ==> FieldsOf(Cut(sorted, Streaming.Needed(rest, 0))) == []
  {
    hide Streaming.RunAll, Streaming.Needed;
    var needed := Streaming.Needed(rest, 0);
    if needed.Some? {
      if needed.value <= |sorted| { assert FieldsOf(Cut(sorted, needed)) == FieldsOf(sorted)[..needed.value]; }
      if Streaming.RunAll(rest, FieldsOf(sorted)).Some? { Streaming.NeededSuffices(rest, FieldsOf(sorted), 0); }
    }
  }

  /** The whole index read is a sort of the kept rows, and the only stable one where ties are
      settled. */
  lemma {:induction false} ReadIsSort(
    b: Builtins, t: TableSchema, ds: seq<IndexDefinition>, d: IndexDefinition, p: Posting, ks: seq<Key>, rows: seq<Row>,
    stages: seq<Stage>, sm: SortMatch)
    requires Readable(b, t, d, p, ks, rows, stages) && Satisfies(t, d, stages, sm)
    requires BoundFilters(b, t, LeadingFilters(stages)) && Proven(b, d, LeadingFilters(stages))
    ensures var read := ReadRows(b, p, ks, RowMapOf(rows), PlanScan(t, d, stages), sm.reverse, stages);
            && read.Some? && SortOfKept(b, t, rows, stages, stages[sm.position].keys, read.value)
            && (Sound(t, ds, RowMapOf(rows)) && StableSafe(b, t, ds, d, stages, sm) ==>
                forall s :: StableSortOfKept(b, t, rows, stages, stages[sm.position].keys, s) <==> s == read.value)
  {
    hide Readable, BoundFilters, Proven, LeadingFilters, PlanScan, StableSafe, RowMapOf, ReadRows, Kept,
      StableSorted, SortedRows, Sound, RestFixed;
    SatisfiedSort(t, d, stages, sm);
    OrderedScanAgrees(b, t, d, p, ks, rows, stages, sm);
    hide Satisfies;
    var read := ReadRows(b, p, ks, RowMapOf(rows), PlanScan(t, d, stages), sm.reverse, stages).value;
    if Sound(t, ds, RowMapOf(rows)) && StableSafe(b, t, ds, d, stages, sm) {
      SafeReadsStably(b, t, ds, d, p, ks, rows, stages, sm);
      forall s | StableSortOfKept(b, t, rows, stages, stages[sm.position].keys, s) ensures s == read {
        OneStableSort(b, t, d, p, ks, rows, stages, sm, read, s);
      }
    }
  }

  lemma {:induction false} OneStableSort(
    b: Builtins, t: TableSchema, d: IndexDefinition, p: Posting, ks: seq<Key>, rows: seq<Row>, stages: seq<Stage>,
    sm: SortMatch, read: seq<Row>, s: seq<Row>)
    requires Readable(b, t, d, p, ks, rows, stages) && Satisfies(t, d, stages, sm)
    requires ReadRows(b, p, ks, RowMapOf(rows), PlanScan(t, d, stages), sm.reverse, stages) == Some(read)
    requires multiset(s) == multiset(read)
    requires StableSorted(t, stages[sm.position].keys, read) && StableSorted(t, stages[sm.position].keys, s)
    ensures s == read
  {
    hide Readable, LeadingFilters, PlanScan, RowMapOf, ReadRows, Kept, StableSorted, FiledKey, Passes, Unfileable,
      RowResolver, Selects, FilingOf, RowsAt, ScannedIds, RowsAhead, Comparable;
    SatisfiedSort(t, d, stages, sm);
    hide Satisfies;
    ReadableRows(b, t, d, p, ks, rows, stages);
    RowMapMembers(rows);
    ScanAhead(b, t, d, p, ks, rows, stages, PlanScan(t, d, stages), sm.reverse);
    forall r <- read, k <- stages[sm.position].keys ensures Comparable(t, k, r.fields) {
      FilingAt(t, d, RowMapOf(rows), r.id);
      FiledComparable(t, d, stages, sm, r.fields, k);
    }
    StableUnique(t, stages[sm.position].keys, read, s);
  }
}
