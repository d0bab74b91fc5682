/** Index access agrees with a full scan: the planned range never loses a row that passes
    the leading filters, and sorting the candidates by row ID gives the full scan's
    sequence. */
module IndexAccess {
  import opened Model
  import opened OrderedKey
  import opened KeyBounds
  import opened Schema
  import opened Postings
  import opened TableStore
  import opened Expressions
  import opened Planner
  import opened IndexPredicates
  import opened IndexScan

  ghost predicate TableIndexed(t: TableSchema, d: IndexDefinition, p: Posting, rm: RowMap) {
    Lists(p, FilingOf(t, d, rm)) && forall id <- rm :: !Unfileable(t, d, rm[id])
  }

  ghost predicate BoundFilters(b: Builtins, t: TableSchema, filters: seq<Condition>) {
    forall e <- filters :: BoundComparison(b, t, e) && LiteralsSettled(b, e)
  }

  /** The planned read of one index for the leading stages of a pipeline. */
  function PlanScan(t: TableSchema, d: IndexDefinition, stages: seq<Stage>): Scan {
    var comps, a := BoundComponents(t, d.components),
                    MatchComponents(t, d.components, LeadingConstraints(stages, false));
    if comps.None? || a.Broken? || Used(a) > |comps.value| then Scan.Failed
    else PlanBounds(t.catalog, comps.value, a)
  }

  // ---- Rows that pass are selected --------------------------------------------------------------

  lemma FiledTyped(t: TableSchema, d: IndexDefinition, fields: Fields) returns (comps: seq<Component>, vs: seq<Value>)
    requires FiledKey(t, d, fields).Some?
    ensures BoundComponents(t, d.components) == Some(comps) && TypedRow(t, d.components, comps, vs, fields)
    ensures EncodeComponents(t.catalog, comps, vs) == FiledKey(t, d, fields)
  {
    hide EncodeKey, FieldType, RowField, Oversized, Includes;
    comps, vs := BoundComponents(t, d.components).value, ComponentValues(d.components, fields).value;
    ComponentsEncode(t.catalog, comps, vs);
  }

  lemma {:induction false} LeadingAreSimple(stages: seq<Stage>, started: bool)
    ensures NoInequations(LeadingConstraints(stages, started))
  {
    if stages != [] {
      if stages[0].Let? && !started {
        LeadingAreSimple(stages[1..], false);
      } else if stages[0].Filter? {
        LeadingAreSimple(stages[1..], true);
      }
    }
  }

  lemma {:induction false} PassesEach(b: Builtins, filters: seq<Condition>, r: Resolver, e: Condition)
    requires Passes(b, filters, r) == Some(true) && e in filters
    ensures Evaluate(b, e, r) == Some(true)
  {
    hide Evaluate;
    if e != filters[0] { PassesEach(b, filters[1..], r, e); }
  }

  lemma LeadingLiteralsEncode(b: Builtins, t: TableSchema, cs: seq<IndexComponent>, stages: seq<Stage>)
    requires BoundFilters(b, t, LeadingFilters(stages))
    ensures LiteralsEncode(t, cs, LeadingConstraints(stages, false))
  {
    hide FieldType, Encodes, LeadingConstraints, LeadingFilters, SimpleComparison, LiteralsSettled, Transparent;
    forall c <- LeadingConstraints(stages, false), k <- cs | c.column == k.column
      ensures var ty := FieldType(t.catalog, t.columns, k.column); ty.Some? && Encodes(t.catalog, ty.value, c.value)
    {
      ConstraintsAreFilters(stages, false, c);
    }
  }

  /** On a row the index has filed, the planned range says exactly what the constraints on
      the components it used say. */
  lemma SelectionExact(b: Builtins, t: TableSchema, d: IndexDefinition, stages: seq<Stage>, fields: Fields)
    requires FiledKey(t, d, fields).Some? && BoundFilters(b, t, LeadingFilters(stages))
    ensures var constraints := LeadingConstraints(stages, false);
            var a := MatchComponents(t, d.components, constraints);
            && !PlanScan(t, d, stages).Failed? && a.Access? && Used(a) <= |d.components|
            && (Selects(PlanScan(t, d, stages), FiledKey(t, d, fields).value) <==>
                UsedHold(t, d.components, constraints, Used(a), fields))
  {
    hide FiledKey, LeadingConstraints, MatchComponents, BoundComponents, PlanBounds, Selects, UsedHold,
      EncodeComponents, BoundFilters, AccessHolds, AccessEncodes, LiteralsEncode;
    var comps, vs := FiledTyped(t, d, fields);
    var constraints := LeadingConstraints(stages, false);
    LeadingAreSimple(stages, false);
    LeadingLiteralsEncode(b, t, d.components, stages);
    AccessExact(t, d.components, comps, vs, constraints, fields);
    BoundsExact(t.catalog, comps, vs, MatchComponents(t, d.components, constraints));
  }

  /** A row that passes the leading filters meets every constraint on an index column. */
  lemma PassingHolds(b: Builtins, t: TableSchema, d: IndexDefinition, stages: seq<Stage>, fields: Fields, used: nat)
    requires FiledKey(t, d, fields).Some? && BoundFilters(b, t, LeadingFilters(stages)) && used <= |d.components|
    requires Passes(b, LeadingFilters(stages), RowResolver(fields)) == Some(true)
    ensures UsedHold(t, d.components, LeadingConstraints(stages, false), used, fields)
  {
    hide FiledKey, LeadingConstraints, LeadingFilters, FieldType, RowField, Encodes, Passes, Evaluate,
      SimpleComparison, BoundComparison, LiteralsSettled, ConstraintHolds;
    var comps, vs := FiledTyped(t, d, fields);
    var constraints := LeadingConstraints(stages, false);
    forall i, c | 0 <= i < used && c in Own(constraints, d.components[i].column) ensures ConstraintHolds(t, c, fields) {
      ConstraintsAreFilters(stages, false, c);
      var e :| e in LeadingFilters(stages) && SimpleComparison(e) == Some(c);
      PassesEach(b, LeadingFilters(stages), RowResolver(fields), e);
      FilterMeaning(b, t, e, fields);
    }
  }

  /** The index loses no row: one that passes the leading filters is filed, and its key is
      in the planned range. */
  lemma PassingSelected(b: Builtins, t: TableSchema, d: IndexDefinition, stages: seq<Stage>, fields: Fields)
    requires !Unfileable(t, d, fields) && BoundFilters(b, t, LeadingFilters(stages))
             && Proven(b, d, LeadingFilters(stages))
    requires Passes(b, LeadingFilters(stages), RowResolver(fields)) == Some(true)
    ensures FiledKey(t, d, fields).Some? && Selects(PlanScan(t, d, stages), FiledKey(t, d, fields).value)
  {
    hide Passes, LeadingFilters, Includes, IndexKey, PlanScan, Selects, LeadingConstraints, MatchComponents, Proven,
      BoundFilters, UsedHold, LiteralsSettled;
    assert Includes(d, fields) by {
      SettledFilters(b, t, LeadingFilters(stages));
      ProvenIncludes(b, d, LeadingFilters(stages), fields);
    }
    SelectionExact(b, t, d, stages, fields);
    PassingHolds(b, t, d, stages, fields, Used(MatchComponents(t, d.components, LeadingConstraints(stages, false))));
  }

  lemma SettledFilters(b: Builtins, t: TableSchema, filters: seq<Condition>)
    requires BoundFilters(b, t, filters)
    ensures forall e <- filters :: LiteralsSettled(b, e)
  {}

  // ---- Candidate rows ---------------------------------------------------------------------------

  function SortedIds(ids: seq<RowId>): (r: seq<RowId>)
    ensures Ascending(r)
    ensures forall id :: id in r <==> id in ids
  {
    if ids == [] then [] else
    var rest := SortedIds(ids[1..]);
    if ids[0] in rest then rest else
      WithIdMembers(rest, ids[0]);
      WithId(rest, ids[0])
  }

  function RowsAt(rm: RowMap, ids: seq<RowId>): seq<Row> {
    if ids == [] then []
    else (if ids[0] in rm then [Row(ids[0], rm[ids[0]])] else []) + RowsAt(rm, ids[1..])
  }

  /** Run the leading filters over rows; an error in any row is an error. */
  function Kept(b: Builtins, filters: seq<Condition>, rows: seq<Row>): Option<seq<Row>> {
    if rows == [] then Some([]) else
    var x, rest := Passes(b, filters, RowResolver(rows[0].fields)), Kept(b, filters, rows[1..]);
    if x.None? || rest.None? then None
    else Some((if x.value then [rows[0]] else []) + rest.value)
  }

  lemma {:induction false} RowsAtMembers(rm: RowMap, ids: seq<RowId>)
    ensures forall r :: r in RowsAt(rm, ids) <==> r.id in ids && r.id in rm && rm[r.id] == r.fields
    ensures Ascending(ids) ==> AscendingRows(RowsAt(rm, ids))
  {
    if ids != [] {
      RowsAtMembers(rm, ids[1..]);
      assert forall id :: id in ids <==> id == ids[0] || id in ids[1..];
      if Ascending(ids) {
        var rest := RowsAt(rm, ids[1..]);
        forall j | 0 <= j < |rest| ensures ids[0] < rest[j].id {
          assert rest[j] in rest;
          var m :| 0 <= m < |ids[1..]| && ids[1..][m] == rest[j].id;
          assert ids[m+1] == rest[j].id;
        }
      }
    }
  }

  lemma {:induction false} KeptMembers(b: Builtins, filters: seq<Condition>, rows: seq<Row>)
    requires forall r <- rows :: Passes(b, filters, RowResolver(r.fields)).Some?
    ensures Kept(b, filters, rows).Some?
    ensures forall r :: r in Kept(b, filters, rows).value <==>
              r in rows && Passes(b, filters, RowResolver(r.fields)) == Some(true)
    ensures AscendingRows(rows) ==> AscendingRows(Kept(b, filters, rows).value)
  {
    hide Passes;
    if rows != [] {
      KeptMembers(b, filters, rows[1..]);
      var rest := Kept(b, filters, rows[1..]).value;
      assert forall r :: r in rows <==> r == rows[0] || r in rows[1..];
      if AscendingRows(rows) {
        forall j | 0 <= j < |rest| ensures rows[0].id < rest[j].id {
          assert rest[j] in rows[1..];
          var m :| 0 <= m < |rows[1..]| && rows[1..][m] == rest[j];
          assert rows[m+1] == rest[j];
        }
      }
    }
  }

  lemma {:induction false} AscendingRowsUnique(a: seq<Row>, b: seq<Row>)
    requires AscendingRows(a) && AscendingRows(b) && forall r :: r in a <==> r in b
    ensures a == b
    decreases |a|
  {
    if b != [] { assert b[0] in b; }
    if a != [] {
      assert a[0] in b && b[0] in a;
      assert a[0] == b[0];
      RowTail(a);
      RowTail(b);
      AscendingRowsUnique(a[1..], b[1..]);
      assert a == [a[0]] + a[1..] && b == [b[0]] + b[1..];
    }
  }

  lemma RowTail(a: seq<Row>)
    requires a != [] && AscendingRows(a)
    ensures forall r :: r in a[1..] <==> r in a && r != a[0]
  {
    forall r ensures r in a[1..] <==> r in a && r != a[0] {
      if r in a && r != a[0] {
        var i :| 0 <= i < |a| && a[i] == r;
        assert a[1..][i-1] == r;
      }
    }
  }

  function ScannedIds(p: Posting, keys: seq<Key>, scan: Scan, reverse: bool): seq<RowId> {
    if scan.Range? then ScanOrder(p, keys, scan.bounds, reverse) else []
  }

  /** What the scan of a plan reads, as a set of rows. */
  lemma ScannedMeaning(p: Posting, f: Filing, keys: seq<Key>, scan: Scan, reverse: bool)
    requires Lists(p, f) && KeysOf(p, keys)
    ensures forall id :: id in ScannedIds(p, keys, scan, reverse) <==> id in f && Selects(scan, f[id])
  {
    hide Lists, KeysOf, ScanOrder, Contains;
    if scan.Range? { ScanMeaning(p, f, keys, scan.bounds, reverse); }
  }

  /** Candidates of an unordered plan, re-filtered, are exactly the rows the full scan
      keeps, in the same order. */
  lemma AccessAgrees(
    b: Builtins, t: TableSchema, d: IndexDefinition, p: Posting, keys: seq<Key>, rows: seq<Row>, stages: seq<Stage>)
    requires AscendingRows(rows) && TableIndexed(t, d, p, RowMapOf(rows)) && KeysOf(p, keys)
    requires BoundFilters(b, t, LeadingFilters(stages)) && Proven(b, d, LeadingFilters(stages))
    requires AllEvaluate(b, LeadingFilters(stages), RowMapOf(rows))
    ensures var candidates := SortedIds(ScannedIds(p, keys, PlanScan(t, d, stages), false));
            Kept(b, LeadingFilters(stages), RowsAt(RowMapOf(rows), candidates)) == Kept(b, LeadingFilters(stages), rows)
  {
    hide RowMapOf, FilingOf, Lists, KeysOf, LeadingFilters, PlanScan, Selects, ScannedIds, Passes, Kept, RowsAt,
      Unfileable, BoundFilters, Proven;
    var rm, filters, scan := RowMapOf(rows), LeadingFilters(stages), PlanScan(t, d, stages);
    var f := FilingOf(t, d, rm);
    var candidates := SortedIds(ScannedIds(p, keys, scan, false));
    var picked := RowsAt(rm, candidates);
    RowMapMembers(rows);
    RowsAtMembers(rm, candidates);
    ScannedMeaning(p, f, keys, scan, false);
    KeptMembers(b, filters, rows);
    KeptMembers(b, filters, picked);
    var all, some := Kept(b, filters, rows).value, Kept(b, filters, picked).value;
    forall r ensures r in all <==> r in some {
      if r in all {
        PassingSelected(b, t, d, stages, r.fields);
        FilingAt(t, d, rm, r.id);
      }
    }
    AscendingRowsUnique(all, some);
  }

  lemma {:induction false} KeptFails(b: Builtins, filters: seq<Condition>, rows: seq<Row>)
    ensures Kept(b, filters, rows).None? <==> exists r <- rows :: Passes(b, filters, RowResolver(r.fields)).None?
  {
    hide Passes;
    if rows != [] {
      KeptFails(b, filters, rows[1..]);
      assert forall r :: r in rows <==> r == rows[0] || r in rows[1..];
    }
  }

  /** Filters that fail on some rows: the index read fails exactly when a row in the planned
      range does, and otherwise gives exactly the rows that pass, in row ID order. A full scan
      fails on any failing row; where it succeeds, both agree. */
  lemma {:induction false} AccessErrors(
    b: Builtins, t: TableSchema, d: IndexDefinition, p: Posting, keys: seq<Key>, rows: seq<Row>, stages: seq<Stage>)
    requires AscendingRows(rows) && TableIndexed(t, d, p, RowMapOf(rows)) && KeysOf(p, keys)
    requires BoundFilters(b, t, LeadingFilters(stages)) && Proven(b, d, LeadingFilters(stages))
    ensures var candidates, filters := SortedIds(ScannedIds(p, keys, PlanScan(t, d, stages), false)),
            LeadingFilters(stages);
            var some, all := Kept(b, filters, RowsAt(RowMapOf(rows), candidates)), Kept(b, filters, rows);
            && (some.None? <==>
                exists r <- rows :: InPlan(t, d, stages, r) && Passes(b, filters, RowResolver(r.fields)).None?)
            && (some.Some? ==> AscendingRows(some.value))
            && (some.Some? ==> forall r :: r in some.value <==>
                  r in rows && Passes(b, filters, RowResolver(r.fields)) == Some(true))
            && (all.Some? ==> some == all)
  {
    hide RowMapOf, FilingOf, Lists, KeysOf, LeadingFilters, PlanScan, Selects, ScannedIds, Passes, Kept, RowsAt,
      Unfileable, BoundFilters, Proven, FiledKey;
    var rm, filters, scan := RowMapOf(rows), LeadingFilters(stages), PlanScan(t, d, stages);
    var f := FilingOf(t, d, rm);
    var candidates := SortedIds(ScannedIds(p, keys, scan, false));
    var picked := RowsAt(rm, candidates);
    RowMapMembers(rows);
    RowsAtMembers(rm, candidates);
    ScannedMeaning(p, f, keys, scan, false);
    forall r ensures r in picked <==> r in rows && InPlan(t, d, stages, r) {
      if r.id in rm { FilingAt(t, d, rm, r.id); }
    }
    KeptFails(b, filters, rows);
    KeptFails(b, filters, picked);
    if Kept(b, filters, picked).Some? {
      KeptMembers(b, filters, picked);
      forall r <- rows | Passes(b, filters, RowResolver(r.fields)) == Some(true) ensures r in picked {
        PassingSelected(b, t, d, stages, r.fields);
      }
    }
    if Kept(b, filters, rows).Some? {
      KeptMembers(b, filters, rows);
      AscendingRowsUnique(Kept(b, filters, rows).value, Kept(b, filters, picked).value);
    }
  }

  /** The row's key is in the planned range. */
  ghost predicate InPlan(t: TableSchema, d: IndexDefinition, stages: seq<Stage>, r: Row) {
    FiledKey(t, d, r.fields).Some? && Selects(PlanScan(t, d, stages), FiledKey(t, d, r.fields).value)
  }

  lemma FilingAt(t: TableSchema, d: IndexDefinition, rm: RowMap, id: RowId)
    requires id in rm
    ensures id in FilingOf(t, d, rm) <==> FiledKey(t, d, rm[id]).Some?
    ensures id in FilingOf(t, d, rm) ==> FilingOf(t, d, rm)[id] == FiledKey(t, d, rm[id]).value
  {
    hide FiledKey;
  }
}
