/** A correlated `exists` read through the index its correlation was bound to: the rewritten
    filters, a sort on the correlated column and a take of one row. */
module ExistsReads {
  import opened Model
  import opened OrderedKey
  import opened KeyBounds
  import opened Schema
  import opened Postings
  import opened TableStore
  import opened Expressions
  import opened Planner
  import opened IndexPredicates
  import opened IndexScan
  import opened IndexAccess
  import opened OrderedScan
  import opened IndexReads
  import Exists
  import Streaming

  /** The leading equality once binding has given it the type of its column. */
  function BoundLeading(t: TableSchema, c: Exists.Correlation, v: Value): Condition {
    Comparison(Reference(c.target), Eq, Literal(v), FieldType(t.catalog, t.columns, c.target))
  }

  /** Binding the substituted filters again: they are bound, and evaluate as before on the
      rows of the table. */
  ghost predicate Rebinds(b: Builtins, t: TableSchema, rows: seq<Row>, filters: seq<Condition>, bound: seq<Condition>) {
    && BoundFilters(b, t, bound) && |bound| == |filters|
    && forall i, r :: 0 <= i < |filters| && r in rows ==>
         Evaluate(b, bound[i], RowResolver(r.fields)) == Evaluate(b, filters[i], RowResolver(r.fields))
  }

  function FilterStages(filters: seq<Condition>, rest: seq<Stage>): seq<Stage> {
    if filters == [] then rest else [Filter(filters[0])] + FilterStages(filters[1..], rest)
  }

  /** The pipeline the executor runs on the target table. */
  function ExistsStages(filters: seq<Condition>, target: string): seq<Stage> {
    FilterStages(filters, [Sort([SortKey(target, false)]), Take(0, 1)])
  }

  lemma {:induction false} StagesFilter(filters: seq<Condition>, target: string)
    ensures LeadingFilters(ExistsStages(filters, target)) == filters && LetsEnd(ExistsStages(filters, target)) == 0
    ensures |ExistsStages(filters, target)| == |filters| + 2
    ensures ExistsStages(filters, target)[|filters|] == Sort([SortKey(target, false)])
    ensures forall i :: 0 <= i < |filters| ==> ExistsStages(filters, target)[i] == Filter(filters[i])
  {
    if filters != [] {
      var stages := ExistsStages(filters, target);
      StagesFilter(filters[1..], target);
      assert stages[1..] == ExistsStages(filters[1..], target);
    }
  }

  lemma {:induction false} SamePasses(b: Builtins, filters: seq<Condition>, bound: seq<Condition>, r: Resolver)
    requires |bound| == |filters| && forall i :: 0 <= i < |filters| ==>
                                       Evaluate(b, bound[i], r) == Evaluate(b, filters[i], r)
    ensures Passes(b, bound, r) == Passes(b, filters, r)
  {
    hide Evaluate;
    if filters != [] {
      assert forall i :: 0 <= i < |filters| - 1 ==> bound[1..][i] == bound[i+1] && filters[1..][i] == filters[i+1];
      SamePasses(b, filters[1..], bound[1..], r);
    }
  }

  /** The bound pipeline keeps a row exactly when the original inner filters hold of it. */
  lemma {:induction false} BoundPasses(
    b: Builtins, t: TableSchema, rows: seq<Row>, filters: seq<Condition>, c: Exists.Correlation, outer: Fields,
    bound: seq<Condition>, r: Row)
    requires (forall e <- filters :: Exists.PlainBindings(e)) && c in Exists.AllCorrelations(filters) && r in rows
    requires Exists.Inner(filters, outer).Some? && RowField(outer, c.outer).Some?
    requires Rebinds(b, t, rows, Exists.Inner(filters, outer).value, bound)
    requires Passes(b, filters, Exists.WithOuter(outer, RowResolver(r.fields))).Some?
    ensures Passes(b, [BoundLeading(t, c, RowField(outer, c.outer).value)] + bound, RowResolver(r.fields)) ==
            Passes(b, filters, Exists.WithOuter(outer, RowResolver(r.fields)))
  {
    hide RowField, EqualValues, FieldType, BoundFilters;
    var x, inner := RowResolver(r.fields), Exists.Inner(filters, outer).value;
    var v := RowField(outer, c.outer).value;
    var plain, typed := Exists.Leading(c, outer).value, BoundLeading(t, c, v);
    assert Evaluate(b, typed, x) == Evaluate(b, plain, x);
    hide Evaluate;
    var from, to := [plain] + inner, [typed] + bound;
    forall i | 0 <= i < |from| ensures Evaluate(b, to[i], x) == Evaluate(b, from[i], x) {
      if i > 0 { assert to[i] == bound[i-1] && from[i] == inner[i-1]; }
    }
    SamePasses(b, from, to, x);
    Exists.Decorrelated(b, filters, c, outer, r.fields);
  }

  lemma {:induction false} MatchFits(t: TableSchema, cs: seq<IndexComponent>, constraints: seq<Constraint>)
    ensures var a := MatchComponents(t, cs, constraints); a.Access? ==> |a.equality| <= |cs|
  {
    hide FieldType, MeetsAll, Merge, RangeIsEmpty, Own, FirstEqual;
    if cs != [] { MatchFits(t, cs[1..], constraints); }
  }

  /** A row passes the inner filters for this outer row. */
  ghost predicate Inside(b: Builtins, filters: seq<Condition>, outer: Fields, r: Row) {
    Passes(b, filters, Exists.WithOuter(outer, RowResolver(r.fields))) == Some(true)
  }

  /** Evaluate an `exists` through the forced index. When the filters are all simple the
      index also satisfies the added sort and one entry is read; otherwise the candidates
      are read in row ID order. Either way the answer is whether some row of the target
      table satisfies the inner filters. */
  method EvaluateThroughIndex(
    b: Builtins, t: TableSchema, d: IndexDefinition, p: Posting, ks: seq<Key>, rows: seq<Row>, filters: seq<Condition>,
    c: Exists.Correlation, outer: Fields, bound: seq<Condition>) returns (r: Option<bool>)
    requires (forall e <- filters :: Exists.PlainBindings(e)) && c in Exists.AllCorrelations(filters)
    requires d.guard.None? && d.components != [] && d.components[0].column == c.target
    requires AscendingRows(rows) && TableIndexed(t, d, p, RowMapOf(rows)) && KeysOf(p, ks)
    requires forall x <- rows :: Passes(b, filters, Exists.WithOuter(outer, RowResolver(x.fields))).Some?
    requires Exists.Inner(filters, outer).Some? && RowField(outer, c.outer).Some? ==>
      && Rebinds(b, t, rows, Exists.Inner(filters, outer).value, bound)
      && BoundFilters(b, t, [BoundLeading(t, c, RowField(outer, c.outer).value)] + bound)
    ensures Exists.Inner(filters, outer).None? || RowField(outer, c.outer).None? ==> r.None?
    ensures Exists.Inner(filters, outer).Some? && RowField(outer, c.outer).Some? ==>
              var stages := ExistsStages([BoundLeading(t, c, RowField(outer, c.outer).value)] + bound, c.target);
              r == if PlanScan(t, d, stages).Failed? then None
                   else Some(exists x <- rows :: Inside(b, filters, outer, x))
  {
    hide RowField, FieldType, BoundFilters, TableIndexed, KeysOf, RowMapOf, Passes, PlanScan, MatchComponents,
      LeadingConstraints, LeadingFilters, ExistsStages, Rebinds, BoundLeading, IndexSortMatch, Kept, RowsAt,
      ScannedIds, SortedIds, Streaming.RunAll, Streaming.Consumed, Streaming.Needed, SortOfKept, FieldsOf, Readable,
      RowResolver, RestFixed, Exists.AllCorrelations;
    var value, inner := RowField(outer, c.outer), Exists.Inner(filters, outer);
    if value.None? || inner.None? { return None; }
    var all := [BoundLeading(t, c, value.value)] + bound;
    var stages, rm := ExistsStages(all, c.target), RowMapOf(rows);
    StagesFilter(all, c.target);
    KeptInside(b, t, rows, filters, c, outer, bound);
    assert Readable(b, t, d, p, ks, rows, stages) by { AllReadable(b, t, d, p, ks, rows, all, stages); }
    assert Proven(b, d, all);
    var a := MatchComponents(t, d.components, LeadingConstraints(stages, false));
    if a.Broken? {
      BrokenPlan(t, d, stages);
      return None;
    }
    MatchFits(t, d.components, LeadingConstraints(stages, false));
    var sort := IndexSortMatch(stages, d.components, |a.equality|);
    if sort.Some? {
      assert Satisfies(t, d, stages, sort.value) by { MatchSatisfies(t, d, stages, sort.value); }
      var found, sorted := RunFromIndex(b, t, d, p, ks, rows, stages, sort.value, [Streaming.Take(0, 1)], []);
      OneTaken(b, t, rows, stages, stages[sort.value.position].keys, sorted);
      if found.None? { return None; }
      return Some(found.value != []);
    }
    var scan := PlanScan(t, d, stages);
    if scan.Failed? { return None; }
    AccessAgrees(b, t, d, p, ks, rows, stages) by { ReadableRows(b, t, d, p, ks, rows, stages); }
    var kept := Kept(b, all, RowsAt(rm, SortedIds(ScannedIds(p, ks, scan, false))));
    return Some(kept.value != []);
  }

  /** With simple filters only, the forced index satisfies the added sort: the equality in
      front fixes its column. */
  lemma SimpleFiltersOrdered(t: TableSchema, d: IndexDefinition, c: Exists.Correlation, v: Value, bound: seq<Condition>)
    requires d.components != [] && d.components[0].column == c.target
    requires forall e <- bound :: SimpleComparison(e).Some?
    requires MatchComponents(t, d.components,
                             LeadingConstraints(ExistsStages([BoundLeading(t, c, v)] + bound, c.target), false)).Access?
    ensures Satisfies(t, d, ExistsStages([BoundLeading(t, c, v)] + bound, c.target), SortMatch(|bound| + 1, false))
  {
    hide FieldType, ExistsStages, MeetsAll, Merge, RangeIsEmpty;
    var all := [BoundLeading(t, c, v)] + bound;
    var stages := ExistsStages(all, c.target);
    StagesFilter(all, c.target);
    assert SimpleComparison(all[0]) == Some(Constraint(c.target, Eq, v));
    AllFilters(stages, all, 0);
    var constraints := LeadingConstraints(stages, false);
    assert Constraint(c.target, Eq, v) in constraints by {
      assert stages[0] == Filter(all[0]);
      assert constraints[0] == Constraint(c.target, Eq, v);
    }
    MatchFits(t, d.components, constraints);
    var own := Own(constraints, c.target);
    assert Constraint(c.target, Eq, v) in own;
    var a := MatchComponents(t, d.components, constraints);
    assert |a.equality| >= 1;
    hide MatchComponents;
    assert d.components[0].column in FixedColumns(d.components, |a.equality|);
    var keys := [SortKey(c.target, false)];
    assert Visible(keys[1..], FixedColumns(d.components, |a.equality|)) == [];
    assert Visible(keys, FixedColumns(d.components, |a.equality|)) == [];
  }

  lemma {:induction false} AllFilters(stages: seq<Stage>, filters: seq<Condition>, i: nat)
    requires i <= |filters| < |stages| && !stages[|filters|].Filter?
    requires forall j :: 0 <= j < |filters| ==> stages[j] == Filter(filters[j]) && SimpleComparison(filters[j]).Some?
    ensures FiltersEnd(stages, i) == Some(|filters|)
    decreases |filters| - i
  {
    hide SimpleComparison;
    if i < |filters| { AllFilters(stages, filters, i + 1); }
  }

  lemma BrokenPlan(t: TableSchema, d: IndexDefinition, stages: seq<Stage>)
    requires MatchComponents(t, d.components, LeadingConstraints(stages, false)).Broken?
    ensures PlanScan(t, d, stages).Failed?
  {
    hide MatchComponents, LeadingConstraints, BoundComponents;
  }

  lemma MatchSatisfies(t: TableSchema, d: IndexDefinition, stages: seq<Stage>, sm: SortMatch)
    requires var a := MatchComponents(t, d.components, LeadingConstraints(stages, false));
             && a.Access? && |a.equality| <= |d.components|
             && IndexSortMatch(stages, d.components, |a.equality|) == Some(sm)
    ensures Satisfies(t, d, stages, sm)
  {
    hide MatchComponents, LeadingConstraints, Visible, FiltersEnd, LetsEnd;
  }

  /** Some row is kept exactly when one satisfies the original filters. */
  lemma {:induction false} KeptInside(
    b: Builtins, t: TableSchema, rows: seq<Row>, filters: seq<Condition>, c: Exists.Correlation, outer: Fields,
    bound: seq<Condition>)
    requires (forall e <- filters :: Exists.PlainBindings(e)) && c in Exists.AllCorrelations(filters)
    requires Exists.Inner(filters, outer).Some? && RowField(outer, c.outer).Some?
    requires Rebinds(b, t, rows, Exists.Inner(filters, outer).value, bound)
    requires forall x <- rows :: Passes(b, filters, Exists.WithOuter(outer, RowResolver(x.fields))).Some?
    ensures var all := [BoundLeading(t, c, RowField(outer, c.outer).value)] + bound;
            var kept := Kept(b, all, rows);
            && (forall x <- rows :: Passes(b, all, RowResolver(x.fields)).Some?)
            && kept.Some? && (kept.value != [] <==> exists x <- rows :: Inside(b, filters, outer, x))
  {
    hide RowField, Passes, Rebinds, BoundLeading, Kept, Exists.AllCorrelations;
    var all := [BoundLeading(t, c, RowField(outer, c.outer).value)] + bound;
    forall x <- rows
      ensures Passes(b, all, RowResolver(x.fields)).Some?
      ensures Passes(b, all, RowResolver(x.fields)) == Some(true) <==> Inside(b, filters, outer, x)
    {
      BoundPasses(b, t, rows, filters, c, outer, bound, x);
    }
    KeptMembers(b, all, rows);
    var kept := Kept(b, all, rows).value;
    if kept != [] { assert kept[0] in kept; }
  }

  lemma AllReadable(
    b: Builtins, t: TableSchema, d: IndexDefinition, p: Posting, ks: seq<Key>, rows: seq<Row>, filters: seq<Condition>,
    stages: seq<Stage>)
    requires AscendingRows(rows) && TableIndexed(t, d, p, RowMapOf(rows)) && KeysOf(p, ks)
             && LeadingFilters(stages) == filters
    requires forall x <- rows :: Passes(b, filters, RowResolver(x.fields)).Some?
    ensures Readable(b, t, d, p, ks, rows, stages)
  {
    hide TableIndexed, KeysOf, RowMapOf, Passes, LeadingFilters, RowResolver;
    RowMapMembers(rows);
    forall id <- RowMapOf(rows) ensures Passes(b, filters, RowResolver(RowMapOf(rows)[id])).Some? {
      assert Row(id, RowMapOf(rows)[id]) in rows;
    }
  }

  /** Taking one of the sorted rows finds a row exactly when one is kept. */
  lemma {:induction false} OneTaken(
    b: Builtins, t: TableSchema, rows: seq<Row>, stages: seq<Stage>, keys: seq<SortKey>, sorted: seq<Row>)
    requires SortOfKept(b, t, rows, stages, keys, sorted)
    ensures var kept := Kept(b, LeadingFilters(stages), rows);
            var taken := Streaming.RunAll([Streaming.Take(0, 1)], FieldsOf(sorted));
            kept.Some? && taken.Some? && (taken.value != [] <==> kept.value != [])
  {
    hide LeadingFilters, Kept, SortedRows;
    var kept := Kept(b, LeadingFilters(stages), rows).value;
    assert |multiset(sorted)| == |sorted| && |multiset(kept)| == |kept|;
    var s := [Streaming.Take(0, 1)];
    assert s[..0] == [] && Streaming.RunAll(s[..0], FieldsOf(sorted)) == Some(FieldsOf(sorted));
  }
}
