/** Streaming aggregation: rows are folded into one accumulator per group as they arrive.
    The result is that of grouping the rows first and folding each group afterwards. */
module Aggregation {
  import opened Bytes
  import opened Scalars
  import opened Model
  import opened OrderedKey
  import opened KeyBounds
  import opened Schema
  import opened ValueKeys

  datatype AggregateFunction =
    | Count | CountDistinct | DurationAverage | IntSum | DurationSum
    | Min(ty: ScalarType)
    | Max(ty: ScalarType)

  /** One output field: its function and its input expression, None where evaluating the
      input is an error. */
  datatype Assignment = Assignment(name: string, function_: AggregateFunction, input: Fields -> Option<Value>)

  datatype State =
    | Counted(count: I64)
    | Distinct(seen: set<string>)
    | Averaged(wide: Option<I128>, count: I64)
    | Summed(total: Option<I64>)
    | Extreme(value: Option<Value>)

  function Initial(f: AggregateFunction): State {
    match f
    case Count => Counted(0)
    case CountDistinct => Distinct({})
    case DurationAverage => Averaged(None, 0)
    case IntSum => Summed(None)
    case DurationSum => Summed(None)
    case Min(_) => Extreme(None)
    case Max(_) => Extreme(None)
  }

  function Increment(count: I64): Option<I64> {
    if count + 1 < TWO_63 then Some(count + 1) else None
  }

  /** Checked 64-bit addition. */
  function Plus(total: Option<I64>, v: I64): Option<I64> {
    var sum := (if total.Some? then total.value else 0) + v;
    if -TWO_63 <= sum < TWO_63 then Some(sum) else None
  }

  /** The running total of an average is added without a check; a total outside 128 bits
      would be a failure of the program. */
  predicate Overflows(total: Option<I128>, v: I64) {
    var sum := (if total.Some? then total.value else 0) + v;
    !(-TWO_127 <= sum < TWO_127)
  }

  function UpdateExtreme(
    catalog: Catalog, ty: ScalarType, current: Option<Value>, v: Value, minimum: bool): Option<Value> {
    if current.None? then Some(v) else
    var o := CompareTyped(catalog, ty, v, current.value, 0);
    if o.None? then None
    else if o.value == (if minimum then Less else Greater) then Some(v) else current
  }

  function Step(catalog: Catalog, indexKey: Value -> string, a: Assignment, s: State, row: Fields): Option<State> {
    if a.function_.Count? then
      if !s.Counted? || Increment(s.count).None? then None else Some(Counted(Increment(s.count).value))
    else
      var v := a.input(row);
      if v.None? then None else
      var u := Unwrapped(v.value);
      match a.function_
      case CountDistinct => if s.Distinct? then Some(Distinct(s.seen + {indexKey(v.value)})) else None
      case DurationAverage =>
        if !s.Averaged? || Increment(s.count).None? || !u.Duration? || Overflows(s.wide, u.micros) then None
        else Some(Averaged(Some((if s.wide.Some? then s.wide.value else 0) + u.micros), s.count + 1))
      case IntSum =>
        if !s.Summed? || !u.Int? || Plus(s.total, u.i).None? then None
        else Some(Summed(Plus(s.total, u.i)))
      case DurationSum =>
        if !s.Summed? || !u.Duration? || Plus(s.total, u.micros).None? then None
        else Some(Summed(Plus(s.total, u.micros)))
      case Min(ty) =>
        if !s.Extreme? || UpdateExtreme(catalog, ty, s.value, v.value, true).None? then None
        else Some(Extreme(UpdateExtreme(catalog, ty, s.value, v.value, true)))
      case Max(ty) =>
        if !s.Extreme? || UpdateExtreme(catalog, ty, s.value, v.value, false).None? then None
        else Some(Extreme(UpdateExtreme(catalog, ty, s.value, v.value, false)))
  }

  /** One function folded over the rows of one group. */
  function Fold(catalog: Catalog, indexKey: Value -> string, a: Assignment, rows: seq<Fields>): Option<State> {
    if rows == [] then Some(Initial(a.function_)) else
    var s := Fold(catalog, indexKey, a, rows[..|rows|-1]);
    if s.None? then None else Step(catalog, indexKey, a, s.value, rows[|rows|-1])
  }

  // ---- Groups -----------------------------------------------------------------------------------

  datatype Plan = Plan(catalog: Catalog, indexKey: Value -> string, groupBy: seq<string>, assignments: seq<Assignment>)

  type GroupKey = seq<string>

  datatype Group = Group(fields: seq<(string, Value)>, states: seq<State>)

  function KeyValues(paths: seq<string>, row: Fields): Option<seq<Value>> {
    if paths == [] then Some([]) else
    var v, rest := RowField(row, paths[0]), KeyValues(paths[1..], row);
    if v.None? || rest.None? then None else Some([v.value] + rest.value)
  }

  function KeyOfRow(p: Plan, row: Fields): Option<GroupKey> {
    var vs := KeyValues(p.groupBy, row);
    if vs.None? then None else Some(seq(|vs.value|, i requires 0 <= i < |vs.value| => p.indexKey(vs.value[i])))
  }

  function GroupFields(p: Plan, row: Fields): seq<(string, Value)> {
    var vs := KeyValues(p.groupBy, row);
    if vs.None? || |vs.value| != |p.groupBy| then []
    else seq(|vs.value|, i requires 0 <= i < |vs.value| => (p.groupBy[i], vs.value[i]))
  }

  function InitialStates(assignments: seq<Assignment>): seq<State> {
    seq(|assignments|, i requires 0 <= i < |assignments| => Initial(assignments[i].function_))
  }

  /** The rows of one group, in input order. */
  function Matching(p: Plan, rows: seq<Fields>, key: GroupKey): seq<Fields> {
    if rows == [] then []
    else Matching(p, rows[..|rows|-1], key) + if KeyOfRow(p, rows[|rows|-1]) == Some(key) then [rows[|rows|-1]] else []
  }

  /** The group holds, for every output field, the fold over the group's rows. */
  ghost predicate IsFold(p: Plan, g: Group, rows: seq<Fields>) {
    |g.states| == |p.assignments| &&
    forall i :: 0 <= i < |p.assignments| ==> Fold(p.catalog, p.indexKey, p.assignments[i], rows) == Some(g.states[i])
  }

  /** The group's own fields are those of its first row. */
  ghost predicate IsNamed(p: Plan, g: Group, rows: seq<Fields>) {
    g.fields == if rows == [] then [] else GroupFields(p, rows[0])
  }

  ghost predicate Grouped(p: Plan, groups: map<GroupKey, Group>, rows: seq<Fields>) {
    && (forall k <- groups :: IsFold(p, groups[k], Matching(p, rows, k)) && IsNamed(p, groups[k], Matching(p, rows, k)))
    && (forall k :: k in groups <==> Matching(p, rows, k) != [] || (p.groupBy == [] && k == []))
  }

  /** Some output field fails on some group's rows so far, or a row lacks a group field. */
  ghost predicate Fails(p: Plan, rows: seq<Fields>) {
    exists n :: 0 < n <= |rows| && FailsAt(p, rows, n)
  }

  ghost predicate FailsAt(p: Plan, rows: seq<Fields>, n: nat)
    requires 0 < n <= |rows|
  {
    var key := KeyOfRow(p, rows[n-1]);
    key.None? || exists a <- p.assignments :: Fold(p.catalog, p.indexKey, a, Matching(p, rows[..n], key.value)).None?
  }

  class Aggregator {
    const plan: Plan
    var groups: map<GroupKey, Group>

    /** With no group fields there is one group from the start. */
    constructor (plan: Plan)
      ensures this.plan == plan && Grouped(plan, groups, [])
    {
      this.plan := plan;
      groups := if plan.groupBy == [] then map[[] := Group([], InitialStates(plan.assignments))] else map[];
    }

    method AddRow(row: Fields, ghost rows: seq<Fields>) returns (ok: bool)
      requires Grouped(plan, groups, rows)
      modifies this
      ensures ok ==> Grouped(plan, groups, rows + [row])
      ensures !ok <==> FailsAt(plan, rows + [row], |rows| + 1)
    {
      hide Fold, Matching, KeyOfRow, Step, GroupFields;
      var key := KeyOfRow(plan, row);
      assert (rows + [row])[..|rows| + 1] == rows + [row] && (rows + [row])[|rows|] == row;
      if key.None? { return false; }
      MatchingPush(plan, rows, row);
      var g := if key.value in groups then groups[key.value]
      else Group(GroupFields(plan, row), InitialStates(plan.assignments));
      ghost var before := Matching(plan, rows, key.value);
      assert IsFold(plan, g, before) by { InitialFold(plan, g.fields); }
      assert IsNamed(plan, g, before + [row]) by { if plan.groupBy == [] { NoGroupFields(plan, row); } }
      var states := UpdateStates(plan, g.states, row, before);
      if states.None? { return false; }
      groups := groups[key.value := Group(g.fields, states.value)];
      return true;
    }
  }

  lemma NoGroupFields(p: Plan, row: Fields)
    requires p.groupBy == []
    ensures GroupFields(p, row) == []
  {}

  lemma InitialFold(p: Plan, fields: seq<(string, Value)>)
    ensures IsFold(p, Group(fields, InitialStates(p.assignments)), [])
  {}

  lemma MatchingPush(p: Plan, rows: seq<Fields>, row: Fields)
    ensures forall k ::
              Matching(p, rows + [row], k) == if KeyOfRow(p, row) == Some(k) then Matching(p, rows, k) + [row]
              else Matching(p, rows, k)
  {
    hide KeyOfRow;
    assert (rows + [row])[..|rows|] == rows;
    forall k ensures Matching(p, rows, k) + [] == Matching(p, rows, k) {}
  }

  /** The update of one accumulator: every state takes one step. */
  method UpdateStates(
    p: Plan, states: seq<State>, row: Fields, ghost before: seq<Fields>) returns (r: Option<seq<State>>)
    requires |states| == |p.assignments| && IsFold(p, Group([], states), before)
    ensures r.Some? ==> IsFold(p, Group([], r.value), before + [row])
    ensures r.None? <==> exists a <- p.assignments :: Fold(p.catalog, p.indexKey, a, before + [row]).None?
  {
    hide Fold, Step;
    var next: seq<State> := [];
    for i := 0 to |states|
      invariant |next| == i
      invariant forall j :: 0 <= j < i ==>
                  Fold(p.catalog, p.indexKey, p.assignments[j], before + [row]) == Some(next[j])
    {
      FoldPush(p, p.assignments[i], before, row);
      var s := Step(p.catalog, p.indexKey, p.assignments[i], states[i], row);
      if s.None? {
        assert p.assignments[i] in p.assignments;
        return None;
      }
      next := next + [s.value];
    }
    return Some(next);
  }

  lemma FoldPush(p: Plan, a: Assignment, rows: seq<Fields>, row: Fields)
    requires Fold(p.catalog, p.indexKey, a, rows).Some?
    ensures Fold(p.catalog, p.indexKey, a, rows + [row]) ==
            Step(p.catalog, p.indexKey, a, Fold(p.catalog, p.indexKey, a, rows).value, row)
  {
    hide Step;
    assert (rows + [row])[..|rows|] == rows;
  }

  /** Streaming all rows leaves, for each group, exactly the fold over its rows, and fails
      exactly when some group's fold does. */
  method AggregateRows(p: Plan, rows: seq<Fields>) returns (r: Option<map<GroupKey, Group>>)
    ensures r.Some? ==> Grouped(p, r.value, rows)
    ensures r.None? <==> Fails(p, rows)
  {
    hide Grouped, FailsAt;
    var acc := new Aggregator(p);
    assert rows[..0] == [];
    for i := 0 to |rows|
      invariant acc.plan == p && Grouped(p, acc.groups, rows[..i])
      invariant forall n :: 0 < n <= i ==> !FailsAt(p, rows, n)
    {
      assert rows[..i+1] == rows[..i] + [rows[i]];
      FailsPrefix(p, rows, i + 1);
      var ok := acc.AddRow(rows[i], rows[..i]);
      if !ok { return None; }
    }
    assert rows[..|rows|] == rows;
    return Some(acc.groups);
  }

  lemma FailsPrefix(p: Plan, rows: seq<Fields>, n: nat)
    requires 0 < n <= |rows|
    ensures FailsAt(p, rows, n) <==> FailsAt(p, rows[..n], n)
  {
    assert rows[..n][..n] == rows[..n];
  }

  // ---- What each fold computes ------------------------------------------------------------------

  lemma {:induction false} CountMeaning(catalog: Catalog, indexKey: Value -> string, a: Assignment, rows: seq<Fields>)
    requires a.function_.Count?
    ensures Fold(catalog, indexKey, a, rows) == if |rows| < TWO_63 then Some(Counted(|rows|)) else None
  {
    if rows != [] { CountMeaning(catalog, indexKey, a, rows[..|rows|-1]); }
  }

  ghost predicate Inputs(a: Assignment, rows: seq<Fields>) {
    forall r <- rows :: a.input(r).Some?
  }

  ghost function Seen(indexKey: Value -> string, a: Assignment, rows: seq<Fields>): set<string> {
    set r | r in rows && a.input(r).Some? :: indexKey(a.input(r).value)
  }

  lemma {:induction false} DistinctMeaning(
    catalog: Catalog, indexKey: Value -> string, a: Assignment, rows: seq<Fields>)
    requires a.function_.CountDistinct?
    ensures Fold(catalog, indexKey, a, rows) == if Inputs(a, rows) then Some(Distinct(Seen(indexKey, a, rows)))
    else None
  {
    if rows == [] {
      assert Seen(indexKey, a, rows) == {};
    } else {
      var front, last := rows[..|rows|-1], rows[|rows|-1];
      DistinctMeaning(catalog, indexKey, a, front);
      assert rows == front + [last];
      if Inputs(a, rows) {
        assert Seen(indexKey, a, rows) == Seen(indexKey, a, front) + {indexKey(a.input(last).value)};
      }
    }
  }

  /** The input of a row is one of the chosen values, up to equality. */
  ghost predicate Represented(reps: seq<Value>, v: Value) {
    exists i :: 0 <= i < |reps| && EqualValues(v, reps[i])
  }

  ghost predicate Unequal(reps: seq<Value>) {
    forall i, j :: 0 <= i < j < |reps| ==> !EqualValues(reps[i], reps[j])
  }

  /** A distinct count is the number of unequal inputs: as many values as it counts can be
      chosen from the inputs so that no two are equal and every input equals one of them. */
  lemma {:induction false} DistinctCounts(
    indexKey: Value -> string, a: Assignment, rows: seq<Fields>) returns (reps: seq<Value>)
    requires PrintsForm(indexKey) && Inputs(a, rows) && forall r <- rows :: Ordinary(a.input(r).value)
    ensures |Seen(indexKey, a, rows)| == |reps| && Unequal(reps)
    ensures forall v <- reps :: exists r <- rows :: a.input(r) == Some(v)
    ensures forall r <- rows :: Represented(reps, a.input(r).value)
  {
    hide EqualValues, KeyForm, Ordinary, PrintsForm, Represented, Unequal;
    if rows == [] {
      assert Unequal([]) by { NoneUnequal(); }
      assert Seen(indexKey, a, rows) == {};
      return [];
    }
    var front, last := rows[..|rows|-1], rows[|rows|-1];
    assert rows == front + [last];
    assert forall r <- front :: r in rows;
    var before := DistinctCounts(indexKey, a, front);
    var v := a.input(last).value;
    assert last in rows;
    assert Seen(indexKey, a, rows) == Seen(indexKey, a, front) + {indexKey(v)};
    KeySeen(indexKey, a, front, v, before);
    if indexKey(v) in Seen(indexKey, a, front) {
      assert Seen(indexKey, a, rows) == Seen(indexKey, a, front);
      return before;
    }
    SameKey(indexKey, v, v);
    OneMore(before, v);
    forall x <- before ensures exists r <- rows :: a.input(r) == Some(x) {
      var r :| r in front && a.input(r) == Some(x);
      assert r in rows;
    }
    return before + [v];
  }

  lemma NoneUnequal()
    ensures Unequal([])
  {}

  lemma {:induction false} OneMore(reps: seq<Value>, v: Value)
    requires Unequal(reps) && EqualValues(v, v) && forall i :: 0 <= i < |reps| ==> !EqualValues(reps[i], v)
    ensures Unequal(reps + [v]) && Represented(reps + [v], v)
    ensures forall x :: Represented(reps, x) ==> Represented(reps + [v], x)
  {
    hide EqualValues;
    assert (reps + [v])[|reps|] == v;
    forall x | Represented(reps, x) ensures Represented(reps + [v], x) {
      var i :| 0 <= i < |reps| && EqualValues(x, reps[i]);
      assert (reps + [v])[i] == reps[i];
    }
  }

  /** A key has been seen exactly when its value equals one of the chosen ones. */
  lemma {:induction false} KeySeen(
    indexKey: Value -> string, a: Assignment, rows: seq<Fields>, v: Value, reps: seq<Value>)
    requires PrintsForm(indexKey) && Inputs(a, rows) && Ordinary(v) && forall r <- rows :: Ordinary(a.input(r).value)
    requires forall x <- reps :: exists r <- rows :: a.input(r) == Some(x)
    requires forall r <- rows :: Represented(reps, a.input(r).value)
    ensures indexKey(v) in Seen(indexKey, a, rows) <==> Represented(reps, v)
    ensures forall i :: 0 <= i < |reps| ==> Ordinary(reps[i])
    ensures indexKey(v) !in Seen(indexKey, a, rows) ==> forall i :: 0 <= i < |reps| ==> !EqualValues(reps[i], v)
  {
    hide EqualValues, KeyForm, Ordinary, PrintsForm;
    forall i | 0 <= i < |reps|
      ensures Ordinary(reps[i]) && indexKey(reps[i]) in Seen(indexKey, a, rows)
      ensures EqualValues(reps[i], v) <==> indexKey(reps[i]) == indexKey(v)
      ensures EqualValues(v, reps[i]) <==> indexKey(reps[i]) == indexKey(v)
    {
      assert reps[i] in reps;
      var r :| r in rows && a.input(r) == Some(reps[i]);
      SameKey(indexKey, reps[i], v);
      SameKey(indexKey, v, reps[i]);
    }
    if indexKey(v) in Seen(indexKey, a, rows) {
      var r :| r in rows && a.input(r).Some? && indexKey(a.input(r).value) == indexKey(v);
      var i :| 0 <= i < |reps| && EqualValues(a.input(r).value, reps[i]);
      SameKey(indexKey, a.input(r).value, reps[i]);
    }
  }

  /** Two rows fall into one group exactly when their group fields are equal. */
  lemma {:induction false} GroupedByEquality(p: Plan, x: Fields, y: Fields)
    requires PrintsForm(p.indexKey) && KeyValues(p.groupBy, x).Some? && KeyValues(p.groupBy, y).Some?
    requires forall v <- KeyValues(p.groupBy, x).value :: Ordinary(v)
    requires forall v <- KeyValues(p.groupBy, y).value :: Ordinary(v)
    ensures var vs, ws := KeyValues(p.groupBy, x).value, KeyValues(p.groupBy, y).value;
            && |vs| == |ws| == |p.groupBy|
            && (KeyOfRow(p, x) == KeyOfRow(p, y) <==> forall i :: 0 <= i < |vs| ==> EqualValues(vs[i], ws[i]))
  {
    hide EqualValues, KeyForm, Ordinary, PrintsForm, RowField, KeyValues;
    KeyCount(p.groupBy, x);
    KeyCount(p.groupBy, y);
    var vs, ws := KeyValues(p.groupBy, x).value, KeyValues(p.groupBy, y).value;
    var ks, ls := KeyOfRow(p, x).value, KeyOfRow(p, y).value;
    forall i | 0 <= i < |vs| ensures ks[i] == ls[i] <==> EqualValues(vs[i], ws[i]) {
      assert vs[i] in vs && ws[i] in ws;
      SameKey(p.indexKey, vs[i], ws[i]);
    }
    if forall i :: 0 <= i < |vs| ==> EqualValues(vs[i], ws[i]) { assert ks == ls; }
  }

  lemma {:induction false} KeyCount(paths: seq<string>, row: Fields)
    ensures KeyValues(paths, row).Some? ==> |KeyValues(paths, row).value| == |paths|
  {
    hide RowField;
    if paths != [] { KeyCount(paths[1..], row); }
  }

  /** The number an input row contributes to a sum. */
  function Amount(f: AggregateFunction, v: Option<Value>): Option<I64> {
    if v.None? then None else
    var u := Unwrapped(v.value);
    if f.IntSum? && u.Int? then Some(u.i)
    else if (f.DurationSum? || f.DurationAverage?) && u.Duration? then Some(u.micros)
    else None
  }

  ghost predicate Numeric(a: Assignment, rows: seq<Fields>) {
    forall r <- rows :: Amount(a.function_, a.input(r)).Some?
  }

  function Total(a: Assignment, rows: seq<Fields>): int {
    if rows == [] then 0 else
    var v := Amount(a.function_, a.input(rows[|rows|-1]));
    Total(a, rows[..|rows|-1]) + if v.Some? then v.value else 0
  }

  ghost predicate InRange64(n: int) {
    -TWO_63 <= n < TWO_63
  }

  /** Every input is a number and every running total fits 64 bits. */
  ghost predicate SumsThroughout(a: Assignment, rows: seq<Fields>) {
    rows == [] ||
    (SumsThroughout(a, rows[..|rows|-1]) && Amount(a.function_, a.input(rows[|rows|-1])).Some?
     && InRange64(Total(a, rows)))
  }

  /** A sum is the exact sum, and fails exactly when some running total leaves 64 bits or an
      input is not a number. */
  lemma {:induction false} SumMeaning(catalog: Catalog, indexKey: Value -> string, a: Assignment, rows: seq<Fields>)
    requires a.function_.IntSum? || a.function_.DurationSum?
    ensures Fold(catalog, indexKey, a, rows) ==
            if SumsThroughout(a, rows) then Some(Summed(if rows == [] then None else Some(Total(a, rows)))) else None
  {
    if rows != [] {
      var front, last := rows[..|rows|-1], rows[|rows|-1];
      SumMeaning(catalog, indexKey, a, front);
      var v := Amount(a.function_, a.input(last));
      if SumsThroughout(a, front) && v.Some? {
        assert Total(a, rows) == Total(a, front) + v.value;
        assert Plus(if front == [] then None else Some(Total(a, front)), v.value) ==
               if InRange64(Total(a, rows)) then Some(Total(a, rows)) else None;
      }
    }
  }

  lemma {:induction false} TotalBound(a: Assignment, rows: seq<Fields>)
    ensures -TWO_63 * |rows| <= Total(a, rows) <= TWO_63 * |rows|
  {
    if rows != [] { TotalBound(a, rows[..|rows|-1]); }
  }

  lemma AverageStep(
    catalog: Catalog, indexKey: Value -> string, a: Assignment, s: State, row: Fields, total: int, n: nat)
    requires a.function_.DurationAverage? && s.Averaged? && s.count == n
    requires if n == 0 then total == 0 && s.wide.None? else s.wide.Some? && s.wide.value == total
    requires -TWO_63 * n <= total <= TWO_63 * n
    ensures var r, v := Step(catalog, indexKey, a, s, row), Amount(a.function_, a.input(row));
            && (r.Some? <==> v.Some? && n + 1 < TWO_63)
            && (r.Some? ==>
                r.value.Averaged? && r.value.count == n + 1 && r.value.wide.Some?
                  && r.value.wide.value == total + v.value)
  {
    var v := Amount(a.function_, a.input(row));
    if v.Some? { WideEnough(total, n, v.value); }
  }

  /** The unchecked 128-bit total of an average never overflows: the 64-bit count fails
      first. */
  lemma {:induction false} AverageMeaning(catalog: Catalog, indexKey: Value -> string, a: Assignment, rows: seq<Fields>)
    requires a.function_.DurationAverage?
    ensures Fold(catalog, indexKey, a, rows).Some? <==> Numeric(a, rows) && |rows| < TWO_63
    ensures var s := Fold(catalog, indexKey, a, rows);
            s.Some? ==> s.value.Averaged? && s.value.count == |rows| && (s.value.wide.Some? <==> rows != [])
                        && (rows != [] ==> s.value.wide.value == Total(a, rows))
  {
    hide Step, Amount;
    if rows != [] {
      var front, last := rows[..|rows|-1], rows[|rows|-1];
      AverageMeaning(catalog, indexKey, a, front);
      assert rows == front + [last];
      TotalBound(a, front);
      var s := Fold(catalog, indexKey, a, front);
      if s.Some? { AverageStep(catalog, indexKey, a, s.value, last, Total(a, front), |front|); }
    }
  }

  lemma WideEnough(total: int, n: nat, v: I64)
    requires -TWO_63 * n <= total <= TWO_63 * n && n < TWO_63
    ensures -TWO_127 <= total + v < TWO_127
  {
    assert TWO_63 * n <= TWO_63 * TWO_63;
    assert 2 * TWO_63 * TWO_63 == TWO_127;
  }

  /** Division that drops the fraction. */
  function Truncated(n: int, d: int): int
    requires d > 0
  {
    if n >= 0 then n / d else -((-n) / d)
  }

  ghost predicate Between(a: Assignment, r: Fields, low: int, high: int) {
    var v := Amount(a.function_, a.input(r));
    v.Some? && low <= v.value <= high
  }

  lemma {:induction false} TotalBetween(a: Assignment, rows: seq<Fields>, low: int, high: int)
    requires forall r <- rows :: Between(a, r, low, high)
    ensures low * |rows| <= Total(a, rows) <= high * |rows|
  {
    hide Amount;
    if rows != [] {
      var front, last := rows[..|rows|-1], rows[|rows|-1];
      assert rows == front + [last];
      TotalBetween(a, front, low, high);
      MulNext(low, |front|);
      MulNext(high, |front|);
      assert Between(a, last, low, high);
    }
  }

  lemma MulNext(x: int, n: nat)
    ensures x * (n + 1) == x * n + x
  {}

  lemma TruncatedBetween(total: int, n: nat, low: int, high: int)
    requires n > 0 && low * n <= total <= high * n
    ensures low <= Truncated(total, n) <= high
  {
    if total >= 0 {
      DivBetween(total, n, low, high);
    } else {
      assert (-high) * n == -(high * n) && (-low) * n == -(low * n);
      DivBetween(-total, n, -high, -low);
    }
  }

  lemma DivBetween(total: nat, n: nat, low: int, high: int)
    requires n > 0 && low * n <= total <= high * n
    ensures low <= total / n <= high
  {
    var q := total / n;
    assert q * n <= total < (q + 1) * n;
    MulOrder(q + 1, low, n);
    MulOrder(high + 1, q, n);
    assert (high + 1) * n == high * n + n;
  }

  lemma MulOrder(a: int, b: int, n: nat)
    ensures a <= b ==> a * n <= b * n
  {
    if a <= b { assert (b - a) * n >= 0; }
  }

  /** The average of durations lies between the smallest and the largest input, so it is a
      duration. */
  lemma AverageBetween(a: Assignment, rows: seq<Fields>, low: I64, high: I64)
    requires a.function_.DurationAverage? && rows != [] && forall r <- rows :: Between(a, r, low, high)
    ensures low <= Truncated(Total(a, rows), |rows|) <= high && InRange64(Truncated(Total(a, rows), |rows|))
  {
    TotalBetween(a, rows, low, high);
    TruncatedBetween(Total(a, rows), |rows|, low, high);
  }

  /** The output value of a finished accumulator, None where it has none. */
  function Finished(f: AggregateFunction, s: State): Option<Value> {
    match s
    case Counted(count) => Some(Int(count))
    case Distinct(seen) => if |seen| < TWO_63 then Some(Int(|seen|)) else None
    case Averaged(wide, count) =>
      if wide.None? then Some(Opt(None))
      else if count <= 0 then None
      else
        var average := Truncated(wide.value, count);
        if -TWO_63 <= average < TWO_63 then Some(Opt(Some(Duration(average)))) else None
    case Summed(total) =>
      var sum := if total.Some? then total.value else 0;
      Some(if f.DurationSum? then Duration(sum) else Int(sum))
    case Extreme(value) => Some(Opt(value))
  }

  /** An average that could be accumulated always finishes, with the truncated quotient of
      the exact total, or with nothing for no rows. */
  lemma AverageFinishes(catalog: Catalog, indexKey: Value -> string, a: Assignment, rows: seq<Fields>)
    requires a.function_.DurationAverage? && Fold(catalog, indexKey, a, rows).Some?
    ensures rows != [] ==> InRange64(Truncated(Total(a, rows), |rows|))
    ensures Finished(a.function_, Fold(catalog, indexKey, a, rows).value) ==
            Some(Opt(if rows == [] then None else Some(Duration(Truncated(Total(a, rows), |rows|)))))
  {
    hide Fold;
    AverageMeaning(catalog, indexKey, a, rows);
    if rows != [] {
      forall r <- rows ensures Between(a, r, -TWO_63, TWO_63 - 1) {}
      AverageBetween(a, rows, -TWO_63, TWO_63 - 1);
    }
  }

  ghost predicate Orderable(catalog: Catalog, ty: ScalarType, v: Value) {
    EncodeKey(catalog, ty, v, 0).Some?
  }

  /** The inputs of the rows, where every row has one of the bound type. */
  ghost predicate Values(catalog: Catalog, ty: ScalarType, a: Assignment, rows: seq<Fields>, vs: seq<Value>) {
    |vs| == |rows| && forall i :: 0 <= i < |rows| ==> a.input(rows[i]) == Some(vs[i]) && Orderable(catalog, ty, vs[i])
  }

  /** `v` does not beat `m`, and does not tie with it either where `strict`. */
  ghost predicate Unbeaten(catalog: Catalog, ty: ScalarType, v: Value, m: Value, minimum: bool, strict: bool) {
    var o := CompareTyped(catalog, ty, v, m, 0);
    (o == Some(Less) && !minimum) || (o == Some(Greater) && minimum) || (o == Some(Equal) && !strict)
  }

  /** Position `i` holds the first of the least (or greatest) values. */
  ghost predicate Leads(catalog: Catalog, ty: ScalarType, vs: seq<Value>, i: nat, minimum: bool) {
    i < |vs| && forall j :: 0 <= j < |vs| ==> Unbeaten(catalog, ty, vs[j], vs[i], minimum, j < i)
  }

  lemma Outranked(catalog: Catalog, ty: ScalarType, x: Value, m: Value, v: Value, minimum: bool, strict: bool)
    requires Orderable(catalog, ty, x) && Orderable(catalog, ty, m) && Orderable(catalog, ty, v)
    requires CompareTyped(catalog, ty, v, m, 0) == Some(if minimum then Less else Greater)
    requires Unbeaten(catalog, ty, x, m, minimum, strict)
    ensures Unbeaten(catalog, ty, x, v, minimum, true)
  {
    hide EncodeKey, CompareTyped, Compare;
    var kx, km, kv := EncodeKey(catalog, ty, x, 0).value, EncodeKey(catalog, ty, m, 0).value,
                      EncodeKey(catalog, ty, v, 0).value;
    KeyOrder(catalog, ty, x, m, 0);
    KeyOrder(catalog, ty, v, m, 0);
    KeyOrder(catalog, ty, x, v, 0);
    DecidesIsCompare(kx, km, CompareTyped(catalog, ty, x, m, 0).value);
    DecidesIsCompare(kv, km, CompareTyped(catalog, ty, v, m, 0).value);
    DecidesIsCompare(kx, kv, CompareTyped(catalog, ty, x, v, 0).value);
    CompareReverse(kx, kv);
    CompareReverse(kv, km);
    CompareReverse(kx, km);
    CompareChain(kx, kv, km);
    CompareChain(kv, kx, km);
  }

  lemma SelfTie(catalog: Catalog, ty: ScalarType, v: Value, minimum: bool)
    requires Orderable(catalog, ty, v)
    ensures Unbeaten(catalog, ty, v, v, minimum, false)
  {
    hide EncodeKey, CompareTyped, Compare;
    var k := EncodeKey(catalog, ty, v, 0).value;
    KeyOrder(catalog, ty, v, v, 0);
    DecidesIsCompare(k, k, CompareTyped(catalog, ty, v, v, 0).value);
    CompareReverse(k, k);
  }

  /** One more value either takes the lead at the end or leaves it where it was. */
  lemma LeadStep(catalog: Catalog, ty: ScalarType, vs: seq<Value>, i: nat, v: Value, minimum: bool)
    requires Leads(catalog, ty, vs, i, minimum) && Orderable(catalog, ty, v)
    requires forall j :: 0 <= j < |vs| ==> Orderable(catalog, ty, vs[j])
    ensures var u := UpdateExtreme(catalog, ty, Some(vs[i]), v, minimum);
            (u == Some(v) && Leads(catalog, ty, vs + [v], |vs|, minimum))
              || (u == Some(vs[i]) && Leads(catalog, ty, vs + [v], i, minimum))
  {
    hide Orderable, CompareTyped, Unbeaten;
    assert i < |vs|;
    hide Leads;
    if CompareTyped(catalog, ty, v, vs[i], 0) == Some(if minimum then Less else Greater) {
      NewLeads(catalog, ty, vs, i, v, minimum);
    } else {
      OldLeads(catalog, ty, vs, i, v, minimum);
    }
  }

  lemma NewLeads(catalog: Catalog, ty: ScalarType, vs: seq<Value>, i: nat, v: Value, minimum: bool)
    requires Leads(catalog, ty, vs, i, minimum) && Orderable(catalog, ty, v)
    requires forall j :: 0 <= j < |vs| ==> Orderable(catalog, ty, vs[j])
    requires CompareTyped(catalog, ty, v, vs[i], 0) == Some(if minimum then Less else Greater)
    ensures Leads(catalog, ty, vs + [v], |vs|, minimum)
  {
    hide Orderable, CompareTyped, Unbeaten;
    SelfTie(catalog, ty, v, minimum);
    forall j | 0 <= j < |vs| ensures Unbeaten(catalog, ty, vs[j], v, minimum, true) {
      Outranked(catalog, ty, vs[j], vs[i], v, minimum, j < i);
    }
  }

  lemma OldLeads(catalog: Catalog, ty: ScalarType, vs: seq<Value>, i: nat, v: Value, minimum: bool)
    requires Leads(catalog, ty, vs, i, minimum) && Orderable(catalog, ty, v)
    requires forall j :: 0 <= j < |vs| ==> Orderable(catalog, ty, vs[j])
    requires CompareTyped(catalog, ty, v, vs[i], 0) != Some(if minimum then Less else Greater)
    ensures CompareTyped(catalog, ty, v, vs[i], 0).Some? && Leads(catalog, ty, vs + [v], i, minimum)
  {
    hide Orderable, CompareTyped, Unbeaten;
    Decided(catalog, ty, v, vs[i], minimum);
    assert (vs + [v])[i] == vs[i];
  }

  lemma Decided(catalog: Catalog, ty: ScalarType, v: Value, m: Value, minimum: bool)
    requires Orderable(catalog, ty, v) && Orderable(catalog, ty, m)
    ensures CompareTyped(catalog, ty, v, m, 0).Some?
    ensures CompareTyped(catalog, ty, v, m, 0) != Some(if minimum then Less else Greater) ==>
            Unbeaten(catalog, ty, v, m, minimum, false)
  {
    hide EncodeKey, CompareTyped;
    KeyOrder(catalog, ty, v, m, 0);
  }

  /** Min and max are the first least and the first greatest input, absent for no rows. */
  lemma {:induction false} ExtremeMeaning(
    catalog: Catalog, indexKey: Value -> string, a: Assignment, rows: seq<Fields>, vs: seq<Value>) returns (i: nat)
    requires a.function_.Min? || a.function_.Max?
    requires Values(catalog, a.function_.ty, a, rows, vs)
    ensures rows == [] ==> Fold(catalog, indexKey, a, rows) == Some(Extreme(None))
    ensures rows != [] ==>
            Leads(catalog, a.function_.ty, vs, i, a.function_.Min?)
              && Fold(catalog, indexKey, a, rows) == Some(Extreme(Some(vs[i])))
  {
    hide Orderable, UpdateExtreme, Unbeaten;
    var ty, minimum, n := a.function_.ty, a.function_.Min?, |rows| - 1;
    if rows == [] {
      i := 0;
    } else {
      i := ExtremeMeaning(catalog, indexKey, a, rows[..n], vs[..n]);
      assert vs == vs[..n] + [vs[n]];
      if n == 0 {
        SelfTie(catalog, ty, vs[0], minimum);
        FirstValue(catalog, ty, vs[0], minimum);
        i := 0;
      } else {
        LeadStep(catalog, ty, vs[..n], i, vs[n], minimum);
        if !Leads(catalog, ty, vs, i, minimum)
           || UpdateExtreme(catalog, ty, Some(vs[i]), vs[n], minimum) != Some(vs[i]) {
          i := n;
        }
      }
    }
  }

  lemma FirstValue(catalog: Catalog, ty: ScalarType, v: Value, minimum: bool)
    ensures UpdateExtreme(catalog, ty, None, v, minimum) == Some(v)
  {}

  // ---- No row is lost between the groups --------------------------------------------------------

  ghost function SizeSum(p: Plan, rows: seq<Fields>, keys: set<GroupKey>): nat {
    if keys == {} then 0 else
    var k :| k in keys;
    |Matching(p, rows, k)| + SizeSum(p, rows, keys - {k})
  }

  lemma {:induction false} SizeSumAny(p: Plan, rows: seq<Fields>, keys: set<GroupKey>, k: GroupKey)
    requires k in keys
    ensures SizeSum(p, rows, keys) == |Matching(p, rows, k)| + SizeSum(p, rows, keys - {k})
    decreases |keys|
  {
    hide Matching;
    var c :| c in keys && SizeSum(p, rows, keys) == |Matching(p, rows, c)| + SizeSum(p, rows, keys - {c});
    if c != k {
      SizeSumAny(p, rows, keys - {c}, k);
      SizeSumAny(p, rows, keys - {k}, c);
      assert keys - {c} - {k} == keys - {k} - {c};
    }
  }

  lemma {:induction false} SizeSumPush(p: Plan, rows: seq<Fields>, row: Fields, keys: set<GroupKey>)
    ensures SizeSum(p, rows + [row], keys) ==
            SizeSum(p, rows, keys) + if KeyOfRow(p, row).Some? && KeyOfRow(p, row).value in keys then 1 else 0
    decreases |keys|
  {
    hide Matching, KeyOfRow;
    MatchingPush(p, rows, row);
    if keys != {} {
      var k :| k in keys
        && SizeSum(p, rows + [row], keys) == |Matching(p, rows + [row], k)| + SizeSum(p, rows + [row], keys - {k});
      SizeSumPush(p, rows, row, keys - {k});
      SizeSumAny(p, rows, keys, k);
    }
  }

  /** The groups' sizes add up to the number of rows. */
  lemma {:induction false} CountsAddUp(p: Plan, rows: seq<Fields>, keys: set<GroupKey>)
    requires forall r <- rows :: KeyOfRow(p, r).Some? && KeyOfRow(p, r).value in keys
    ensures SizeSum(p, rows, keys) == |rows|
  {
    hide KeyOfRow, Matching, SizeSum;
    if rows == [] {
      NoSizes(p, keys);
    } else {
      var front, last := rows[..|rows|-1], rows[|rows|-1];
      assert rows == front + [last];
      assert forall r <- front :: r in rows;
      CountsAddUp(p, front, keys);
      SizeSumPush(p, front, last, keys);
    }
  }

  lemma {:induction false} NoSizes(p: Plan, keys: set<GroupKey>)
    ensures SizeSum(p, [], keys) == 0
    decreases |keys|
  {
    if keys != {} {
      var k :| k in keys && SizeSum(p, [], keys) == |Matching(p, [], k)| + SizeSum(p, [], keys - {k});
      assert Matching(p, [], k) == [];
      NoSizes(p, keys - {k});
    }
  }

  lemma {:induction false} MatchingHas(p: Plan, rows: seq<Fields>, r: Fields, k: GroupKey)
    requires r in rows && KeyOfRow(p, r) == Some(k)
    ensures Matching(p, rows, k) != []
  {
    hide KeyOfRow;
    if r != rows[|rows|-1] { MatchingHas(p, rows[..|rows|-1], r, k); }
  }

  /** Over the groups of a finished aggregation, the sizes sum to the number of input rows;
      without group fields there is exactly one group. */
  lemma GroupsCoverRows(p: Plan, groups: map<GroupKey, Group>, rows: seq<Fields>)
    requires Grouped(p, groups, rows) && forall r <- rows :: KeyOfRow(p, r).Some?
    ensures SizeSum(p, rows, groups.Keys) == |rows|
    ensures p.groupBy == [] ==> groups.Keys == {[]}
  {
    hide Matching, IsFold, SizeSum;
    forall r <- rows ensures KeyOfRow(p, r).value in groups.Keys { MatchingHas(p, rows, r, KeyOfRow(p, r).value); }
    CountsAddUp(p, rows, groups.Keys);
    if p.groupBy == [] {
      forall k <- groups ensures k == [] { OneKey(p, rows, k); }
      assert [] in groups;
    }
  }

  lemma {:induction false} OneKey(p: Plan, rows: seq<Fields>, k: GroupKey)
    requires p.groupBy == [] && (Matching(p, rows, k) != [] || k == [])
    ensures k == []
  {
    if rows != [] && k != [] { OneKey(p, rows[..|rows|-1], k); }
  }
}
