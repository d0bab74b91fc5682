/** Correlated `exists`: the outer row is substituted into the inner filters, one
    equality is moved to the front for the index, and the first row decides. */
module Exists {
  import opened Model
  import opened Schema
  import opened Expressions

  const OUTER: string := "outer"

  predicate IsOuter(path: string) {
    path == OUTER || Through(OUTER, path)
  }

  /** What an outer path means: the whole outer row, or one of its fields. */
  function OuterField(outer: Fields, path: string): Option<Value>
    requires IsOuter(path)
  {
    if path == OUTER then Some(Record(outer)) else RowField(outer, path[6..])
  }

  /** The scope of an inner filter: the outer row by name, everything else as before. */
  function WithOuter(outer: Fields, r: Resolver): Resolver {
    path => if IsOuter(path) then OuterField(outer, path) else r(path)
  }

  // ---- Substitution -----------------------------------------------------------------------------

  function ReplaceScalar(e: Scalar, outer: Fields, shadowed: bool): Option<Scalar> {
    match e
    case Reference(path) =>
      if shadowed || !IsOuter(path) then Some(e) else
      var v := OuterField(outer, path);
      if v.Some? then Some(Literal(v.value)) else None
    case Parameter(_) => Some(e)
    case Literal(_) => Some(e)
    case Ascribed(inner, ty) =>
      var x := ReplaceScalar(inner, outer, shadowed);
      if x.Some? then Some(Ascribed(x.value, ty)) else None
    case Call(name, args) =>
      var xs := seq(|args|, i requires 0 <= i < |args| => ReplaceScalar(args[i], outer, shadowed));
      if exists x <- xs :: x.None? then None
      else Some(Call(name, seq(|xs|, i requires 0 <= i < |xs| && xs[i].Some? => xs[i].value)))
    case Length(inner) =>
      var x := ReplaceScalar(inner, outer, shadowed);
      if x.Some? then Some(Length(x.value)) else None
    case Negate(inner, ty) =>
      var x := ReplaceScalar(inner, outer, shadowed);
      if x.Some? then Some(Negate(x.value, ty)) else None
    case Arithmetic(left, op, right, ty) =>
      var x, y := ReplaceScalar(left, outer, shadowed), ReplaceScalar(right, outer, shadowed);
      if x.Some? && y.Some? then Some(Arithmetic(x.value, op, y.value, ty)) else None
  }

  function Replace(e: Condition, outer: Fields, shadowed: bool): Option<Condition> {
    match e
    case Holds(s) =>
      var x := ReplaceScalar(s, outer, shadowed);
      if x.Some? then Some(Holds(x.value)) else None
    case HasSome(s) =>
      var x := ReplaceScalar(s, outer, shadowed);
      if x.Some? then Some(HasSome(x.value)) else None
    case HasNone(s) =>
      var x := ReplaceScalar(s, outer, shadowed);
      if x.Some? then Some(HasNone(x.value)) else None
    case Comparison(left, op, right, ty) =>
      var x, y := ReplaceScalar(left, outer, shadowed), ReplaceScalar(right, outer, shadowed);
      if x.Some? && y.Some? then Some(Comparison(x.value, op, y.value, ty)) else None
    case Containing(c, i) =>
      var x, y := ReplaceScalar(c, outer, shadowed), ReplaceScalar(i, outer, shadowed);
      if x.Some? && y.Some? then Some(Containing(x.value, y.value)) else None
    case Membership(i, c, negated) =>
      var x, y := ReplaceScalar(i, outer, shadowed), ReplaceScalar(c, outer, shadowed);
      if x.Some? && y.Some? then Some(Membership(x.value, y.value, negated)) else None
    case Any(c, binding, body) =>
      var x, y := ReplaceScalar(c, outer, shadowed), Replace(body, outer, shadowed || binding == OUTER);
      if x.Some? && y.Some? then Some(Any(x.value, binding, y.value)) else None
    case All(c, binding, body) =>
      var x, y := ReplaceScalar(c, outer, shadowed), Replace(body, outer, shadowed || binding == OUTER);
      if x.Some? && y.Some? then Some(All(x.value, binding, y.value)) else None
    case Not(inner) =>
      var x := Replace(inner, outer, shadowed);
      if x.Some? then Some(Not(x.value)) else None
    case And(first, second) =>
      var x, y := Replace(first, outer, shadowed), Replace(second, outer, shadowed);
      if x.Some? && y.Some? then Some(And(x.value, y.value)) else None
    case Or(first, second) =>
      var x, y := Replace(first, outer, shadowed), Replace(second, outer, shadowed);
      if x.Some? && y.Some? then Some(Or(x.value, y.value)) else None
  }

  /** Binders are identifiers, so they contain no dot. */
  predicate PlainBindings(e: Condition) {
    match e
    case Any(_, binding, body) => '.' !in binding && PlainBindings(body)
    case All(_, binding, body) => '.' !in binding && PlainBindings(body)
    case Not(inner) => PlainBindings(inner)
    case And(first, second) => PlainBindings(first) && PlainBindings(second)
    case Or(first, second) => PlainBindings(first) && PlainBindings(second)
    case _ => true
  }

  /** `full` sees the outer row where it is not shadowed, and otherwise agrees with `r`. */
  ghost predicate Agree(outer: Fields, shadowed: bool, r: Resolver, full: Resolver) {
    forall path :: full(path) == if !shadowed && IsOuter(path) then OuterField(outer, path) else r(path)
  }

  lemma AgreeUnderBinder(outer: Fields, shadowed: bool, r: Resolver, full: Resolver, binding: string, item: Value)
    requires Agree(outer, shadowed, r, full) && '.' !in binding
    ensures Agree(outer, shadowed || binding == OUTER, Scoped(binding, item, r), Scoped(binding, item, full))
  {
    forall path ensures Scoped(binding, item, full)(path) ==
      if !(shadowed || binding == OUTER)
         && IsOuter(path) then OuterField(outer, path) else Scoped(binding, item, r)(path)
    {
      assert full(path) == if !shadowed && IsOuter(path) then OuterField(outer, path) else r(path);
      if IsOuter(path) && binding != OUTER && Through(binding, path) && path != OUTER {
        FirstDots(binding, path);
      }
    }
  }

  lemma FirstDots(binding: string, path: string)
    requires '.' !in binding && Through(binding, path) && Through(OUTER, path)
    ensures binding == OUTER
  {
    assert forall i :: 0 <= i < |binding| ==> path[i] == binding[i] && binding[i] != '.' by {
      forall i | 0 <= i < |binding| ensures path[i] == binding[i] && binding[i] != '.' {
        assert path[..|binding|][i] == binding[i] && binding[i] in binding;
      }
    }
    assert forall i :: 0 <= i < 5 ==> path[i] == OUTER[i] && OUTER[i] != '.';
    assert path[|binding|] == '.' && path[5] == '.';
    assert |binding| == 5;
  }

  lemma {:induction false} ScalarMeaning(
    b: Builtins, e: Scalar, outer: Fields, shadowed: bool, r: Resolver, full: Resolver)
    requires Agree(outer, shadowed, r, full) && ReplaceScalar(e, outer, shadowed).Some?
    ensures EvaluateScalar(b, ReplaceScalar(e, outer, shadowed).value, r) == EvaluateScalar(b, e, full)
    decreases e, 1
  {
    match e
    case Reference(path) => assert full(path) == if !shadowed
         && IsOuter(path) then OuterField(outer, path) else r(path);
    case Parameter(_) =>
    case Literal(_) =>
    case Ascribed(inner, _) => ScalarMeaning(b, inner, outer, shadowed, r, full);
    case Length(inner) => ScalarMeaning(b, inner, outer, shadowed, r, full);
    case Negate(inner, _) => ScalarMeaning(b, inner, outer, shadowed, r, full);
    case Arithmetic(left, _, right, _) =>
      ScalarMeaning(b, left, outer, shadowed, r, full);
      ScalarMeaning(b, right, outer, shadowed, r, full);
    case Call(name, args) => CallMeaning(b, e, outer, shadowed, r, full);
  }

  lemma {:induction false} CallMeaning(
    b: Builtins, e: Scalar, outer: Fields, shadowed: bool, r: Resolver, full: Resolver)
    requires e.Call? && Agree(outer, shadowed, r, full) && ReplaceScalar(e, outer, shadowed).Some?
    ensures EvaluateScalar(b, ReplaceScalar(e, outer, shadowed).value, r) == EvaluateScalar(b, e, full)
    decreases e, 0
  {
    var args, args' := e.args, ReplaceScalar(e, outer, shadowed).value.args;
    var xs := seq(|args|, i requires 0 <= i < |args| => ReplaceScalar(args[i], outer, shadowed));
    forall i | 0 <= i < |args| ensures EvaluateScalar(b, args'[i], r) == EvaluateScalar(b, args[i], full) {
      assert xs[i] in xs;
      ScalarMeaning(b, args[i], outer, shadowed, r, full);
    }
    assert seq(|args'|, i requires 0 <= i < |args'| => EvaluateScalar(b, args'[i], r)) ==
           seq(|args|, i requires 0 <= i < |args| => EvaluateScalar(b, args[i], full));
  }

  /** Replacing the outer references by literals leaves every evaluation unchanged. */
  lemma {:induction false} SubstitutionMeaning(
    b: Builtins, e: Condition, outer: Fields, shadowed: bool, r: Resolver, full: Resolver)
    requires Agree(outer, shadowed, r, full) && PlainBindings(e) && Replace(e, outer, shadowed).Some?
    ensures Evaluate(b, Replace(e, outer, shadowed).value, r) == Evaluate(b, e, full)
    decreases e, 0
  {
    match e
    case Holds(s) => ScalarMeaning(b, s, outer, shadowed, r, full);
    case HasSome(s) => ScalarMeaning(b, s, outer, shadowed, r, full);
    case HasNone(s) => ScalarMeaning(b, s, outer, shadowed, r, full);
    case Comparison(left, _, right, _) =>
      ScalarMeaning(b, left, outer, shadowed, r, full);
      ScalarMeaning(b, right, outer, shadowed, r, full);
    case Containing(left, right) =>
      ScalarMeaning(b, left, outer, shadowed, r, full);
      ScalarMeaning(b, right, outer, shadowed, r, full);
    case Membership(left, right, _) =>
      ScalarMeaning(b, left, outer, shadowed, r, full);
      ScalarMeaning(b, right, outer, shadowed, r, full);
    case Not(inner) => SubstitutionMeaning(b, inner, outer, shadowed, r, full);
    case And(first, second) =>
      SubstitutionMeaning(b, first, outer, shadowed, r, full);
      SubstitutionMeaning(b, second, outer, shadowed, r, full);
    case Or(first, second) =>
      SubstitutionMeaning(b, first, outer, shadowed, r, full);
      SubstitutionMeaning(b, second, outer, shadowed, r, full);
    case Any(c, binding, body) => BinderMeaning(b, e, outer, shadowed, r, full);
    case All(c, binding, body) => BinderMeaning(b, e, outer, shadowed, r, full);
  }

  lemma {:induction false} BinderMeaning(
    b: Builtins, e: Condition, outer: Fields, shadowed: bool, r: Resolver, full: Resolver)
    requires (e.Any? || e.All?) && Agree(outer, shadowed, r, full) && PlainBindings(e)
             && Replace(e, outer, shadowed).Some?
    ensures Evaluate(b, Replace(e, outer, shadowed).value, r) == Evaluate(b, e, full)
    decreases e.body, 2, 0
  {
    ScalarMeaning(b, e.collection, outer, shadowed, r, full);
    var c := EvaluateScalar(b, e.collection, full);
    if c.Is? && Unwrapped(c.value).List? {
      ItemsMeaning(b, Unwrapped(c.value).items, e.binding, e.body, outer, shadowed, r, full, e.All?);
    }
  }

  lemma {:induction false} ItemsMeaning(
    b: Builtins, items: seq<Value>, binding: string, body: Condition,
    outer: Fields, shadowed: bool, r: Resolver, full: Resolver, all: bool)
    requires Agree(outer, shadowed, r, full) && '.' !in binding && PlainBindings(body)
    requires Replace(body, outer, shadowed || binding == OUTER).Some?
    ensures EvaluateItems(b, items, binding, Replace(body, outer, shadowed || binding == OUTER).value, r, all) ==
            EvaluateItems(b, items, binding, body, full, all)
    decreases body, 1, |items|
  {
    if items != [] {
      AgreeUnderBinder(outer, shadowed, r, full, binding, items[0]);
      SubstitutionMeaning(b, body, outer, shadowed || binding == OUTER,
                          Scoped(binding, items[0], r), Scoped(binding, items[0], full));
      ItemsMeaning(b, items[1..], binding, body, outer, shadowed, r, full, all);
    }
  }

  // ---- Correlations -----------------------------------------------------------------------------

  datatype Correlation = Correlation(target: string, outer: string)

  function CorrelationOf(target: string, outer: string): Option<Correlation> {
    if IsOuter(target) || !Through(OUTER, outer) || |outer| == 6 then None
    else Some(Correlation(target, outer[6..]))
  }

  function Correlations(e: Condition): seq<Correlation> {
    match e
    case Comparison(Reference(left), Eq, Reference(right), _) =>
      var x, y := CorrelationOf(left, right), CorrelationOf(right, left);
      if x.Some? then [x.value] else if y.Some? then [y.value] else []
    case And(first, second) => Correlations(first) + Correlations(second)
    case _ => []
  }

  function Leading(c: Correlation, outer: Fields): Option<Condition> {
    var v := RowField(outer, c.outer);
    if v.None? then None else Some(Comparison(Reference(c.target), Eq, Literal(v.value), None))
  }

  /** A condition that holds makes each of its correlations hold as an equality with the
      outer value. */
  lemma {:induction false} CorrelationHolds(b: Builtins, e: Condition, outer: Fields, fields: Fields, c: Correlation)
    requires c in Correlations(e) && Evaluate(b, e, WithOuter(outer, RowResolver(fields))) == Some(true)
    ensures Leading(c, outer).Some?
    ensures Evaluate(b, Leading(c, outer).value, RowResolver(fields)) == Some(true)
  {
    if e.And? {
      if c in Correlations(e.first) {
        CorrelationHolds(b, e.first, outer, fields, c);
      } else {
        CorrelationHolds(b, e.second, outer, fields, c);
      }
    } else {
      EqualityHolds(b, e, outer, fields, c);
    }
  }

  lemma EqualityHolds(b: Builtins, e: Condition, outer: Fields, fields: Fields, c: Correlation)
    requires !e.And? && c in Correlations(e) && Evaluate(b, e, WithOuter(outer, RowResolver(fields))) == Some(true)
    ensures Leading(c, outer).Some?
    ensures Evaluate(b, Leading(c, outer).value, RowResolver(fields)) == Some(true)
  {
    hide EqualValues, RowField, NestedField;
    var r := WithOuter(outer, RowResolver(fields));
    var left, right := e.left.path, e.right.path;
    assert r(left).Some? && r(right).Some? && EqualValues(r(left).value, r(right).value);
    var flipped := CorrelationOf(left, right).None?;
    var target, from := if flipped then right else left, if flipped then left else right;
    assert CorrelationOf(target, from) == Some(c);
    assert from != OUTER by { assert |from| > 5; }
    assert r(from) == OuterField(outer, from) == RowField(outer, c.outer);
    assert r(target) == RowField(fields, target);
    if flipped { EqualSymmetric(r(left).value, r(right).value); }
  }

  // ---- The rewritten pipeline -------------------------------------------------------------------

  function Inner(filters: seq<Condition>, outer: Fields): Option<seq<Condition>> {
    if filters == [] then Some([]) else
    var x, rest := Replace(filters[0], outer, false), Inner(filters[1..], outer);
    if x.Some? && rest.Some? then Some([x.value] + rest.value) else None
  }

  function AllCorrelations(filters: seq<Condition>): seq<Correlation> {
    if filters == [] then [] else Correlations(filters[0]) + AllCorrelations(filters[1..])
  }

  lemma {:induction false} PassesMeaning(b: Builtins, filters: seq<Condition>, outer: Fields, fields: Fields)
    requires (forall e <- filters :: PlainBindings(e)) && Inner(filters, outer).Some?
    ensures Passes(b, Inner(filters, outer).value, RowResolver(fields)) ==
            Passes(b, filters, WithOuter(outer, RowResolver(fields)))
  {
    if filters != [] {
      var r := RowResolver(fields);
      assert Agree(outer, false, r, WithOuter(outer, r));
      SubstitutionMeaning(b, filters[0], outer, false, r, WithOuter(outer, r));
      PassesMeaning(b, filters[1..], outer, fields);
      var inner := Inner(filters, outer).value;
      assert inner[1..] == Inner(filters[1..], outer).value;
    }
  }

  lemma {:induction false} PassesCorrelate(
    b: Builtins, filters: seq<Condition>, outer: Fields, fields: Fields, c: Correlation)
    requires c in AllCorrelations(filters) && Passes(b, filters, WithOuter(outer, RowResolver(fields))) == Some(true)
    ensures Leading(c, outer).Some?
    ensures Evaluate(b, Leading(c, outer).value, RowResolver(fields)) == Some(true)
  {
    if c in Correlations(filters[0]) {
      CorrelationHolds(b, filters[0], outer, fields, c);
    } else {
      PassesCorrelate(b, filters[1..], outer, fields, c);
    }
  }

  ghost predicate AllEvaluate(b: Builtins, filters: seq<Condition>, outer: Fields, rows: seq<Fields>) {
    forall row <- rows :: Passes(b, filters, WithOuter(outer, RowResolver(row))).Some?
  }

  /** Evaluate an `exists` over the target rows the way the executor does: substitute,
      put the chosen correlation in front, keep the rows that pass, take one. */
  method EvaluateExists(
    b: Builtins, filters: seq<Condition>, c: Correlation, outer: Fields, rows: seq<Fields>) returns (r: Option<bool>)
    requires (forall e <- filters :: PlainBindings(e)) && c in AllCorrelations(filters)
    ensures Inner(filters, outer).None? || RowField(outer, c.outer).None? ==> r.None?
    ensures Inner(filters, outer).Some? && RowField(outer, c.outer).Some? && AllEvaluate(b, filters, outer, rows) ==>
              r == Some(exists row <- rows :: Passes(b, filters, WithOuter(outer, RowResolver(row))) == Some(true))
  {
    var leading, inner := Leading(c, outer), Inner(filters, outer);
    if leading.None? || inner.None? { return None; }
    var stages := [leading.value] + inner.value;
    var kept: seq<Fields> := [];
    for i := 0 to |rows|
      invariant AllEvaluate(b, filters, outer, rows) ==>
        (kept != [] <==>
         exists row <- rows[..i] :: Passes(b, filters, WithOuter(outer, RowResolver(row))) == Some(true))
    {
      if Passes(b, filters, WithOuter(outer, RowResolver(rows[i]))).Some? {
        Decorrelated(b, filters, c, outer, rows[i]);
      }
      assert rows[..i+1] == rows[..i] + [rows[i]];
      var x := Passes(b, stages, RowResolver(rows[i]));
      if x.None? { return None; }
      if x.value { kept := kept + [rows[i]]; }
    }
    assert rows[..|rows|] == rows;
    var taken := if |kept| > 1 then kept[..1] else kept;
    return Some(taken != []);
  }

  /** On one row: where the original filters evaluate, the rewritten ones agree. */
  lemma Decorrelated(b: Builtins, filters: seq<Condition>, c: Correlation, outer: Fields, fields: Fields)
    requires (forall e <- filters :: PlainBindings(e)) && c in AllCorrelations(filters)
    requires Inner(filters, outer).Some? && Leading(c, outer).Some?
    requires Passes(b, filters, WithOuter(outer, RowResolver(fields))).Some?
    ensures Passes(b, [Leading(c, outer).value] + Inner(filters, outer).value, RowResolver(fields)) ==
            Passes(b, filters, WithOuter(outer, RowResolver(fields)))
  {
    var leading, inner := Leading(c, outer).value, Inner(filters, outer).value;
    var r := RowResolver(fields);
    PassesMeaning(b, filters, outer, fields);
    var stages := [leading] + inner;
    assert stages[0] == leading && stages[1..] == inner;
    var first := Evaluate(b, leading, r);
    assert first.Some?;
    assert Passes(b, stages, r) == if first != Some(true) then first else Passes(b, inner, r);
    var before := Passes(b, filters, WithOuter(outer, r));
    if before.value {
      assert before == Some(true);
      PassesCorrelate(b, filters, outer, fields, c);
    } else {
      assert before == Some(false);
      assert first == Some(first.value);
    }
  }
}
