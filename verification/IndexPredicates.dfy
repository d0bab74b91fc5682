/** Partial index predicates: which atoms the leading filters of a query guarantee, and
    when they imply the predicate of an index. */
module IndexPredicates {
  import opened Model
  import opened Schema
  import opened Expressions

  predicate IsLiteral(e: Scalar) {
    e.Literal? || (e.Negate? && IsLiteral(e.inner))
  }

  function NoFields(): Resolver {
    path => None
  }

  lemma {:induction false} LiteralNeedsNoFields(b: Builtins, e: Scalar, r: Resolver)
    requires IsLiteral(e)
    ensures EvaluateScalar(b, e, r) == EvaluateScalar(b, e, NoFields())
  {
    if e.Negate? { LiteralNeedsNoFields(b, e.inner, r); }
  }

  function LiteralAtoms(b: Builtins, column: string, right: Scalar, ty: ScalarType): Option<seq<Atom>> {
    var o := EvaluateScalar(b, right, NoFields());
    if !o.Is? then None
    else if Unwrapped(o.value) == Opt(None) then Some([IsNone(column)])
    else
      var v := b.coerce(o.value, ty);
      if v.None? then None
      else Some((if Unwrapped(o.value).Opt? then [IsSome(column)] else []) + [Equals(column, v.value)])
  }

  /** Flatten conjunctions into atoms; any other shape contributes nothing. */
  function QueryAtoms(b: Builtins, e: Condition): Option<seq<Atom>> {
    match e
    case And(first, second) =>
      var x, y := QueryAtoms(b, first), QueryAtoms(b, second);
      if x.Some? && y.Some? then Some(x.value + y.value) else None
    case Comparison(left, op, right, ty) =>
      if left.Reference? && op.Eq? && ty.Some? && IsLiteral(right) then LiteralAtoms(b, left.path, right, ty.value)
      else Some([])
    case HasNone(s) => if s.Reference? then Some([IsNone(s.path)]) else Some([])
    case HasSome(s) => if s.Reference? then Some([IsSome(s.path)]) else Some([])
    case _ => Some([])
  }

  predicate Equivalent(a: Atom, q: Atom) {
    && a.column == q.column
    && match a
       case Equals(_, v) => q.Equals? && EqualValues(v, q.value)
       case IsNone(_) => q.IsNone?
       case IsSome(_) => q.IsSome?
  }

  predicate ImpliedBy(atoms: seq<Atom>, query: seq<Atom>) {
    forall a <- atoms :: exists q <- query :: Equivalent(a, q)
  }

  /** Binding has already coerced every literal to its operand type. */
  ghost predicate LiteralsSettled(b: Builtins, e: Condition) {
    match e
    case And(first, second) => LiteralsSettled(b, first) && LiteralsSettled(b, second)
    case Comparison(left, op, right, ty) =>
      var o := EvaluateScalar(b, right, NoFields());
      left.Reference? && op.Eq? && ty.Some? && IsLiteral(right) && o.Is? && b.coerce(o.value, ty.value).Some? ==>
        b.coerce(o.value, ty.value) == Some(o.value)
    case _ => true
  }

  /** A filter that holds on a row makes each of its atoms hold. */
  lemma {:induction false} AtomsHold(b: Builtins, e: Condition, fields: Fields, q: Atom)
    requires QueryAtoms(b, e).Some? && q in QueryAtoms(b, e).value && LiteralsSettled(b, e)
    requires Evaluate(b, e, RowResolver(fields)) == Some(true)
    ensures AtomHolds(q, fields)
    decreases e
  {
    match e
    case And(first, second) =>
      if q in QueryAtoms(b, first).value { AtomsHold(b, first, fields, q); } else { AtomsHold(b, second, fields, q); }
    case Comparison(left, op, right, ty) =>
      LiteralNeedsNoFields(b, right, RowResolver(fields));
      EqualUnwrapped(RowField(fields, left.path).value, EvaluateScalar(b, right, NoFields()).value);
    case _ =>
  }

  lemma EquivalentHolds(a: Atom, q: Atom, fields: Fields)
    requires Equivalent(a, q) && AtomHolds(q, fields)
    ensures AtomHolds(a, fields)
  {
    if a.Equals? {
      var v := RowField(fields, a.column).value;
      EqualSymmetric(a.value, q.value);
      EqualTransitive(v, q.value, a.value);
    }
  }

  function AllAtoms(b: Builtins, filters: seq<Condition>): Option<seq<Atom>> {
    if filters == [] then Some([]) else
    var x, y := QueryAtoms(b, filters[0]), AllAtoms(b, filters[1..]);
    if x.Some? && y.Some? then Some(x.value + y.value) else None
  }

  lemma {:induction false} AllAtomsHold(b: Builtins, filters: seq<Condition>, fields: Fields, q: Atom)
    requires AllAtoms(b, filters).Some? && q in AllAtoms(b, filters).value
             && forall e <- filters :: LiteralsSettled(b, e)
    requires Passes(b, filters, RowResolver(fields)) == Some(true)
    ensures AtomHolds(q, fields)
  {
    hide Evaluate, QueryAtoms, AtomHolds, LiteralsSettled;
    if q in QueryAtoms(b, filters[0]).value {
      AtomsHold(b, filters[0], fields, q);
    } else {
      AllAtomsHold(b, filters[1..], fields, q);
    }
  }

  /** The proof the planner asks for before it uses a partial index. */
  predicate Proven(b: Builtins, d: IndexDefinition, filters: seq<Condition>) {
    d.guard.Some? ==> AllAtoms(b, filters).Some? && ImpliedBy(d.guard.value, AllAtoms(b, filters).value)
  }

  /** A proven index includes every row that passes the filters. */
  lemma ProvenIncludes(b: Builtins, d: IndexDefinition, filters: seq<Condition>, fields: Fields)
    requires Proven(b, d, filters) && forall e <- filters :: LiteralsSettled(b, e)
    requires Passes(b, filters, RowResolver(fields)) == Some(true)
    ensures Includes(d, fields)
  {
    hide AtomHolds, Passes, AllAtoms, Equivalent, LiteralsSettled;
    if d.guard.Some? {
      var query := AllAtoms(b, filters).value;
      forall a <- d.guard.value ensures AtomHolds(a, fields) {
        var q :| q in query && Equivalent(a, q);
        AllAtomsHold(b, filters, fields, q);
        EquivalentHolds(a, q, fields);
      }
    }
  }
}
