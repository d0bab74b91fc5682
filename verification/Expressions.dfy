/** Query expressions and their evaluation against a resolver of field paths. The
    arithmetic and the named builtins are parameters; everything a query plan reasons
    about is evaluated here. */
module Expressions {
  import opened Bytes
  import opened Model
  import opened Schema

  datatype CompareOp = Eq | Ne | Gt | Gte | Lt | Lte

  datatype ArithmeticOp = Add | Subtract | Multiply | Divide

  datatype Scalar =
    | Reference(path: string)
    | Parameter(name: string)
    | Literal(literal: Value)
    | Ascribed(inner: Scalar, target: ScalarType)
    | Call(name: string, args: seq<Scalar>)
    | Length(inner: Scalar)
    | Negate(inner: Scalar, ty: Option<ScalarType>)
    | Arithmetic(left: Scalar, op: ArithmeticOp, right: Scalar, ty: Option<ScalarType>)

  datatype Condition =
    | Holds(scalar: Scalar)
    | Comparison(left: Scalar, op: CompareOp, right: Scalar, ty: Option<ScalarType>)
    | Containing(collection: Scalar, item: Scalar)
    | Membership(item: Scalar, collection: Scalar, negated: bool)
    | Any(collection: Scalar, binding: string, body: Condition)
    | All(collection: Scalar, binding: string, body: Condition)
    | HasSome(scalar: Scalar)
    | HasNone(scalar: Scalar)
    | Not(inner: Condition)
    | And(first: Condition, second: Condition)
    | Or(first: Condition, second: Condition)

  /** The value of a scalar expression: an error, no value at runtime, or a value. */
  datatype Outcome = Failed | Missing | Is(value: Value)

  /** The evaluation of everything that does not look at field paths. A builtin sees the
      outcome of each of its arguments, since some are evaluated only on demand. */
  datatype Builtins = Builtins(
    catalog: Catalog,
    coerce: (Value, ScalarType) -> Option<Value>,
    call: (string, seq<Outcome>) -> Outcome,
    length: Value -> Option<Value>,
    negate: (Value, Option<ScalarType>) -> Option<Value>,
    arithmetic: (Value, ArithmeticOp, Value, Option<ScalarType>) -> Option<Value>)

  type Resolver = string -> Option<Value>

  function Produced(v: Option<Value>): Outcome {
    if v.Some? then Is(v.value) else Failed
  }

  function EvaluateScalar(b: Builtins, e: Scalar, r: Resolver): Outcome {
    match e
    case Reference(path) => if r(path).Some? then Is(r(path).value) else Missing
    case Parameter(_) => Failed
    case Literal(v) => Is(v)
    case Ascribed(inner, ty) =>
      var o := EvaluateScalar(b, inner, r);
      if o.Is? then Produced(b.coerce(o.value, ty)) else o
    case Call(name, args) =>
      b.call(name, seq(|args|, i requires 0 <= i < |args| => EvaluateScalar(b, args[i], r)))
    case Length(inner) =>
      var o := EvaluateScalar(b, inner, r);
      if o.Is? then Produced(b.length(o.value)) else o
    case Negate(inner, ty) =>
      var o := EvaluateScalar(b, inner, r);
      if o.Is? then Produced(b.negate(o.value, ty)) else o
    case Arithmetic(left, op, right, ty) =>
      var l := EvaluateScalar(b, left, r);
      if !l.Is? then l else
      var x := EvaluateScalar(b, right, r);
      if !x.Is? then x else Produced(b.arithmetic(l.value, op, x.value, ty))
  }

  predicate OrderSatisfies(op: CompareOp, o: Ordering) {
    match op
    case Eq => o == Equal
    case Ne => o != Equal
    case Gt => o == Greater
    case Gte => o != Less
    case Lt => o == Less
    case Lte => o != Greater
  }

  function CompareValues(catalog: Catalog, l: Value, op: CompareOp, r: Value, ty: Option<ScalarType>): Option<bool> {
    if op.Eq? then Some(EqualValues(l, r))
    else if op.Ne? then Some(!EqualValues(l, r))
    else if ty.None? then None
    else
      var o := CompareTyped(catalog, ty.value, l, r, 0);
      if o.None? then None else Some(OrderSatisfies(op, o.value))
  }

  /** One more binding in scope: its name, and paths through it, resolve to the item. */
  function Scoped(binding: string, item: Value, outer: Resolver): Resolver {
    path =>
      if path == binding then Some(item)
      else if Through(binding, path) then NestedField(item, path[|binding| + 1..])
      else outer(path)
  }

  predicate Through(binding: string, path: string) {
    |path| > |binding| && path[..|binding|] == binding && path[|binding|] == '.'
  }

  predicate Within(needle: seq<Byte>, haystack: seq<Byte>) {
    exists i :: 0 <= i <= |haystack| && needle <= haystack[i..]
  }

  function Evaluate(b: Builtins, e: Condition, r: Resolver): Option<bool>
    decreases e, 0
  {
    match e
    case Holds(scalar) =>
      var o := EvaluateScalar(b, scalar, r);
      if o.Failed? then None else Some(o.Is? && Unwrapped(o.value) == Bool(true))
    case Comparison(left, op, right, ty) =>
      var l := EvaluateScalar(b, left, r);
      if !l.Is? then Absent(l) else
      var x := EvaluateScalar(b, right, r);
      if !x.Is? then Absent(x) else CompareValues(b.catalog, l.value, op, x.value, ty)
    case Containing(collection, item) =>
      var c := EvaluateScalar(b, collection, r);
      if !c.Is? then Absent(c) else
      var i := EvaluateScalar(b, item, r);
      if !i.Is? then Absent(i) else Some(HasItem(Unwrapped(c.value), i.value))
    case Membership(item, collection, negated) =>
      var i := EvaluateScalar(b, item, r);
      if !i.Is? then Absent(i) else
      var c := EvaluateScalar(b, collection, r);
      if !c.Is? then Absent(c)
      else if !Unwrapped(c.value).List? then None
      else Some((exists x <- Unwrapped(c.value).items :: EqualValues(x, i.value)) != negated)
    case Any(collection, binding, body) =>
      var c := EvaluateScalar(b, collection, r);
      if !c.Is? then Absent(c)
      else if !Unwrapped(c.value).List? then None
      else EvaluateItems(b, Unwrapped(c.value).items, binding, body, r, false)
    case All(collection, binding, body) =>
      var c := EvaluateScalar(b, collection, r);
      if !c.Is? then Absent(c)
      else if !Unwrapped(c.value).List? then None
      else EvaluateItems(b, Unwrapped(c.value).items, binding, body, r, true)
    case HasSome(scalar) =>
      var o := EvaluateScalar(b, scalar, r);
      if !o.Is? then Absent(o)
      else if !Unwrapped(o.value).Opt? then None
      else Some(Unwrapped(o.value).opt.Some?)
    case HasNone(scalar) =>
      var o := EvaluateScalar(b, scalar, r);
      if !o.Is? then Absent(o)
      else if !Unwrapped(o.value).Opt? then None
      else Some(Unwrapped(o.value).opt.None?)
    case Not(inner) =>
      var x := Evaluate(b, inner, r);
      if x.None? then None else Some(!x.value)
    case And(first, second) =>
      var x := Evaluate(b, first, r);
      if x != Some(true) then x else Evaluate(b, second, r)
    case Or(first, second) =>
      var x := Evaluate(b, first, r);
      if x != Some(false) then x else Evaluate(b, second, r)
  }

  /** A missing operand makes a condition false; a failed one makes it an error. */
  function Absent(o: Outcome): Option<bool> {
    if o.Failed? then None else Some(false)
  }

  predicate HasItem(collection: Value, item: Value) {
    match collection
    case List(items) => exists x <- items :: EqualValues(x, item)
    case Bytes(haystack) => Unwrapped(item).Bytes? && Within(Unwrapped(item).blob, haystack)
    case _ => false
  }

  function EvaluateItems(
    b: Builtins, items: seq<Value>, binding: string, body: Condition, r: Resolver, all: bool): Option<bool>
    decreases body, |items| + 1
  {
    if items == [] then Some(all) else
    var matched := Evaluate(b, body, Scoped(binding, items[0], r));
    if matched.None? then None
    else if matched.value != all then Some(!all)
    else EvaluateItems(b, items[1..], binding, body, r, all)
  }

  function RowResolver(fields: Fields): Resolver {
    path => RowField(fields, path)
  }

  /** Filters in order; the first that is false or fails decides. */
  function Passes(b: Builtins, filters: seq<Condition>, r: Resolver): Option<bool> {
    if filters == [] then Some(true) else
    var x := Evaluate(b, filters[0], r);
    if x != Some(true) then x else Passes(b, filters[1..], r)
  }

  // ---- Equality of values is an equivalence on comparable values --------------------------------

  lemma EqualSymmetric(x: Value, y: Value)
    requires EqualValues(x, y)
    ensures EqualValues(y, x)
    decreases x
  {
    match x
    case Enum(_, xs, _) =>
      forall k | 0 <= k < |xs| ensures EqualValues(y.args[k], xs[k]) { EqualSymmetric(xs[k], y.args[k]); }
    case Tuple(xs) =>
      forall k | 0 <= k < |xs| ensures EqualValues(y.items[k], xs[k]) { EqualSymmetric(xs[k], y.items[k]); }
    case List(xs) =>
      forall k | 0 <= k < |xs| ensures EqualValues(y.items[k], xs[k]) { EqualSymmetric(xs[k], y.items[k]); }
    case Map(xs) =>
      forall k | 0 <= k < |xs| ensures EqualValues(y.entries[k].value, xs[k].value) {
        EqualSymmetric(xs[k].value, y.entries[k].value);
      }
    case Record(f) =>
      assert f.Keys == y.fields.Keys by { SubsetOfSameSize(f.Keys, y.fields.Keys); }
      forall k <- f ensures EqualValues(y.fields[k], f[k]) { EqualSymmetric(f[k], y.fields[k]); }
    case _ =>
  }

  lemma {:induction false} EqualTransitive(x: Value, y: Value, z: Value)
    requires EqualValues(x, y) && EqualValues(y, z)
    ensures EqualValues(x, z)
    decreases x, 1
  {
    match x
    case Named(_, inner) => EqualTransitive(inner, y.value, z.value);
    case Opt(o) => if o.Some? { EqualTransitive(o.value, y.opt.value, z.opt.value); }
    case Enum(_, xs, _) => AllTransitive(x, xs, y.args, z.args);
    case Tuple(xs) => AllTransitive(x, xs, y.items, z.items);
    case List(xs) => AllTransitive(x, xs, y.items, z.items);
    case Map(xs) => EntriesTransitive(x, xs, y.entries, z.entries);
    case Record(f) => FieldsTransitive(x, f, y.fields, z.fields);
    case _ =>
  }

  lemma {:induction false} AllTransitive(v: Value, xs: seq<Value>, ys: seq<Value>, zs: seq<Value>)
    requires |xs| == |ys| == |zs| && forall k :: 0 <= k < |xs| ==> xs[k] < v
    requires forall k :: 0 <= k < |xs| ==> EqualValues(xs[k], ys[k])
    requires forall k :: 0 <= k < |xs| ==> EqualValues(ys[k], zs[k])
    ensures forall k :: 0 <= k < |xs| ==> EqualValues(xs[k], zs[k])
    decreases v, 0
  {
    hide EqualValues;
    forall k | 0 <= k < |xs| ensures EqualValues(xs[k], zs[k]) { EqualTransitive(xs[k], ys[k], zs[k]); }
  }

  lemma {:induction false} EntriesTransitive(v: Value, xs: seq<Entry>, ys: seq<Entry>, zs: seq<Entry>)
    requires |xs| == |ys| == |zs| && forall k :: 0 <= k < |xs| ==> xs[k].value < v
    requires forall k :: 0 <= k < |xs| ==> EqualValues(xs[k].value, ys[k].value)
    requires forall k :: 0 <= k < |xs| ==> EqualValues(ys[k].value, zs[k].value)
    ensures forall k :: 0 <= k < |xs| ==> EqualValues(xs[k].value, zs[k].value)
    decreases v, 0
  {
    hide EqualValues;
    forall k | 0 <= k < |xs| ensures EqualValues(xs[k].value, zs[k].value) {
      EqualTransitive(xs[k].value, ys[k].value, zs[k].value);
    }
  }

  lemma {:induction false} FieldsTransitive(v: Value, f: Fields, g: Fields, h: Fields)
    requires forall k <- f :: f[k] < v
    requires forall k <- f :: k in g && EqualValues(f[k], g[k])
    requires forall k <- g :: k in h && EqualValues(g[k], h[k])
    ensures forall k <- f :: k in h && EqualValues(f[k], h[k])
    decreases v, 0
  {
    hide EqualValues;
    forall k <- f ensures k in h && EqualValues(f[k], h[k]) { EqualTransitive(f[k], g[k], h[k]); }
  }

  lemma EqualUnwrapped(x: Value, y: Value)
    requires EqualValues(x, y)
    ensures EqualValues(Unwrapped(x), Unwrapped(y))
  {
    if x.Named? { EqualUnwrapped(x.value, y.value); }
  }
}
