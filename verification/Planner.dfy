/** Planning index access: leading filters become an equality prefix and one range over
    an index's components, and from there one byte range over its keys. */
module Planner {
  import opened Bytes
  import opened Model
  import opened OrderedKey
  import opened KeyBounds
  import opened Schema
  import opened Expressions

  datatype SortKey = SortKey(column: string, descending: bool)

  /** Query stages as far as access planning tells them apart. `Derive` and `Select` work
      row by row; `Other` is any stage the planner never looks past. */
  datatype Stage =
    | Let
    | Filter(condition: Condition)
    | Derive(name: string)
    | Select(columns: seq<string>)
    | Sort(keys: seq<SortKey>)
    | Take(offset: nat, limit: nat)
    | Page(size: nat)
    | Other

  datatype Constraint = Constraint(column: string, op: CompareOp, value: Value)

  function Bare(e: Scalar): Scalar {
    if e.Ascribed? then Bare(e.inner) else e
  }

  /** A comparison of a field with a literal, in either order. */
  function SimpleComparison(e: Condition): Option<Constraint> {
    if !e.Comparison? || e.op.Ne? then None else
    var left, right := Bare(e.left), Bare(e.right);
    if left.Reference? && right.Literal? then Some(Constraint(left.path, e.op, right.literal))
    else if left.Literal? && right.Reference? then Some(Constraint(right.path, Flipped(e.op), left.literal))
    else None
  }

  function Flipped(op: CompareOp): CompareOp {
    match op
    case Gt => Lt
    case Gte => Lte
    case Lt => Gt
    case Lte => Gte
    case _ => op
  }

  function LeadingConstraints(stages: seq<Stage>, started: bool): seq<Constraint> {
    if stages == [] then []
    else if stages[0].Let? && !started then LeadingConstraints(stages[1..], false)
    else if !stages[0].Filter? then []
    else
      var c := SimpleComparison(stages[0].condition);
      if c.None? then [] else [c.value] + LeadingConstraints(stages[1..], true)
  }

  function LeadingFilters(stages: seq<Stage>): seq<Condition> {
    if stages == [] then []
    else if stages[0].Let? then LeadingFilters(stages[1..])
    else if stages[0].Filter? then [stages[0].condition] + LeadingFilters(stages[1..])
    else []
  }

  lemma {:induction false} ConstraintsAreFilters(stages: seq<Stage>, started: bool, c: Constraint)
    requires c in LeadingConstraints(stages, started)
    ensures exists e <- LeadingFilters(stages) :: SimpleComparison(e) == Some(c)
  {
    if stages[0].Let? {
      ConstraintsAreFilters(stages[1..], false, c);
    } else {
      var e := stages[0].condition;
      assert LeadingFilters(stages) == [e] + LeadingFilters(stages[1..]);
      if SimpleComparison(e) == Some(c) {
        assert LeadingFilters(stages)[0] == e;
      } else {
        ConstraintsAreFilters(stages[1..], true, c);
        var f :| f in LeadingFilters(stages[1..]) && SimpleComparison(f) == Some(c);
        assert f in LeadingFilters(stages);
      }
    }
  }

  // ---- What a constraint means ------------------------------------------------------------------

  predicate ConstraintHolds(t: TableSchema, c: Constraint, fields: Fields) {
    var ty, v := FieldType(t.catalog, t.columns, c.column), RowField(fields, c.column);
    ty.Some? && v.Some? &&
    var o := CompareTyped(t.catalog, ty.value, v.value, c.value, 0);
    o.Some? && OrderSatisfies(c.op, o.value)
  }

  predicate Encodes(catalog: Catalog, ty: ScalarType, v: Value) {
    EncodeKey(catalog, ty, v, 0).Some?
  }

  function KeyOf(catalog: Catalog, ty: ScalarType, v: Value): Key
    requires Encodes(catalog, ty, v)
  {
    EncodeKey(catalog, ty, v, 0).value
  }

  /** On encodable values the typed order is the byte order of the keys. */
  lemma TypedIsBytes(catalog: Catalog, ty: ScalarType, a: Value, b: Value)
    requires Encodes(catalog, ty, a) && Encodes(catalog, ty, b)
    ensures CompareTyped(catalog, ty, a, b, 0) == Some(Compare(KeyOf(catalog, ty, a), KeyOf(catalog, ty, b)))
  {
    hide EncodeKey, CompareTyped;
    KeyOrder(catalog, ty, a, b, 0);
    DecidesIsCompare(KeyOf(catalog, ty, a), KeyOf(catalog, ty, b), CompareTyped(catalog, ty, a, b, 0).value);
  }

  /** Ascriptions that binding has already applied: they leave typed values alone. */
  ghost predicate Transparent(b: Builtins, e: Scalar, ty: ScalarType) {
    e.Ascribed? ==>
      Transparent(b, e.inner, ty) && forall v :: Encodes(b.catalog, ty, v) ==> b.coerce(v, e.target) == Some(v)
  }

  /** What binding a simple comparison guarantees: the operand type is the field's, and
      the literal has it. */
  ghost predicate BoundComparison(b: Builtins, t: TableSchema, e: Condition) {
    var c := SimpleComparison(e);
    c.Some? ==>
      var ty := FieldType(t.catalog, t.columns, c.value.column);
      && b.catalog == t.catalog && WellFormedCatalog(t.catalog)
      && ty.Some? && WellFormed(ty.value) && e.ty == ty
      && Encodes(t.catalog, ty.value, c.value.value)
      && Transparent(b, e.left, ty.value) && Transparent(b, e.right, ty.value)
  }

  lemma {:induction false} TransparentValue(b: Builtins, e: Scalar, ty: ScalarType, r: Resolver)
    requires Transparent(b, e, ty)
    requires var o := EvaluateScalar(b, Bare(e), r); o.Is? ==> Encodes(b.catalog, ty, o.value)
    ensures EvaluateScalar(b, e, r) == EvaluateScalar(b, Bare(e), r)
  {
    hide EncodeKey;
    if e.Ascribed? { TransparentValue(b, e.inner, ty, r); }
  }

  /** Evaluating a bound simple filter on a typed row is checking its constraint. */
  lemma FilterMeaning(b: Builtins, t: TableSchema, e: Condition, fields: Fields)
    requires SimpleComparison(e).Some? && BoundComparison(b, t, e)
    requires var c := SimpleComparison(e).value;
             var v, ty := RowField(fields, c.column), FieldType(t.catalog, t.columns, c.column);
             v.Some? && Encodes(t.catalog, ty.value, v.value)
    ensures Evaluate(b, e, RowResolver(fields)) == Some(ConstraintHolds(t, SimpleComparison(e).value, fields))
  {
    hide EncodeKey, CompareTyped, EqualValues, FieldType, RowField, WellFormed, WellFormedCatalog;
    var c, r := SimpleComparison(e).value, RowResolver(fields);
    var ty, v := FieldType(t.catalog, t.columns, c.column).value, RowField(fields, c.column).value;
    TransparentValue(b, e.left, ty, r);
    TransparentValue(b, e.right, ty, r);
    TypedIsBytes(t.catalog, ty, v, c.value);
    TypedIsBytes(t.catalog, ty, c.value, v);
    CompareReverse(KeyOf(t.catalog, ty, v), KeyOf(t.catalog, ty, c.value));
    EqualIsTyped(t.catalog, ty, v, c.value, 0);
    EqualIsTyped(t.catalog, ty, c.value, v, 0);
  }

  // ---- Constraints to component limits ----------------------------------------------------------

  datatype Limits = Limits(lower: Option<RangeLimit>, upper: Option<RangeLimit>)

  /** What the leading constraints say about an index: an equality prefix, then at most
      one range, or that no row can match. */
  datatype Access = Broken | Access(equality: seq<Value>, range: Option<Limits>, impossible: bool)

  function Own(constraints: seq<Constraint>, column: string): (r: seq<Constraint>)
    ensures forall c :: c in r <==> c in constraints && c.column == column
  {
    if constraints == [] then []
    else (if constraints[0].column == column then [constraints[0]] else []) + Own(constraints[1..], column)
  }

  function FirstEqual(own: seq<Constraint>): (r: Option<Value>)
    ensures r.Some? ==> exists c <- own :: c.op == Eq && c.value == r.value
    ensures r.None? ==> forall c <- own :: c.op != Eq
  {
    if own == [] then None
    else if own[0].op == Eq then Some(own[0].value)
    else FirstEqual(own[1..])
  }

  /** Whether a value meets every constraint, stopping at the first it does not. */
  function MeetsAll(catalog: Catalog, ty: ScalarType, v: Value, own: seq<Constraint>): Option<bool> {
    if own == [] then Some(true) else
    var o := CompareTyped(catalog, ty, v, own[0].value, 0);
    if o.None? then None
    else if !OrderSatisfies(own[0].op, o.value) then Some(false)
    else MeetsAll(catalog, ty, v, own[1..])
  }

  function Tightened(
    catalog: Catalog, ty: ScalarType, current: Option<RangeLimit>, c: Constraint, inclusive: bool,
    greater: bool): Option<RangeLimit> {
    if current.None? then Some(RangeLimit(c.value, inclusive)) else
    var o := CompareTyped(catalog, ty, c.value, current.value.value, 0);
    if o.None? then None
    else if (greater && o.value == Greater) || (!greater && o.value == Less)
            || (o.value == Equal && !inclusive && current.value.inclusive)
    then Some(RangeLimit(c.value, inclusive)) else current
  }

  function MergeOne(catalog: Catalog, ty: ScalarType, limits: Limits, c: Constraint): Option<Limits> {
    if c.op.Eq? || c.op.Ne? then Some(limits)
    else if c.op.Gt? || c.op.Gte? then
      var l := Tightened(catalog, ty, limits.lower, c, c.op.Gte?, true);
      if l.None? then None else Some(Limits(l, limits.upper))
    else
      var u := Tightened(catalog, ty, limits.upper, c, c.op.Lte?, false);
      if u.None? then None else Some(Limits(limits.lower, u))
  }

  function Merge(catalog: Catalog, ty: ScalarType, limits: Limits, own: seq<Constraint>): Option<Limits>
    decreases |own|
  {
    if own == [] then Some(limits) else
    var next := MergeOne(catalog, ty, limits, own[0]);
    if next.None? then None else Merge(catalog, ty, next.value, own[1..])
  }

  function Extend(v: Value, rest: Access): Access {
    if rest.Broken? then Broken else Access([v] + rest.equality, rest.range, rest.impossible)
  }

  function MatchComponents(t: TableSchema, cs: seq<IndexComponent>, constraints: seq<Constraint>): Access
    decreases |cs|
  {
    if cs == [] then Access([], None, false) else
    var own := Own(constraints, cs[0].column);
    if own == [] then Access([], None, false) else
    var ty := FieldType(t.catalog, t.columns, cs[0].column);
    if ty.None? then Broken else
    var equal := FirstEqual(own);
    if equal.Some? then
      var meets := MeetsAll(t.catalog, ty.value, equal.value, own);
      if meets.None? then Broken
      else if !meets.value then Access([equal.value], None, true)
      else Extend(equal.value, MatchComponents(t, cs[1..], constraints))
    else
      var limits := Merge(t.catalog, ty.value, Limits(None, None), own);
      if limits.None? then Broken
      else if limits.value == Limits(None, None) then Access([], None, false)
      else
        var empty := RangeIsEmpty(t.catalog, Component(ty.value, cs[0].descending), limits.value.lower,
                                  limits.value.upper);
        if empty.None? then Broken else Access([], limits, empty.value)
  }

  function Prepend(vs: seq<Value>, rest: Access): Access {
    if rest.Broken? then Broken else Access(vs + rest.equality, rest.range, rest.impossible)
  }

  /** The planner's loop over components. */
  method MatchIndex(t: TableSchema, cs: seq<IndexComponent>, constraints: seq<Constraint>) returns (r: Access)
    ensures r == MatchComponents(t, cs, constraints)
  {
    hide CompareTyped, FieldType, MeetsAll, Merge, RangeIsEmpty;
    var equality: seq<Value> := [];
    PrependNothing(MatchComponents(t, cs, constraints));
    for i := 0 to |cs|
      invariant Prepend(equality, MatchComponents(t, cs[i..], constraints)) == MatchComponents(t, cs, constraints)
    {
      assert cs[i..][1..] == cs[i+1..];
      var own := Own(constraints, cs[i].column);
      if own == [] { return Access(equality + [], None, false); }
      var ty := FieldType(t.catalog, t.columns, cs[i].column);
      if ty.None? { return Broken; }
      var equal := FirstEqual(own);
      if equal.Some? {
        var meets := MeetsAll(t.catalog, ty.value, equal.value, own);
        if meets.None? { return Broken; }
        if !meets.value { return Access(equality + [equal.value], None, true); }
        PrependMore(equality, equal.value, MatchComponents(t, cs[i+1..], constraints));
        equality := equality + [equal.value];
      } else {
        var limits := Merge(t.catalog, ty.value, Limits(None, None), own);
        if limits.None? { return Broken; }
        if limits.value == Limits(None, None) { return Access(equality + [], None, false); }
        var empty := RangeIsEmpty(t.catalog, Component(ty.value, cs[i].descending), limits.value.lower,
                                  limits.value.upper);
        if empty.None? { return Broken; }
        return Access(equality + [], limits, empty.value);
      }
    }
    return Access(equality + [], None, false);
  }

  lemma PrependNothing(a: Access)
    ensures Prepend([], a) == a
  {
    if a.Access? { assert [] + a.equality == a.equality; }
  }

  lemma PrependMore(vs: seq<Value>, v: Value, a: Access)
    ensures Prepend(vs, Extend(v, a)) == Prepend(vs + [v], a)
  {
    if a.Access? { assert vs + ([v] + a.equality) == vs + [v] + a.equality; }
  }

  // ---- What an access means on a row ------------------------------------------------------------

  ghost predicate InLimits(catalog: Catalog, c: Component, v: Value, limits: Limits) {
    AboveLimit(catalog, c, v, limits.lower) && BelowLimit(catalog, c, v, limits.upper)
  }

  ghost predicate AccessHolds(catalog: Catalog, comps: seq<Component>, vs: seq<Value>, a: Access)
    requires a.Access? && |comps| == |vs| && |a.equality| <= |vs| && (a.range.Some? ==> |a.equality| < |vs|)
  {
    var m := |a.equality|;
    && !a.impossible
    && CompareComponents(catalog, comps[..m], vs[..m], a.equality) == Some(Equal)
    && (a.range.Some? ==> InLimits(catalog, comps[m], vs[m], a.range.value))
  }

  /** The components the planner used: the equality prefix and the range. */
  function Used(a: Access): nat
    requires a.Access?
  {
    |a.equality| + if a.range.Some? then 1 else 0
  }

  ghost predicate UsedHold(
    t: TableSchema, cs: seq<IndexComponent>, constraints: seq<Constraint>, used: nat, fields: Fields)
    requires used <= |cs|
  {
    forall i :: 0 <= i < used ==> ColumnHolds(t, constraints, cs[i].column, fields)
  }

  ghost predicate ColumnHolds(t: TableSchema, constraints: seq<Constraint>, column: string, fields: Fields) {
    forall c <- Own(constraints, column) :: ConstraintHolds(t, c, fields)
  }

  ghost predicate AllEncode(catalog: Catalog, ty: ScalarType, own: seq<Constraint>) {
    forall c <- own :: Encodes(catalog, ty, c.value)
  }

  /** Every constraint on an index column has a literal of the column's type. */
  ghost predicate LiteralsEncode(t: TableSchema, cs: seq<IndexComponent>, constraints: seq<Constraint>) {
    forall c <- constraints, k <- cs :: c.column == k.column ==>
      var ty := FieldType(t.catalog, t.columns, k.column);
      ty.Some? && Encodes(t.catalog, ty.value, c.value)
  }

  lemma SameKeySameAnswers(catalog: Catalog, ty: ScalarType, a: Value, b: Value, x: Value)
    requires Encodes(catalog, ty, a) && Encodes(catalog, ty, b) && Encodes(catalog, ty, x)
    requires CompareTyped(catalog, ty, a, b, 0) == Some(Equal)
    ensures CompareTyped(catalog, ty, a, x, 0) == CompareTyped(catalog, ty, b, x, 0)
  {
    hide EncodeKey, CompareTyped;
    TypedIsBytes(catalog, ty, a, b);
    TypedIsBytes(catalog, ty, a, x);
    TypedIsBytes(catalog, ty, b, x);
    CompareReverse(KeyOf(catalog, ty, a), KeyOf(catalog, ty, b));
  }

  ghost predicate ValueMeets(catalog: Catalog, ty: ScalarType, v: Value, c: Constraint) {
    var o := CompareTyped(catalog, ty, v, c.value, 0);
    o.Some? && OrderSatisfies(c.op, o.value)
  }

  lemma {:induction false} MeetsAllExact(catalog: Catalog, ty: ScalarType, v: Value, own: seq<Constraint>)
    requires Encodes(catalog, ty, v) && AllEncode(catalog, ty, own)
    ensures MeetsAll(catalog, ty, v, own).Some?
    ensures MeetsAll(catalog, ty, v, own).value <==> forall c <- own :: ValueMeets(catalog, ty, v, c)
  {
    hide EncodeKey, CompareTyped;
    if own != [] {
      TypedIsBytes(catalog, ty, v, own[0].value);
      MeetsAllExact(catalog, ty, v, own[1..]);
      assert forall c :: c in own <==> c == own[0] || c in own[1..];
      assert ValueMeets(catalog, ty, v, own[0]) <==>
             OrderSatisfies(own[0].op, CompareTyped(catalog, ty, v, own[0].value, 0).value);
    }
  }

  /** An equality that meets the other constraints stands for all of them. */
  lemma EqualityExact(catalog: Catalog, ty: ScalarType, v: Value, equal: Value, own: seq<Constraint>)
    requires Encodes(catalog, ty, v) && AllEncode(catalog, ty, own) && Encodes(catalog, ty, equal)
    requires exists c <- own :: c.op == Eq && c.value == equal
    ensures (forall c <- own :: ValueMeets(catalog, ty, v, c)) <==>
            CompareTyped(catalog, ty, v, equal, 0) == Some(Equal)
              && forall c <- own :: ValueMeets(catalog, ty, equal, c)
  {
    hide Encodes, CompareTyped, ValueMeets;
    var e :| e in own && e.op == Eq && e.value == equal;
    EqualMeets(catalog, ty, v, e);
    if CompareTyped(catalog, ty, v, equal, 0) == Some(Equal) {
      forall c <- own ensures ValueMeets(catalog, ty, v, c) <==> ValueMeets(catalog, ty, equal, c) {
        SameMeets(catalog, ty, v, equal, c);
      }
    }
  }

  lemma EqualMeets(catalog: Catalog, ty: ScalarType, v: Value, e: Constraint)
    requires e.op == Eq
    ensures ValueMeets(catalog, ty, v, e) <==> CompareTyped(catalog, ty, v, e.value, 0) == Some(Equal)
  {
    hide CompareTyped;
  }

  lemma SameMeets(catalog: Catalog, ty: ScalarType, v: Value, equal: Value, c: Constraint)
    requires Encodes(catalog, ty, v) && Encodes(catalog, ty, equal) && Encodes(catalog, ty, c.value)
    requires CompareTyped(catalog, ty, v, equal, 0) == Some(Equal)
    ensures ValueMeets(catalog, ty, v, c) <==> ValueMeets(catalog, ty, equal, c)
  {
    hide Encodes, CompareTyped;
    SameKeySameAnswers(catalog, ty, v, equal, c.value);
  }

  ghost predicate LimitsEncode(catalog: Catalog, ty: ScalarType, l: Limits) {
    (l.lower.Some? ==> Encodes(catalog, ty, l.lower.value.value))
      && (l.upper.Some? ==> Encodes(catalog, ty, l.upper.value.value))
  }

  /** Tightening one limit is adding one more condition. */
  lemma TightenedExact(
    catalog: Catalog, comp: Component, v: Value, current: Option<RangeLimit>, c: Constraint, inclusive: bool,
    greater: bool)
    requires Encodes(catalog, comp.ty, v) && Encodes(catalog, comp.ty, c.value)
    requires current.Some? ==> Encodes(catalog, comp.ty, current.value.value)
    ensures var t := Tightened(catalog, comp.ty, current, c, inclusive, greater);
            && t.Some? && Encodes(catalog, comp.ty, t.value.value)
            && (greater ==> (AboveLimit(catalog, comp, v, t) <==>
                             AboveLimit(catalog, comp, v, current)
                               && AboveLimit(catalog, comp, v, Some(RangeLimit(c.value, inclusive)))))
            && (!greater ==> (BelowLimit(catalog, comp, v, t) <==>
                              BelowLimit(catalog, comp, v, current)
                                && BelowLimit(catalog, comp, v, Some(RangeLimit(c.value, inclusive)))))
  {
    hide Encodes, CompareTyped, Compare, KeyOf;
    var k, x := KeyOf(catalog, comp.ty, v), KeyOf(catalog, comp.ty, c.value);
    TypedIsBytes(catalog, comp.ty, v, c.value);
    if current.Some? {
      var y := KeyOf(catalog, comp.ty, current.value.value);
      TypedIsBytes(catalog, comp.ty, v, current.value.value);
      TypedIsBytes(catalog, comp.ty, c.value, current.value.value);
      Triangle(k, x, y);
    }
  }

  lemma Triangle(k: Key, x: Key, y: Key)
    ensures Compare(x, y) == Greater && Compare(k, x) != Less ==> Compare(k, y) == Greater
    ensures Compare(x, y) == Less && Compare(k, x) != Greater ==> Compare(k, y) == Less
    ensures Compare(x, y) == Less && Compare(k, y) != Less ==> Compare(k, x) == Greater
    ensures Compare(x, y) == Greater && Compare(k, y) != Greater ==> Compare(k, x) == Less
    ensures Compare(x, y) == Equal ==> Compare(k, x) == Compare(k, y)
  {
    hide Compare;
    CompareReverse(x, y);
    CompareReverse(k, y);
    CompareReverse(k, x);
    CompareChain(k, x, y);
    CompareChain(k, y, x);
  }

  lemma MergeOneExact(catalog: Catalog, comp: Component, v: Value, limits: Limits, c: Constraint)
    requires Encodes(catalog, comp.ty, v) && Encodes(catalog, comp.ty, c.value)
             && LimitsEncode(catalog, comp.ty, limits)
    requires !c.op.Eq? && !c.op.Ne?
    ensures var m := MergeOne(catalog, comp.ty, limits, c);
            && m.Some? && LimitsEncode(catalog, comp.ty, m.value)
            && (InLimits(catalog, comp, v, m.value) <==>
                InLimits(catalog, comp, v, limits) && ValueMeets(catalog, comp.ty, v, c))
  {
    hide Encodes, CompareTyped, Tightened, AboveLimit, BelowLimit;
    var lower := c.op.Gt? || c.op.Gte?;
    TightenedExact(catalog, comp, v, if lower then limits.lower else limits.upper, c, c.op.Gte? || c.op.Lte?, lower);
    LimitMeets(catalog, comp, v, c);
  }

  lemma LimitMeets(catalog: Catalog, comp: Component, v: Value, c: Constraint)
    requires Encodes(catalog, comp.ty, v) && Encodes(catalog, comp.ty, c.value)
    ensures c.op.Gt? || c.op.Gte? ==>
              (ValueMeets(catalog, comp.ty, v, c) <==>
               AboveLimit(catalog, comp, v, Some(RangeLimit(c.value, c.op.Gte?))))
    ensures c.op.Lt? || c.op.Lte? ==>
              (ValueMeets(catalog, comp.ty, v, c) <==>
               BelowLimit(catalog, comp, v, Some(RangeLimit(c.value, c.op.Lte?))))
  {
    hide Encodes, CompareTyped, KeyOf;
    TypedIsBytes(catalog, comp.ty, v, c.value);
  }

  lemma {:induction false} MergeExact(catalog: Catalog, comp: Component, v: Value, limits: Limits, own: seq<Constraint>)
    requires Encodes(catalog, comp.ty, v) && AllEncode(catalog, comp.ty, own) && LimitsEncode(catalog, comp.ty, limits)
    requires forall c <- own :: !c.op.Eq? && !c.op.Ne?
    ensures var m := Merge(catalog, comp.ty, limits, own);
            && m.Some? && LimitsEncode(catalog, comp.ty, m.value)
            && (InLimits(catalog, comp, v, m.value) <==>
                InLimits(catalog, comp, v, limits) && forall c <- own :: ValueMeets(catalog, comp.ty, v, c))
    decreases |own|
  {
    hide Encodes, InLimits, ValueMeets, MergeOne;
    if own != [] {
      MergeOneExact(catalog, comp, v, limits, own[0]);
      MergeExact(catalog, comp, v, MergeOne(catalog, comp.ty, limits, own[0]).value, own[1..]);
      assert forall c :: c in own <==> c == own[0] || c in own[1..];
    }
  }

  /** The range found empty holds no value. */
  lemma EmptyRange(catalog: Catalog, comp: Component, v: Value, l: Limits)
    requires Encodes(catalog, comp.ty, v) && LimitsEncode(catalog, comp.ty, l)
    ensures RangeIsEmpty(catalog, comp, l.lower, l.upper).Some?
    ensures RangeIsEmpty(catalog, comp, l.lower, l.upper) == Some(true) ==> !InLimits(catalog, comp, v, l)
  {
    hide EncodeKey, CompareTyped, Compare;
    if l.lower.Some? && l.upper.Some? {
      var a, b := l.lower.value.value, l.upper.value.value;
      TypedIsBytes(catalog, comp.ty, a, b);
      TypedIsBytes(catalog, comp.ty, v, a);
      TypedIsBytes(catalog, comp.ty, v, b);
      var k, x, y := KeyOf(catalog, comp.ty, v), KeyOf(catalog, comp.ty, a), KeyOf(catalog, comp.ty, b);
      CompareReverse(k, x);
      CompareReverse(x, y);
      CompareChain(x, k, y);
    }
  }

  // ---- Rows with a key --------------------------------------------------------------------------

  /** The row has a value of the right type for every component. */
  ghost predicate TypedRow(
    t: TableSchema, cs: seq<IndexComponent>, comps: seq<Component>, vs: seq<Value>, fields: Fields) {
    && |cs| == |comps| == |vs|
    && (forall i :: 0 <= i < |cs| ==> FieldType(t.catalog, t.columns, cs[i].column) == Some(comps[i].ty))
    && (forall i :: 0 <= i < |cs| ==> RowField(fields, cs[i].column) == Some(vs[i]))
    && (forall i :: 0 <= i < |cs| ==> Encodes(t.catalog, comps[i].ty, vs[i]))
    && (forall i :: 0 <= i < |cs| ==> comps[i].descending == cs[i].descending)
  }

  lemma HoldsIsMeets(t: TableSchema, c: Constraint, ty: ScalarType, v: Value, fields: Fields)
    requires FieldType(t.catalog, t.columns, c.column) == Some(ty) && RowField(fields, c.column) == Some(v)
    ensures ConstraintHolds(t, c, fields) <==> ValueMeets(t.catalog, ty, v, c)
  {
    hide CompareTyped, FieldType, RowField;
  }

  lemma ColumnIsMeets(
    t: TableSchema, constraints: seq<Constraint>, column: string, ty: ScalarType, v: Value, fields: Fields)
    requires FieldType(t.catalog, t.columns, column) == Some(ty) && RowField(fields, column) == Some(v)
    ensures ColumnHolds(t, constraints, column, fields) <==>
            forall c <- Own(constraints, column) :: ValueMeets(t.catalog, ty, v, c)
  {
    hide ConstraintHolds, ValueMeets, FieldType, RowField;
    forall c <- Own(constraints, column) ensures ConstraintHolds(t, c, fields) <==> ValueMeets(t.catalog, ty, v, c) {
      HoldsIsMeets(t, c, ty, v, fields);
    }
  }

  ghost predicate NoInequations(constraints: seq<Constraint>) {
    forall c <- constraints :: !c.op.Ne?
  }

  ghost predicate AccessEncodes(catalog: Catalog, comps: seq<Component>, a: Access)
    requires a.Access? && Used(a) <= |comps|
  {
    var m := |a.equality|;
    && (forall i :: 0 <= i < m ==> Encodes(catalog, comps[i].ty, a.equality[i]))
    && (a.range.Some? ==> LimitsEncode(catalog, comps[m].ty, a.range.value))
  }

  /** The planned access says of a row exactly what the constraints on the columns it used
      say. */
  lemma {:induction false} AccessExact(
    t: TableSchema, cs: seq<IndexComponent>, comps: seq<Component>, vs: seq<Value>, constraints: seq<Constraint>,
    fields: Fields)
    requires TypedRow(t, cs, comps, vs, fields) && LiteralsEncode(t, cs, constraints) && NoInequations(constraints)
    ensures var a := MatchComponents(t, cs, constraints);
            && a.Access? && Used(a) <= |cs| && AccessEncodes(t.catalog, comps, a)
            && (AccessHolds(t.catalog, comps, vs, a) <==> UsedHold(t, cs, constraints, Used(a), fields))
    decreases |cs|
  {
    hide FieldType, RowField, Encodes, CompareTyped, MeetsAll, Merge, InLimits, ColumnHolds, ValueMeets,
      RangeIsEmpty, Own;
    if cs != [] {
      var own, ty := Own(constraints, cs[0].column), comps[0].ty;
      assert AllEncode(t.catalog, ty, own);
      ColumnIsMeets(t, constraints, cs[0].column, ty, vs[0], fields);
      if own != [] && FirstEqual(own).Some? {
        EqualityAccess(t, cs, comps, vs, constraints, fields);
      } else if own != [] {
        RangeAccess(t, cs, comps, vs, constraints, fields);
      }
    }
  }

  lemma {:induction false} EqualityAccess(
    t: TableSchema, cs: seq<IndexComponent>, comps: seq<Component>, vs: seq<Value>, constraints: seq<Constraint>,
    fields: Fields)
    requires TypedRow(t, cs, comps, vs, fields) && LiteralsEncode(t, cs, constraints) && NoInequations(constraints)
    requires cs != [] && Own(constraints, cs[0].column) != [] && FirstEqual(Own(constraints, cs[0].column)).Some?
    ensures var a := MatchComponents(t, cs, constraints);
            && a.Access? && Used(a) <= |cs| && AccessEncodes(t.catalog, comps, a)
            && (AccessHolds(t.catalog, comps, vs, a) <==> UsedHold(t, cs, constraints, Used(a), fields))
    decreases |cs|, 0
  {
    hide FieldType, RowField, Encodes, CompareTyped, MeetsAll, MatchComponents, Own, FirstEqual, ColumnHolds,
      ValueMeets, AccessHolds, AccessEncodes, UsedHold;
    var own, ty := Own(constraints, cs[0].column), comps[0].ty;
    var equal := FirstEqual(own).value;
    assert AllEncode(t.catalog, ty, own);
    ColumnIsMeets(t, constraints, cs[0].column, ty, vs[0], fields);
    MeetsAllExact(t.catalog, ty, equal, own);
    EqualityExact(t.catalog, ty, vs[0], equal, own);
    MatchEquality(t, cs, constraints, ty);
    if MeetsAll(t.catalog, ty, equal, own).value {
      AccessExact(t, cs[1..], comps[1..], vs[1..], constraints, fields);
      var rest := MatchComponents(t, cs[1..], constraints);
      HoldsStep(t.catalog, comps, vs, equal, rest);
      EncodesStep(t.catalog, comps, equal, rest);
      UsedStep(t, cs, constraints, Used(rest), fields);
    } else {
      ImpossibleFirst(t.catalog, comps, vs, equal);
      UsedStep(t, cs, constraints, 0, fields);
    }
  }

  lemma MatchEquality(t: TableSchema, cs: seq<IndexComponent>, constraints: seq<Constraint>, ty: ScalarType)
    requires cs != [] && FieldType(t.catalog, t.columns, cs[0].column) == Some(ty)
    requires var own := Own(constraints, cs[0].column);
             own != [] && FirstEqual(own).Some? && MeetsAll(t.catalog, ty, FirstEqual(own).value, own).Some?
    ensures var own := Own(constraints, cs[0].column);
            var equal := FirstEqual(own).value;
            MatchComponents(t, cs, constraints) ==
            if MeetsAll(t.catalog, ty, equal, own).value then Extend(equal, MatchComponents(t, cs[1..], constraints))
            else Access([equal], None, true)
  {
    hide FieldType, MeetsAll, Own, FirstEqual;
  }

  lemma ImpossibleFirst(catalog: Catalog, comps: seq<Component>, vs: seq<Value>, equal: Value)
    requires |comps| == |vs| > 0 && Encodes(catalog, comps[0].ty, equal)
    ensures var a := Access([equal], None, true);
            AccessEncodes(catalog, comps, a) && !AccessHolds(catalog, comps, vs, a)
  {}

  lemma EncodesStep(catalog: Catalog, comps: seq<Component>, equal: Value, rest: Access)
    requires rest.Access? && |comps| > 0 && Used(rest) <= |comps| - 1
    requires Encodes(catalog, comps[0].ty, equal) && AccessEncodes(catalog, comps[1..], rest)
    ensures AccessEncodes(catalog, comps, Extend(equal, rest))
  {
    hide Encodes;
    var a := Extend(equal, rest);
    forall i | 0 <= i < |a.equality| ensures Encodes(catalog, comps[i].ty, a.equality[i]) {
      if i > 0 { assert comps[i] == comps[1..][i-1] && a.equality[i] == rest.equality[i-1]; }
    }
    assert rest.range.Some? ==> comps[|a.equality|] == comps[1..][|rest.equality|];
  }

  lemma HoldsStep(catalog: Catalog, comps: seq<Component>, vs: seq<Value>, equal: Value, rest: Access)
    requires rest.Access? && |comps| == |vs| > 0 && Used(rest) <= |vs| - 1
    ensures AccessHolds(catalog, comps, vs, Extend(equal, rest)) <==>
            CompareTyped(catalog, comps[0].ty, vs[0], equal, 0) == Some(Equal)
              && AccessHolds(catalog, comps[1..], vs[1..], rest)
  {
    hide CompareTyped, InLimits;
    var a := Extend(equal, rest);
    var m := |rest.equality|;
    assert comps[..m+1][1..] == comps[1..][..m] && vs[..m+1][1..] == vs[1..][..m] && a.equality[1..] == rest.equality;
    assert comps[..m+1][0] == comps[0] && vs[..m+1][0] == vs[0] && a.equality[0] == equal;
  }

  lemma UsedStep(t: TableSchema, cs: seq<IndexComponent>, constraints: seq<Constraint>, used: nat, fields: Fields)
    requires |cs| > 0 && used <= |cs| - 1
    ensures UsedHold(t, cs, constraints, used + 1, fields) <==>
            ColumnHolds(t, constraints, cs[0].column, fields) && UsedHold(t, cs[1..], constraints, used, fields)
  {
    hide ColumnHolds;
    if UsedHold(t, cs, constraints, used + 1, fields) {
      forall i | 0 <= i < used ensures ColumnHolds(t, constraints, cs[1..][i].column, fields) {
        assert cs[1..][i] == cs[i+1];
      }
    }
    if ColumnHolds(t, constraints, cs[0].column, fields) && UsedHold(t, cs[1..], constraints, used, fields) {
      forall i | 0 <= i < used + 1 ensures ColumnHolds(t, constraints, cs[i].column, fields) {
        if i > 0 { assert cs[i] == cs[1..][i-1]; }
      }
    }
  }

  lemma {:induction false} RangeAccess(
    t: TableSchema, cs: seq<IndexComponent>, comps: seq<Component>, vs: seq<Value>, constraints: seq<Constraint>,
    fields: Fields)
    requires TypedRow(t, cs, comps, vs, fields) && LiteralsEncode(t, cs, constraints) && NoInequations(constraints)
    requires cs != [] && Own(constraints, cs[0].column) != [] && FirstEqual(Own(constraints, cs[0].column)).None?
    ensures var a := MatchComponents(t, cs, constraints);
            && a.Access? && Used(a) <= |cs| && AccessEncodes(t.catalog, comps, a)
            && (AccessHolds(t.catalog, comps, vs, a) <==> UsedHold(t, cs, constraints, Used(a), fields))
  {
    hide FieldType, RowField, Encodes, CompareTyped, MeetsAll, Merge, ColumnHolds, ValueMeets, RangeIsEmpty, Own,
      AboveLimit, BelowLimit;
    var own, comp := Own(constraints, cs[0].column), comps[0];
    assert AllEncode(t.catalog, comp.ty, own);
    ColumnIsMeets(t, constraints, cs[0].column, comp.ty, vs[0], fields);
    var none := Limits(None, None);
    MergeExact(t.catalog, comp, vs[0], none, own);
    assert InLimits(t.catalog, comp, vs[0], none) by { NoLimits(t.catalog, comp, vs[0]); }
    var limits := Merge(t.catalog, comp.ty, none, own).value;
    EmptyRange(t.catalog, comp, vs[0], limits);
    assert comp == Component(comp.ty, cs[0].descending);
  }

  lemma NoLimits(catalog: Catalog, comp: Component, v: Value)
    ensures InLimits(catalog, comp, v, Limits(None, None))
  {}

  // ---- From access to bytes ---------------------------------------------------------------------

  /** The byte range of an access. */
  function PlanBounds(catalog: Catalog, comps: seq<Component>, a: Access): Scan
    requires a.Access? && Used(a) <= |comps|
  {
    if a.impossible then Nothing else
    var m := |a.equality|;
    var prefix := EncodeComponents(catalog, comps[..m], a.equality);
    if prefix.None? then Scan.Failed
    else if a.range.Some?
            then IndexRangeBounds(catalog, prefix.value, comps[m], a.range.value.lower, a.range.value.upper)
    else if m == |comps| then Range(Bounds(Included(prefix.value), Included(prefix.value)))
    else Range(PrefixBounds(prefix.value))
  }

  predicate Selects(scan: Scan, k: Key) {
    scan.Range? && Contains(scan.bounds, k)
  }

  lemma {:induction false} ComponentsEncode(catalog: Catalog, comps: seq<Component>, vs: seq<Value>)
    requires |comps| == |vs|
    ensures EncodeComponents(catalog, comps, vs).Some? <==>
            forall i :: 0 <= i < |comps| ==> Encodes(catalog, comps[i].ty, vs[i])
  {
    hide EncodeKey;
    if comps != [] {
      ComponentsEncode(catalog, comps[1..], vs[1..]);
      if EncodeComponents(catalog, comps, vs).Some? {
        forall i | 0 <= i < |comps| ensures Encodes(catalog, comps[i].ty, vs[i]) {
          if i > 0 { assert Encodes(catalog, comps[1..][i-1].ty, vs[1..][i-1]); }
        }
      }
      if forall i :: 0 <= i < |comps| ==> Encodes(catalog, comps[i].ty, vs[i]) {
        assert Encodes(catalog, comps[0].ty, vs[0]);
        forall i | 0 <= i < |comps| - 1 ensures Encodes(catalog, comps[1..][i].ty, vs[1..][i]) {
          assert Encodes(catalog, comps[i+1].ty, vs[i+1]);
        }
      }
    }
  }

  /** A key has the encoded equality prefix exactly when its components equal it. */
  lemma PrefixExact(catalog: Catalog, comps: seq<Component>, vs: seq<Value>, equality: seq<Value>)
    requires |equality| <= |comps| == |vs|
    requires EncodeComponents(catalog, comps, vs).Some?
    requires EncodeComponents(catalog, comps[..|equality|], equality).Some?
    ensures var m, k := |equality|, EncodeComponents(catalog, comps, vs).value;
            var prefix := EncodeComponents(catalog, comps[..m], equality).value;
            var own, rest := EncodeComponents(catalog, comps[..m], vs[..m]),
                             EncodeComponents(catalog, comps[m..], vs[m..]);
            && own.Some? && rest.Some? && k == own.value + rest.value
            && (prefix <= k <==> own.value == prefix)
            && (own.value == prefix <==> CompareComponents(catalog, comps[..m], vs[..m], equality) == Some(Equal))
  {
    hide EncodeComponent, CompareComponent;
    var m, k := |equality|, EncodeComponents(catalog, comps, vs).value;
    var prefix := EncodeComponents(catalog, comps[..m], equality).value;
    ComponentsConcat(catalog, comps, vs, m);
    TupleOrder(catalog, comps[..m], vs[..m], equality);
    var own, rest := EncodeComponents(catalog, comps[..m], vs[..m]).value,
                     EncodeComponents(catalog, comps[m..], vs[m..]).value;
    var o := CompareComponents(catalog, comps[..m], vs[..m], equality).value;
    DecidesIsCompare(own, prefix, o);
    CompareReverse(own, prefix);
    if o != Equal {
      DecidesConcat(own, prefix, o, rest, [], Equal);
      assert prefix + [] == prefix;
      DecidesIsCompare(own + rest, prefix, o);
      CompareReverse(own + rest, prefix);
    }
  }

  /** The planned byte range holds a row's key exactly when the access holds of the row. */
  lemma BoundsExact(catalog: Catalog, comps: seq<Component>, vs: seq<Value>, a: Access)
    requires a.Access? && Used(a) <= |comps| == |vs| && AccessEncodes(catalog, comps, a)
    requires EncodeComponents(catalog, comps, vs).Some?
    ensures !PlanBounds(catalog, comps, a).Failed?
    ensures Selects(PlanBounds(catalog, comps, a), EncodeComponents(catalog, comps, vs).value) <==>
            AccessHolds(catalog, comps, vs, a)
  {
    hide Encodes, CompareTyped, EncodeComponents, CompareComponents, IndexRangeBounds, PrefixBounds, Compare,
      LimitsEncode;
    var m, k := |a.equality|, EncodeComponents(catalog, comps, vs).value;
    ComponentsEncode(catalog, comps[..m], a.equality);
    if !a.impossible {
      var prefix := EncodeComponents(catalog, comps[..m], a.equality).value;
      PrefixExact(catalog, comps, vs, a.equality);
      if a.range.Some? {
        RangeBoundsExact(catalog, comps, vs, a);
      } else if m == |comps| {
        assert comps[..m] == comps && vs[..m] == vs;
        CompareReverse(k, prefix);
      } else {
        PrefixBoundsExact(prefix, k);
      }
    }
  }

  lemma RangeBoundsExact(catalog: Catalog, comps: seq<Component>, vs: seq<Value>, a: Access)
    requires a.Access? && !a.impossible && a.range.Some? && Used(a) <= |comps| == |vs|
             && AccessEncodes(catalog, comps, a)
    requires EncodeComponents(catalog, comps, vs).Some?
             && EncodeComponents(catalog, comps[..|a.equality|], a.equality).Some?
    ensures !PlanBounds(catalog, comps, a).Failed?
    ensures Selects(PlanBounds(catalog, comps, a), EncodeComponents(catalog, comps, vs).value) <==>
            AccessHolds(catalog, comps, vs, a)
  {
    hide Encodes, CompareTyped, CompareComponents, IndexRangeBounds, Compare, EncodeComponent, AboveLimit,
      BelowLimit;
    var m, k := |a.equality|, EncodeComponents(catalog, comps, vs).value;
    var prefix, limits := EncodeComponents(catalog, comps[..m], a.equality).value, a.range.value;
    PrefixExact(catalog, comps, vs, a.equality);
    assert comps[m..][0] == comps[m] && vs[m..][0] == vs[m];
    var rest := EncodeComponents(catalog, comps[m..][1..], vs[m..][1..]).value;
    var component := EncodeComponent(catalog, comps[m], vs[m]).value;
    LimitsEncodable(catalog, comps[m], limits);
    IndexRangeExact(catalog, prefix, comps[m], limits.lower, limits.upper, vs[m], rest);
    if prefix <= k {
      assert k == prefix + component + rest by { assert k == prefix + (component + rest); }
    } else if Selects(PlanBounds(catalog, comps, a), k) {
      IndexRangeKeepsPrefix(catalog, prefix, comps[m], limits.lower, limits.upper, k);
    }
  }

  lemma LimitsEncodable(catalog: Catalog, c: Component, l: Limits)
    requires LimitsEncode(catalog, c.ty, l)
    ensures Encodable(catalog, c, l.lower) && Encodable(catalog, c, l.upper)
  {}
}
