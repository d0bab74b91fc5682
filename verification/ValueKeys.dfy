/** The text form of a value that groups, distinct counts and index entries are keyed by. */
module ValueKeys {
  import opened Bytes
  import opened Scalars
  import opened Model
  import opened OrderedKey
  import opened Planner
  import opened SetOperations

  /** What is printed for a value: one form for both zeros, and no name for a variant that has
      a stable ID. */
  function KeyForm(v: Value): Value
    decreases v
  {
    match v
    case Float(bits) => Float(NormalFloat(bits))
    case Enum(name, args, id) =>
      Enum(if id == 0 then name else "", seq(|args|, i requires 0 <= i < |args| => KeyForm(args[i])), id)
    case Record(fields) => Record(map name <- fields :: KeyForm(fields[name]))
    case Tuple(items) => Tuple(seq(|items|, i requires 0 <= i < |items| => KeyForm(items[i])))
    case List(items) => List(seq(|items|, i requires 0 <= i < |items| => KeyForm(items[i])))
    case Map(entries) =>
      Map(seq(|entries|, i requires 0 <= i < |entries| => Entry(entries[i].key, KeyForm(entries[i].value))))
    case Opt(o) => Opt(if o.Some? then Some(KeyForm(o.value)) else None)
    case Named(id, inner) => Named(id, KeyForm(inner))
    case _ => v
  }

  /** No float in the value is a NaN; the database stores none. */
  predicate Ordinary(v: Value)
    decreases v
  {
    match v
    case Float(bits) => !IsNan(bits)
    case Enum(_, args, _) => forall i :: 0 <= i < |args| ==> Ordinary(args[i])
    case Record(fields) => forall name <- fields :: Ordinary(fields[name])
    case Tuple(items) => forall i :: 0 <= i < |items| ==> Ordinary(items[i])
    case List(items) => forall i :: 0 <= i < |items| ==> Ordinary(items[i])
    case Map(entries) => forall i :: 0 <= i < |entries| ==> Ordinary(entries[i].value)
    case Opt(o) => o.Some? ==> Ordinary(o.value)
    case Named(_, inner) => Ordinary(inner)
    case _ => true
  }

  /** Two values are equal exactly when the same form is printed for them. */
  lemma {:induction false} FormIsEquality(x: Value, y: Value)
    requires Ordinary(x) && Ordinary(y)
    ensures EqualValues(x, y) <==> KeyForm(x) == KeyForm(y)
    decreases x, 1, 0
  {
    hide EqualValues, KeyForm, Ordinary;
    match x
    case Enum(_, _, _) => EnumForms(x, y);
    case Tuple(_) => TupleForms(x, y);
    case List(_) => ListForms(x, y);
    case Map(_) => EntryForms(x, y);
    case Record(_) => FieldForms(x, y);
    case Opt(_) => OptionForms(x, y);
    case Named(_, _) => NamedForms(x, y);
    case _ => ScalarForms(x, y);
  }

  predicate Scalar(v: Value) {
    !v.Enum? && !v.Tuple? && !v.List? && !v.Map? && !v.Record? && !v.Opt? && !v.Named?
  }

  lemma ScalarForms(x: Value, y: Value)
    requires Scalar(x) && Ordinary(x) && Ordinary(y)
    ensures EqualValues(x, y) <==> KeyForm(x) == KeyForm(y)
  {
    if x.Float? && y.Float? { FloatForm(x.bits, y.bits); }
  }

  lemma {:induction false} EnumForms(x: Value, y: Value)
    requires x.Enum? && Ordinary(x) && Ordinary(y)
    ensures EqualValues(x, y) <==> KeyForm(x) == KeyForm(y)
    decreases x, 0, 1
  {
    if y.Enum? { ItemForms(x, x.args, y.args, KeyForm(x).args, KeyForm(y).args); }
  }

  lemma {:induction false} TupleForms(x: Value, y: Value)
    requires x.Tuple? && Ordinary(x) && Ordinary(y)
    ensures EqualValues(x, y) <==> KeyForm(x) == KeyForm(y)
    decreases x, 0, 1
  {
    if y.Tuple? { ItemForms(x, x.items, y.items, KeyForm(x).items, KeyForm(y).items); }
  }

  lemma {:induction false} ListForms(x: Value, y: Value)
    requires x.List? && Ordinary(x) && Ordinary(y)
    ensures EqualValues(x, y) <==> KeyForm(x) == KeyForm(y)
    decreases x, 0, 1
  {
    if y.List? { ItemForms(x, x.items, y.items, KeyForm(x).items, KeyForm(y).items); }
  }

  lemma {:induction false} OptionForms(x: Value, y: Value)
    requires x.Opt? && Ordinary(x) && Ordinary(y)
    ensures EqualValues(x, y) <==> KeyForm(x) == KeyForm(y)
    decreases x, 0, 1
  {
    if y.Opt? && x.opt.Some? && y.opt.Some? { FormIsEquality(x.opt.value, y.opt.value); }
  }

  lemma {:induction false} NamedForms(x: Value, y: Value)
    requires x.Named? && Ordinary(x) && Ordinary(y)
    ensures EqualValues(x, y) <==> KeyForm(x) == KeyForm(y)
    decreases x, 0, 1
  {
    if y.Named? { FormIsEquality(x.value, y.value); }
  }

  lemma FloatForm(a: U64, b: U64)
    ensures CompareFloat(a, b) == Equal <==> NormalFloat(a) == NormalFloat(b)
  {
    hide Magnitude;
    if CompareFloat(a, b) == Equal { SameFloat(a, b); }
    ZeroMagnitude();
  }

  lemma ZeroMagnitude()
    ensures Magnitude(0) == 0
  {}

  /** Item by item, for sequences that print their items' forms. */
  lemma {:induction false} ItemForms(x: Value, xs: seq<Value>, ys: seq<Value>, fs: seq<Value>, gs: seq<Value>)
    requires (forall i :: 0 <= i < |xs| ==> xs[i] < x && Ordinary(xs[i]))
             && (forall i :: 0 <= i < |ys| ==> Ordinary(ys[i]))
    requires |fs| == |xs| && forall i :: 0 <= i < |xs| ==> fs[i] == KeyForm(xs[i])
    requires |gs| == |ys| && forall i :: 0 <= i < |ys| ==> gs[i] == KeyForm(ys[i])
    ensures |xs| == |ys| && (forall i :: 0 <= i < |xs| ==> EqualValues(xs[i], ys[i])) <==> fs == gs
    decreases x, 0, 0
  {
    hide EqualValues, KeyForm, Ordinary;
    forall i | 0 <= i < |xs| && i < |ys| ensures EqualValues(xs[i], ys[i]) <==> fs[i] == gs[i] {
      FormIsEquality(xs[i], ys[i]);
    }
  }

  lemma {:induction false} EntryForms(x: Value, y: Value)
    requires x.Map? && Ordinary(x) && Ordinary(y)
    ensures EqualValues(x, y) <==> KeyForm(x) == KeyForm(y)
    decreases x, 0, 0
  {
    if !y.Map? { return; }
    assert |KeyForm(x).entries| == |x.entries| && |KeyForm(y).entries| == |y.entries|;
    if |x.entries| != |y.entries| { return; }
    var xs, ys := x.entries, y.entries;
    forall i | 0 <= i < |xs|
      ensures EqualValues(xs[i].value, ys[i].value) <==> KeyForm(xs[i].value) == KeyForm(ys[i].value)
    {
      FormIsEquality(xs[i].value, ys[i].value);
    }
    var fs, gs := KeyForm(x).entries, KeyForm(y).entries;
    if fs == gs {
      forall i | 0 <= i < |xs| ensures xs[i].key == ys[i].key && EqualValues(xs[i].value, ys[i].value) {
        assert fs[i] == gs[i];
      }
    }
  }

  lemma {:induction false} FieldForms(x: Value, y: Value)
    requires x.Record? && Ordinary(x) && Ordinary(y)
    ensures EqualValues(x, y) <==> KeyForm(x) == KeyForm(y)
    decreases x, 0, 0
  {
    if !y.Record? { return; }
    var f, g := x.fields, y.fields;
    forall name <- f | name in g ensures EqualValues(f[name], g[name]) <==> KeyForm(f[name]) == KeyForm(g[name]) {
      FormIsEquality(f[name], g[name]);
    }
    var fs, gs := KeyForm(x).fields, KeyForm(y).fields;
    assert fs.Keys == f.Keys && gs.Keys == g.Keys;
    if fs == gs {
      forall name <- f ensures name in g && EqualValues(f[name], g[name]) {
        assert name in fs && fs[name] == gs[name];
      }
    }
    if EqualValues(x, y) {
      SubsetOfSameSize(f.Keys, g.Keys);
      forall name <- fs ensures name in gs && fs[name] == gs[name] {}
    }
  }

  /** On encodable values the printed form and the index key tell the same values apart. */
  lemma {:induction false} FormIsKey(catalog: Catalog, ty: ScalarType, x: Value, y: Value)
    requires WellFormedCatalog(catalog) && WellFormed(ty) && Ordinary(x) && Ordinary(y)
    requires Encodes(catalog, ty, x) && Encodes(catalog, ty, y)
    ensures KeyForm(x) == KeyForm(y) <==> KeyOf(catalog, ty, x) == KeyOf(catalog, ty, y)
  {
    hide KeyForm, Ordinary, EncodeKey, CompareTyped, EqualValues, Compare, WellFormed, WellFormedCatalog;
    FormIsEquality(x, y);
    EqualIsTyped(catalog, ty, x, y, 0);
    TypedIsBytes(catalog, ty, x, y);
    CompareReverse(KeyOf(catalog, ty, x), KeyOf(catalog, ty, y));
  }

  /** The printed key is the text of the value's key form, and different forms have different
      texts. */
  ghost predicate PrintsForm(indexKey: Value -> string) {
    forall x, y :: indexKey(x) == indexKey(y) <==> KeyForm(x) == KeyForm(y)
  }

  lemma {:induction false} SameKey(indexKey: Value -> string, x: Value, y: Value)
    requires PrintsForm(indexKey) && Ordinary(x) && Ordinary(y)
    ensures indexKey(x) == indexKey(y) <==> EqualValues(x, y)
  {
    hide EqualValues, KeyForm, Ordinary;
    FormIsEquality(x, y);
  }
}
