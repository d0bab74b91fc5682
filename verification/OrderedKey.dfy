/** Order-preserving index keys: a typed value is encoded so that comparing bytes
    is comparing values, and complementing a component reverses it. */
module OrderedKey {
  import opened Bytes
  import opened Scalars
  import opened Model

  type Key = seq<Byte>

  const MAX_INDEX_COMPONENTS: int := 16

  /** Zero bytes are escaped as 00 FF and the string ends in 00 00. */
  function Escape(s: seq<Byte>): Key {
    if s == [] then [0, 0]
    else if s[0] == 0 then [0, 255] + Escape(s[1..])
    else [s[0]] + Escape(s[1..])
  }

  /** The bits of a finite double with the sign folded in. */
  function FloatRank(bits: U64): nat {
    var n := NormalFloat(bits);
    if n < TWO_63 then n + TWO_63 else TWO_64 - 1 - n
  }

  /** The ascending key of one component. */
  function EncodeKey(catalog: Catalog, ty: ScalarType, v: Value, depth: nat): Option<Key>
    decreases MAX_DEPTH - depth, 0, 0
  {
    if depth >= MAX_DEPTH then None else
    match ty
    case TInt => if v.Int? then Some(BigEndian(v.i + TWO_63, 8)) else None
    case TFloat => if v.Float? && IsFinite(v.bits) then Some(BigEndian(FloatRank(v.bits), 8)) else None
    case TBool => if v.Bool? then Some([BoolRank(v.b)]) else None
    case TText => if v.Text? then Some(Escape(v.text)) else None
    case TUuid => if v.Uuid? then Some(v.uuid) else None
    case TDate => if v.Date? then Some(BigEndian(v.days + 0x8000_0000, 4)) else None
    case TTimestamp => if v.Timestamp? then Some(BigEndian(v.at + TWO_63, 8)) else None
    case TDuration => if v.Duration? then Some(BigEndian(v.micros + TWO_63, 8)) else None
    case TDecimal(_, scale) =>
      if v.Decimal? && v.scale == scale then Some(BigEndian(v.coefficient + TWO_127, 16)) else None
    case TBytes => if v.Bytes? then Some(Escape(v.blob)) else None
    case TRef(id) =>
      if v.Named? && v.typeId == id && id in catalog
      then EncodeKey(catalog, catalog[id], v.value, depth + 1) else None
    case TEnum(variants) =>
      if !v.Enum? || v.id == 0 then None else
      var variant := FindVariant(variants, v.id);
      if variant.None? || |v.args| != |variant.value.args| then None
      else Concat(Some(BigEndian(v.id, 8)), EncodeItems(catalog, variant.value.args, v.args, depth + 1))
    case TRecord(columns) =>
      if v.Record? && |v.fields| == |columns|
      then EncodeFields(catalog, ById(columns), v.fields, depth + 1) else None
    case TTuple(types) =>
      if v.Tuple? && |v.items| == |types| then EncodeItems(catalog, types, v.items, depth + 1) else None
    case TOption(inner) =>
      if !v.Opt? then None
      else if v.opt.None? then Some([0])
      else Concat(Some([1]), EncodeKey(catalog, inner, v.opt.value, depth + 1))
    case TList(inner) => if v.List? then EncodeList(catalog, inner, v.items, depth + 1) else None
    case TMap(inner) => if v.Map? then EncodeEntries(catalog, inner, v.entries, depth + 1) else None
    case TNamed(_) => None
  }

  function EncodeItems(catalog: Catalog, types: seq<ScalarType>, vs: seq<Value>, depth: nat): Option<Key>
    requires |types| == |vs|
    decreases MAX_DEPTH - depth, 1, |types|
  {
    if types == [] then Some([])
    else Concat(EncodeKey(catalog, types[0], vs[0], depth), EncodeItems(catalog, types[1..], vs[1..], depth))
  }

  function EncodeFields(catalog: Catalog, columns: seq<Column>, fields: map<string, Value>, depth: nat): Option<Key>
    decreases MAX_DEPTH - depth, 1, |columns|
  {
    if columns == [] then Some([])
    else if columns[0].name !in fields then None
    else Concat(EncodeKey(catalog, columns[0].ty, fields[columns[0].name], depth),
                EncodeFields(catalog, columns[1..], fields, depth))
  }

  function EncodeList(catalog: Catalog, inner: ScalarType, vs: seq<Value>, depth: nat): Option<Key>
    decreases MAX_DEPTH - depth, 1, |vs|
  {
    if vs == [] then Some([0])
    else Concat(Concat(Some([1]), EncodeKey(catalog, inner, vs[0], depth)), EncodeList(catalog, inner, vs[1..], depth))
  }

  function EncodeEntries(catalog: Catalog, inner: ScalarType, es: seq<Entry>, depth: nat): Option<Key>
    decreases MAX_DEPTH - depth, 1, |es|
  {
    if es == [] then Some([0])
    else Concat(Concat(Some([1] + Escape(es[0].key)), EncodeKey(catalog, inner, es[0].value, depth)),
                EncodeEntries(catalog, inner, es[1..], depth))
  }

  // ---- Byte order is typed order ----------------------------------------------------------------

  lemma {:induction false} EscapeOrder(s: seq<Byte>, t: seq<Byte>)
    ensures Decides(Escape(s), Escape(t), Compare(s, t))
  {
    if s == [] && t == [] {
    } else if s == [] {
      EscapeEmptyBelow(t);
    } else if t == [] {
      EscapeEmptyBelow(s);
    } else {
      EscapeOrder(s[1..], t[1..]);
      var x := if s[0] == 0 then [0, 255] else [s[0]];
      var y := if t[0] == 0 then [0, 255] else [t[0]];
      var o := CompareInt(s[0], t[0]);
      if s[0] < t[0] {
        assert BelowAt(x, y, 0);
      } else if t[0] < s[0] {
        assert BelowAt(y, x, 0);
      }
      DecidesConcat(x, y, o, Escape(s[1..]), Escape(t[1..]), Compare(s[1..], t[1..]));
    }
  }

  lemma EscapeEmptyBelow(t: seq<Byte>)
    requires t != []
    ensures Below(Escape([]), Escape(t))
  {
    var e := Escape(t);
    if t[0] == 0 {
      assert e[0] == 0 && e[1] == 255;
      assert BelowAt([0, 0], e, 1);
    } else {
      assert e[0] == t[0];
      assert BelowAt([0, 0], e, 0);
    }
  }

  lemma FloatRankOrder(a: U64, b: U64)
    requires IsFinite(a) && IsFinite(b)
    ensures CompareInt(FloatRank(a), FloatRank(b)) == CompareFloat(a, b)
  {
    var x, y := NormalFloat(a), NormalFloat(b);
    assert FloatNumber(a) == FloatNumber(x) && FloatNumber(b) == FloatNumber(y) by {
      assert Magnitude(0) == 0;
    }
    if x < TWO_63 && y < TWO_63 {
      MagnitudeOrder(x, y);
    } else if x >= TWO_63 && y >= TWO_63 {
      MagnitudeOrder(x - TWO_63, y - TWO_63);
    } else if x < TWO_63 {
      MagnitudeMonotone(0, y - TWO_63);
    } else {
      MagnitudeMonotone(0, x - TWO_63);
    }
  }

  lemma MagnitudeOrder(m: nat, n: nat)
    ensures CompareInt(Magnitude(m), Magnitude(n)) == CompareInt(m, n)
  {
    if m < n { MagnitudeMonotone(m, n); } else if n < m { MagnitudeMonotone(n, m); }
  }

  lemma {:induction false} SameWidthOrder(a: seq<Byte>, b: seq<Byte>)
    requires |a| == |b|
    ensures Decides(a, b, Compare(a, b))
  {
    if a != [] {
      SameWidthOrder(a[1..], b[1..]);
      SingleByteOrder(a[0], b[0]);
      DecidesConcat([a[0]], [b[0]], CompareInt(a[0], b[0]), a[1..], b[1..], Compare(a[1..], b[1..]));
      assert a == [a[0]] + a[1..] && b == [b[0]] + b[1..];
    }
  }

  /** Encoded components compare exactly as the typed values do, and neither key is
      a proper prefix of the other. */
  lemma {:induction false} KeyOrder(catalog: Catalog, ty: ScalarType, l: Value, r: Value, depth: nat)
    requires EncodeKey(catalog, ty, l, depth).Some? && EncodeKey(catalog, ty, r, depth).Some?
    ensures CompareTyped(catalog, ty, l, r, depth).Some?
    ensures Decides(EncodeKey(catalog, ty, l, depth).value, EncodeKey(catalog, ty, r, depth).value,
                    CompareTyped(catalog, ty, l, r, depth).value)
    decreases MAX_DEPTH - depth, 0, 0
  {
    hide BigEndian, FloatRank, Escape, Decides, Compare;
    match ty
    case TRef(id) => KeyOrder(catalog, catalog[id], l.value, r.value, depth + 1);
    case TEnum(variants) => EnumOrder(catalog, variants, l, r, depth);
    case TRecord(columns) => FieldsOrder(catalog, ById(columns), l.fields, r.fields, depth + 1);
    case TTuple(types) => ItemsOrder(catalog, types, l.items, r.items, depth + 1);
    case TOption(inner) => OptionOrder(catalog, inner, l, r, depth);
    case TList(inner) => ListOrder(catalog, inner, l.items, r.items, depth + 1);
    case TMap(inner) => EntriesOrder(catalog, inner, l.entries, r.entries, depth + 1);
    case TNamed(_) =>
    case _ => ScalarOrder(catalog, ty, l, r, depth);
  }

  predicate IsLeaf(ty: ScalarType) {
    !ty.TRef? && !ty.TEnum? && !ty.TRecord? && !ty.TTuple? && !ty.TOption? && !ty.TList? && !ty.TMap? && !ty.TNamed?
  }

  lemma ScalarOrder(catalog: Catalog, ty: ScalarType, l: Value, r: Value, depth: nat)
    requires IsLeaf(ty) && EncodeKey(catalog, ty, l, depth).Some? && EncodeKey(catalog, ty, r, depth).Some?
    ensures CompareTyped(catalog, ty, l, r, depth).Some?
    ensures Decides(EncodeKey(catalog, ty, l, depth).value, EncodeKey(catalog, ty, r, depth).value,
                    CompareTyped(catalog, ty, l, r, depth).value)
  {
    hide BigEndian, Escape, Decides, Compare;
    Pow256Values();
    match ty
    case TInt => BigEndianOrder(l.i + TWO_63, r.i + TWO_63, 8);
    case TFloat =>
      FloatRankOrder(l.bits, r.bits);
      BigEndianOrder(FloatRank(l.bits), FloatRank(r.bits), 8);
    case TBool => SingleByteOrder(BoolRank(l.b), BoolRank(r.b));
    case TText => EscapeOrder(l.text, r.text);
    case TUuid => SameWidthOrder(l.uuid, r.uuid);
    case TDate => BigEndianOrder(l.days + 0x8000_0000, r.days + 0x8000_0000, 4);
    case TTimestamp => BigEndianOrder(l.at + TWO_63, r.at + TWO_63, 8);
    case TDuration => BigEndianOrder(l.micros + TWO_63, r.micros + TWO_63, 8);
    case TDecimal(_, _) => BigEndianOrder(l.coefficient + TWO_127, r.coefficient + TWO_127, 16);
    case TBytes => EscapeOrder(l.blob, r.blob);
  }

  lemma {:induction false} OptionOrder(catalog: Catalog, inner: ScalarType, l: Value, r: Value, depth: nat)
    requires depth < MAX_DEPTH
    requires EncodeKey(catalog, TOption(inner), l, depth).Some? && EncodeKey(catalog, TOption(inner), r, depth).Some?
    ensures CompareTyped(catalog, TOption(inner), l, r, depth).Some?
    ensures Decides(EncodeKey(catalog, TOption(inner), l, depth).value,
                    EncodeKey(catalog, TOption(inner), r, depth).value,
                    CompareTyped(catalog, TOption(inner), l, r, depth).value)
    decreases MAX_DEPTH - depth - 1, 2, 0
  {
    if l.opt.Some? && r.opt.Some? {
      KeyOrder(catalog, inner, l.opt.value, r.opt.value, depth + 1);
      DecidesConcat([1], [1], Equal, EncodeKey(catalog, inner, l.opt.value, depth + 1).value,
                    EncodeKey(catalog, inner, r.opt.value, depth + 1).value,
                    CompareTyped(catalog, inner, l.opt.value, r.opt.value, depth + 1).value);
    } else if l.opt.Some? {
      assert BelowAt([0], EncodeKey(catalog, TOption(inner), l, depth).value, 0);
    } else if r.opt.Some? {
      assert BelowAt([0], EncodeKey(catalog, TOption(inner), r, depth).value, 0);
    }
  }

  lemma {:induction false} EnumOrder(catalog: Catalog, variants: seq<Variant>, l: Value, r: Value, depth: nat)
    requires depth < MAX_DEPTH
    requires EncodeKey(catalog, TEnum(variants), l, depth).Some? && EncodeKey(catalog, TEnum(variants), r, depth).Some?
    ensures CompareTyped(catalog, TEnum(variants), l, r, depth).Some?
    ensures Decides(EncodeKey(catalog, TEnum(variants), l, depth).value,
                    EncodeKey(catalog, TEnum(variants), r, depth).value,
                    CompareTyped(catalog, TEnum(variants), l, r, depth).value)
    decreases MAX_DEPTH - depth - 1, 2, 0
  {
    Pow256Values();
    BigEndianOrder(l.id, r.id, 8);
    var lt, rt := FindVariant(variants, l.id).value.args, FindVariant(variants, r.id).value.args;
    var x, y := EncodeItems(catalog, lt, l.args, depth + 1).value, EncodeItems(catalog, rt, r.args, depth + 1).value;
    var p := Equal;
    if l.id == r.id {
      ItemsOrder(catalog, lt, l.args, r.args, depth + 1);
      p := CompareItems(catalog, lt, l.args, r.args, depth + 1).value;
    }
    DecidesConcat(BigEndian(l.id, 8), BigEndian(r.id, 8), CompareInt(l.id, r.id), x, y, p);
  }

  lemma {:induction false} ItemsOrder(
    catalog: Catalog, types: seq<ScalarType>, ls: seq<Value>, rs: seq<Value>, depth: nat)
    requires |types| == |ls| == |rs|
    requires EncodeItems(catalog, types, ls, depth).Some? && EncodeItems(catalog, types, rs, depth).Some?
    ensures CompareItems(catalog, types, ls, rs, depth).Some?
    ensures Decides(EncodeItems(catalog, types, ls, depth).value, EncodeItems(catalog, types, rs, depth).value,
                    CompareItems(catalog, types, ls, rs, depth).value)
    decreases MAX_DEPTH - depth, 1, |types|
  {
    if types != [] {
      KeyOrder(catalog, types[0], ls[0], rs[0], depth);
      ItemsOrder(catalog, types[1..], ls[1..], rs[1..], depth);
      DecidesConcat(EncodeKey(catalog, types[0], ls[0], depth).value, EncodeKey(catalog, types[0], rs[0], depth).value,
                    CompareTyped(catalog, types[0], ls[0], rs[0], depth).value,
                    EncodeItems(catalog, types[1..], ls[1..], depth).value,
                      EncodeItems(catalog, types[1..], rs[1..], depth).value,
                    CompareItems(catalog, types[1..], ls[1..], rs[1..], depth).value);
    }
  }

  lemma {:induction false} FieldsOrder(
    catalog: Catalog, columns: seq<Column>, l: map<string, Value>, r: map<string, Value>, depth: nat)
    requires EncodeFields(catalog, columns, l, depth).Some? && EncodeFields(catalog, columns, r, depth).Some?
    ensures CompareFields(catalog, columns, l, r, depth).Some?
    ensures Decides(EncodeFields(catalog, columns, l, depth).value, EncodeFields(catalog, columns, r, depth).value,
                    CompareFields(catalog, columns, l, r, depth).value)
    decreases MAX_DEPTH - depth, 1, |columns|
  {
    if columns != [] {
      var name, ty := columns[0].name, columns[0].ty;
      KeyOrder(catalog, ty, l[name], r[name], depth);
      FieldsOrder(catalog, columns[1..], l, r, depth);
      DecidesConcat(EncodeKey(catalog, ty, l[name], depth).value, EncodeKey(catalog, ty, r[name], depth).value,
                    CompareTyped(catalog, ty, l[name], r[name], depth).value,
                    EncodeFields(catalog, columns[1..], l, depth).value,
                      EncodeFields(catalog, columns[1..], r, depth).value,
                    CompareFields(catalog, columns[1..], l, r, depth).value);
    }
  }

  lemma {:induction false} ListOrder(catalog: Catalog, inner: ScalarType, ls: seq<Value>, rs: seq<Value>, depth: nat)
    requires EncodeList(catalog, inner, ls, depth).Some? && EncodeList(catalog, inner, rs, depth).Some?
    ensures CompareLists(catalog, inner, ls, rs, depth).Some?
    ensures Decides(EncodeList(catalog, inner, ls, depth).value, EncodeList(catalog, inner, rs, depth).value,
                    CompareLists(catalog, inner, ls, rs, depth).value)
    decreases MAX_DEPTH - depth, 1, |ls|
  {
    var x, y := EncodeList(catalog, inner, ls, depth).value, EncodeList(catalog, inner, rs, depth).value;
    if ls == [] && rs == [] {
    } else if ls == [] {
      assert BelowAt(x, y, 0);
    } else if rs == [] {
      assert BelowAt(y, x, 0);
    } else {
      KeyOrder(catalog, inner, ls[0], rs[0], depth);
      ListOrder(catalog, inner, ls[1..], rs[1..], depth);
      var a, b := EncodeKey(catalog, inner, ls[0], depth).value, EncodeKey(catalog, inner, rs[0], depth).value;
      var o := CompareTyped(catalog, inner, ls[0], rs[0], depth).value;
      DecidesConcat([1], [1], Equal, a, b, o);
      DecidesConcat([1] + a, [1] + b, o, EncodeList(catalog, inner, ls[1..], depth).value,
                    EncodeList(catalog, inner, rs[1..], depth).value,
                      CompareLists(catalog, inner, ls[1..], rs[1..], depth).value);
    }
  }

  lemma {:induction false} EntriesOrder(catalog: Catalog, inner: ScalarType, ls: seq<Entry>, rs: seq<Entry>, depth: nat)
    requires EncodeEntries(catalog, inner, ls, depth).Some? && EncodeEntries(catalog, inner, rs, depth).Some?
    ensures CompareEntries(catalog, inner, ls, rs, depth).Some?
    ensures Decides(EncodeEntries(catalog, inner, ls, depth).value, EncodeEntries(catalog, inner, rs, depth).value,
                    CompareEntries(catalog, inner, ls, rs, depth).value)
    decreases MAX_DEPTH - depth, 1, |ls|
  {
    hide EncodeKey, CompareTyped;
    var x, y := EncodeEntries(catalog, inner, ls, depth).value, EncodeEntries(catalog, inner, rs, depth).value;
    if ls == [] && rs == [] {
    } else if ls == [] {
      assert BelowAt(x, y, 0);
    } else if rs == [] {
      assert BelowAt(y, x, 0);
    } else {
      EscapeOrder(ls[0].key, rs[0].key);
      KeyOrder(catalog, inner, ls[0].value, rs[0].value, depth);
      EntriesOrder(catalog, inner, ls[1..], rs[1..], depth);
      var k := Compare(ls[0].key, rs[0].key);
      var a, b := EncodeKey(catalog, inner, ls[0].value, depth).value,
                  EncodeKey(catalog, inner, rs[0].value, depth).value;
      var o := CompareTyped(catalog, inner, ls[0].value, rs[0].value, depth).value;
      DecidesConcat([1], [1], Equal, Escape(ls[0].key), Escape(rs[0].key), k);
      DecidesConcat([1] + Escape(ls[0].key), [1] + Escape(rs[0].key), k, a, b, o);
      DecidesConcat([1] + Escape(ls[0].key) + a, [1] + Escape(rs[0].key) + b, k.Then(o),
                    EncodeEntries(catalog, inner, ls[1..], depth).value,
                      EncodeEntries(catalog, inner, rs[1..], depth).value,
                    CompareEntries(catalog, inner, ls[1..], rs[1..], depth).value);
    }
  }

  // ---- Typed equality is structural equality ----------------------------------------------------

  lemma {:induction false} EqualIsTyped(catalog: Catalog, ty: ScalarType, l: Value, r: Value, depth: nat)
    requires WellFormedCatalog(catalog) && WellFormed(ty)
    requires EncodeKey(catalog, ty, l, depth).Some? && EncodeKey(catalog, ty, r, depth).Some?
    ensures CompareTyped(catalog, ty, l, r, depth) == Some(Equal) <==> EqualValues(l, r)
    decreases MAX_DEPTH - depth, 0, 0
  {
    match ty
    case TRef(_) => WrappedEqual(catalog, ty, l, r, depth);
    case TOption(_) => WrappedEqual(catalog, ty, l, r, depth);
    case TEnum(_) => EnumEqual(catalog, ty, l, r, depth);
    case TRecord(_) => RecordEqual(catalog, ty, l, r, depth);
    case TTuple(_) => SequenceEqual(catalog, ty, l, r, depth);
    case TList(_) => SequenceEqual(catalog, ty, l, r, depth);
    case TMap(_) => MapEqual(catalog, ty, l, r, depth);
    case _ => ScalarEqual(catalog, ty, l, r, depth);
  }

  lemma {:induction false} WrappedEqual(catalog: Catalog, ty: ScalarType, l: Value, r: Value, depth: nat)
    requires WellFormedCatalog(catalog) && WellFormed(ty) && (ty.TRef? || ty.TOption?) && depth < MAX_DEPTH
    requires EncodeKey(catalog, ty, l, depth).Some? && EncodeKey(catalog, ty, r, depth).Some?
    ensures CompareTyped(catalog, ty, l, r, depth) == Some(Equal) <==> EqualValues(l, r)
    decreases MAX_DEPTH - depth - 1, 2, 0
  {
    if ty.TRef? {
      EqualIsTyped(catalog, catalog[ty.typeId], l.value, r.value, depth + 1);
    } else if l.opt.Some? && r.opt.Some? {
      EqualIsTyped(catalog, ty.inner, l.opt.value, r.opt.value, depth + 1);
    }
  }

  lemma {:induction false} RecordEqual(catalog: Catalog, ty: ScalarType, l: Value, r: Value, depth: nat)
    requires WellFormedCatalog(catalog) && WellFormed(ty) && ty.TRecord? && depth < MAX_DEPTH
    requires EncodeKey(catalog, ty, l, depth).Some? && EncodeKey(catalog, ty, r, depth).Some?
    ensures CompareTyped(catalog, ty, l, r, depth) == Some(Equal) <==> EqualValues(l, r)
    decreases MAX_DEPTH - depth - 1, 3, 0
  {
    RecordsEqual(catalog, ty.columns, l.fields, r.fields, depth + 1);
  }

  lemma {:induction false} EnumEqual(catalog: Catalog, ty: ScalarType, l: Value, r: Value, depth: nat)
    requires WellFormedCatalog(catalog) && WellFormed(ty) && ty.TEnum? && depth < MAX_DEPTH
    requires EncodeKey(catalog, ty, l, depth).Some? && EncodeKey(catalog, ty, r, depth).Some?
    ensures CompareTyped(catalog, ty, l, r, depth) == Some(Equal) <==> EqualValues(l, r)
    decreases MAX_DEPTH - depth - 1, 2, 0
  {
    if l.id == r.id {
      ItemsEqual(catalog, FindVariant(ty.variants, l.id).value.args, l.args, r.args, depth + 1);
    }
  }

  lemma {:induction false} SequenceEqual(catalog: Catalog, ty: ScalarType, l: Value, r: Value, depth: nat)
    requires WellFormedCatalog(catalog) && WellFormed(ty) && (ty.TTuple? || ty.TList?) && depth < MAX_DEPTH
    requires EncodeKey(catalog, ty, l, depth).Some? && EncodeKey(catalog, ty, r, depth).Some?
    ensures CompareTyped(catalog, ty, l, r, depth) == Some(Equal) <==> EqualValues(l, r)
    decreases MAX_DEPTH - depth - 1, 2, 0
  {
    if ty.TTuple? {
      ItemsEqual(catalog, ty.items, l.items, r.items, depth + 1);
    } else {
      ListsEqual(catalog, ty.inner, l.items, r.items, depth + 1);
    }
  }

  lemma {:induction false} MapEqual(catalog: Catalog, ty: ScalarType, l: Value, r: Value, depth: nat)
    requires WellFormedCatalog(catalog) && WellFormed(ty) && ty.TMap? && depth < MAX_DEPTH
    requires EncodeKey(catalog, ty, l, depth).Some? && EncodeKey(catalog, ty, r, depth).Some?
    ensures CompareTyped(catalog, ty, l, r, depth) == Some(Equal) <==> EqualValues(l, r)
    decreases MAX_DEPTH - depth - 1, 2, 0
  {
    EntriesEqual(catalog, ty.inner, l.entries, r.entries, depth + 1);
    assert EqualValues(l, r) <==>
           |l.entries| == |r.entries| && forall k :: 0 <= k < |l.entries| ==> SameEntry(l.entries[k], r.entries[k]);
  }

  lemma ScalarEqual(catalog: Catalog, ty: ScalarType, l: Value, r: Value, depth: nat)
    requires !ty.TRef? && !ty.TEnum? && !ty.TRecord? && !ty.TTuple? && !ty.TOption? && !ty.TList? && !ty.TMap?
    requires EncodeKey(catalog, ty, l, depth).Some? && EncodeKey(catalog, ty, r, depth).Some?
    ensures CompareTyped(catalog, ty, l, r, depth) == Some(Equal) <==> EqualValues(l, r)
  {
    match ty
    case TText => CompareReverse(l.text, r.text);
    case TUuid => CompareReverse(l.uuid, r.uuid);
    case TBytes => CompareReverse(l.blob, r.blob);
    case _ =>
  }

  lemma {:induction false} ItemsEqual(
    catalog: Catalog, types: seq<ScalarType>, ls: seq<Value>, rs: seq<Value>, depth: nat)
    requires WellFormedCatalog(catalog) && forall t <- types :: WellFormed(t)
    requires |types| == |ls| == |rs|
    requires EncodeItems(catalog, types, ls, depth).Some? && EncodeItems(catalog, types, rs, depth).Some?
    ensures CompareItems(catalog, types, ls, rs, depth) == Some(Equal) <==>
            forall k :: 0 <= k < |ls| ==> EqualValues(ls[k], rs[k])
    decreases MAX_DEPTH - depth, 1, |types|
  {
    if types != [] {
      EqualIsTyped(catalog, types[0], ls[0], rs[0], depth);
      ItemsEqual(catalog, types[1..], ls[1..], rs[1..], depth);
      PeelHead(ls, rs);
    }
  }

  lemma PeelHead(ls: seq<Value>, rs: seq<Value>)
    requires 0 < |ls| <= |rs|
    ensures (forall k :: 0 <= k < |ls| ==> EqualValues(ls[k], rs[k])) <==>
            EqualValues(ls[0], rs[0]) && forall k :: 0 <= k < |ls[1..]| ==> EqualValues(ls[1..][k], rs[1..][k])
  {
    if EqualValues(ls[0], rs[0]) && forall k :: 0 <= k < |ls[1..]| ==> EqualValues(ls[1..][k], rs[1..][k]) {
      forall k | 0 <= k < |ls| ensures EqualValues(ls[k], rs[k]) {
        if k > 0 { assert ls[k] == ls[1..][k-1] && rs[k] == rs[1..][k-1]; }
      }
    }
  }

  lemma {:induction false} ListsEqual(catalog: Catalog, inner: ScalarType, ls: seq<Value>, rs: seq<Value>, depth: nat)
    requires WellFormedCatalog(catalog) && WellFormed(inner)
    requires EncodeList(catalog, inner, ls, depth).Some? && EncodeList(catalog, inner, rs, depth).Some?
    ensures CompareLists(catalog, inner, ls, rs, depth) == Some(Equal) <==>
            |ls| == |rs| && forall k :: 0 <= k < |ls| ==> EqualValues(ls[k], rs[k])
    decreases MAX_DEPTH - depth, 1, |ls|
  {
    if ls != [] && rs != [] {
      EqualIsTyped(catalog, inner, ls[0], rs[0], depth);
      ListsEqual(catalog, inner, ls[1..], rs[1..], depth);
      if |ls| == |rs| { PeelHead(ls, rs); }
    }
  }

  ghost predicate SameEntry(a: Entry, b: Entry) {
    a.key == b.key && EqualValues(a.value, b.value)
  }

  lemma {:induction false} EntriesEqual(
    catalog: Catalog, inner: ScalarType, ls: seq<Entry>, rs: seq<Entry>, depth: nat)
    requires WellFormedCatalog(catalog) && WellFormed(inner)
    requires EncodeEntries(catalog, inner, ls, depth).Some? && EncodeEntries(catalog, inner, rs, depth).Some?
    ensures CompareEntries(catalog, inner, ls, rs, depth) == Some(Equal) <==>
            |ls| == |rs| && forall k :: 0 <= k < |ls| ==> SameEntry(ls[k], rs[k])
    decreases MAX_DEPTH - depth, 1, |ls|
  {
    hide EqualValues, CompareTyped, EncodeKey, Compare, Escape, WellFormed, WellFormedCatalog;
    if ls != [] && rs != [] {
      CompareReverse(ls[0].key, rs[0].key);
      EqualIsTyped(catalog, inner, ls[0].value, rs[0].value, depth);
      EntriesEqual(catalog, inner, ls[1..], rs[1..], depth);
      SameHead(ls, rs);
    }
  }

  lemma SameHead(ls: seq<Entry>, rs: seq<Entry>)
    requires ls != [] && rs != []
    ensures |ls| == |rs| && (forall k :: 0 <= k < |ls| ==> SameEntry(ls[k], rs[k])) <==>
            SameEntry(ls[0], rs[0]) && |ls[1..]| == |rs[1..]| &&
            forall k :: 0 <= k < |ls[1..]| ==> SameEntry(ls[1..][k], rs[1..][k])
  {
    hide SameEntry;
    if |ls| == |rs| {
      assert forall k :: 0 <= k < |ls| - 1 ==> ls[1..][k] == ls[k+1] && rs[1..][k] == rs[k+1];
      assert forall k :: 0 < k < |ls| ==> ls[k] == ls[1..][k-1] && rs[k] == rs[1..][k-1];
    }
  }

  lemma {:induction false} FieldsEqual(
    catalog: Catalog, columns: seq<Column>, l: map<string, Value>, r: map<string, Value>, depth: nat)
    requires WellFormedCatalog(catalog) && forall c <- columns :: WellFormed(c.ty)
    requires EncodeFields(catalog, columns, l, depth).Some? && EncodeFields(catalog, columns, r, depth).Some?
    ensures forall c <- columns :: c.name in l && c.name in r
    ensures CompareFields(catalog, columns, l, r, depth) == Some(Equal) <==>
            forall c <- columns :: EqualValues(l[c.name], r[c.name])
    decreases MAX_DEPTH - depth, 1, |columns|
  {
    if columns != [] {
      var c := columns[0];
      EqualIsTyped(catalog, c.ty, l[c.name], r[c.name], depth);
      FieldsEqual(catalog, columns[1..], l, r, depth);
      assert forall d :: d in columns <==> d == c || d in columns[1..];
    }
  }

  lemma {:induction false} RecordsEqual(
    catalog: Catalog, columns: seq<Column>, l: map<string, Value>, r: map<string, Value>, depth: nat)
    requires WellFormedCatalog(catalog) && WellFormed(TRecord(columns))
    requires |l| == |columns| && |r| == |columns|
    requires EncodeFields(catalog, ById(columns), l, depth).Some?
             && EncodeFields(catalog, ById(columns), r, depth).Some?
    ensures CompareFields(catalog, ById(columns), l, r, depth) == Some(Equal) <==>
            forall k <- l :: k in r && EqualValues(l[k], r[k])
    decreases MAX_DEPTH - depth, 2, 0
  {
    var sorted := ById(columns);
    assert forall c :: c in sorted <==> c in columns by {
      assert forall c :: c in sorted <==> c in multiset(sorted);
    }
    FieldsEqual(catalog, sorted, l, r, depth);
    NamesCount(columns);
    assert Names(columns) <= l.Keys && Names(columns) <= r.Keys;
    SubsetOfSameSize(Names(columns), l.Keys);
    SubsetOfSameSize(Names(columns), r.Keys);
  }

  // ---- Tuples of components ---------------------------------------------------------------------

  datatype Component = Component(ty: ScalarType, descending: bool)

  function EncodeComponent(catalog: Catalog, c: Component, v: Value): Option<Key> {
    var k := EncodeKey(catalog, c.ty, v, 0);
    if k.Some? && c.descending then Some(Complement(k.value)) else k
  }

  function CompareComponent(catalog: Catalog, c: Component, l: Value, r: Value): Option<Ordering> {
    var o := CompareTyped(catalog, c.ty, l, r, 0);
    if o.Some? && c.descending then Some(o.value.Reverse()) else o
  }

  function EncodeComponents(catalog: Catalog, cs: seq<Component>, vs: seq<Value>): Option<Key>
    requires |cs| == |vs|
  {
    if cs == [] then Some([])
    else Concat(EncodeComponent(catalog, cs[0], vs[0]), EncodeComponents(catalog, cs[1..], vs[1..]))
  }

  function CompareComponents(catalog: Catalog, cs: seq<Component>, ls: seq<Value>, rs: seq<Value>): Option<Ordering>
    requires |cs| == |ls| == |rs|
  {
    if cs == [] then Some(Equal) else
    var first := CompareComponent(catalog, cs[0], ls[0], rs[0]);
    if first != Some(Equal) then first
    else CompareComponents(catalog, cs[1..], ls[1..], rs[1..])
  }

  lemma ComponentOrder(catalog: Catalog, c: Component, l: Value, r: Value)
    requires EncodeComponent(catalog, c, l).Some? && EncodeComponent(catalog, c, r).Some?
    ensures CompareComponent(catalog, c, l, r).Some?
    ensures Decides(EncodeComponent(catalog, c, l).value, EncodeComponent(catalog, c, r).value,
                    CompareComponent(catalog, c, l, r).value)
  {
    KeyOrder(catalog, c.ty, l, r, 0);
    ComplementReverses(EncodeKey(catalog, c.ty, l, 0).value, EncodeKey(catalog, c.ty, r, 0).value,
                       CompareTyped(catalog, c.ty, l, r, 0).value);
  }

  /** Index keys compare as the component tuples do, descending components reversed. */
  lemma {:induction false} TupleOrder(catalog: Catalog, cs: seq<Component>, ls: seq<Value>, rs: seq<Value>)
    requires |cs| == |ls| == |rs|
    requires EncodeComponents(catalog, cs, ls).Some? && EncodeComponents(catalog, cs, rs).Some?
    ensures CompareComponents(catalog, cs, ls, rs).Some?
    ensures Decides(EncodeComponents(catalog, cs, ls).value, EncodeComponents(catalog, cs, rs).value,
                    CompareComponents(catalog, cs, ls, rs).value)
  {
    hide EncodeKey, CompareTyped;
    if cs != [] {
      ComponentOrder(catalog, cs[0], ls[0], rs[0]);
      TupleOrder(catalog, cs[1..], ls[1..], rs[1..]);
      DecidesConcat(EncodeComponent(catalog, cs[0], ls[0]).value, EncodeComponent(catalog, cs[0], rs[0]).value,
                    CompareComponent(catalog, cs[0], ls[0], rs[0]).value,
                    EncodeComponents(catalog, cs[1..], ls[1..]).value,
                      EncodeComponents(catalog, cs[1..], rs[1..]).value,
                    CompareComponents(catalog, cs[1..], ls[1..], rs[1..]).value);
    }
  }

  lemma {:induction false} ComponentsConcat(catalog: Catalog, cs: seq<Component>, vs: seq<Value>, n: nat)
    requires |cs| == |vs| && n <= |cs|
    ensures EncodeComponents(catalog, cs, vs) ==
            Concat(EncodeComponents(catalog, cs[..n], vs[..n]), EncodeComponents(catalog, cs[n..], vs[n..]))
  {
    hide EncodeComponent;
    if n == 0 {
      assert cs[n..] == cs && vs[n..] == vs;
      ConcatEmpty(EncodeComponents(catalog, cs, vs));
    } else {
      ComponentsConcat(catalog, cs[1..], vs[1..], n - 1);
      assert cs[1..][..n-1] == cs[..n][1..] && vs[1..][..n-1] == vs[..n][1..];
      assert cs[1..][n-1..] == cs[n..] && vs[1..][n-1..] == vs[n..];
      ConcatAssoc(EncodeComponent(catalog, cs[0], vs[0]), EncodeComponents(catalog, cs[..n][1..], vs[..n][1..]),
                  EncodeComponents(catalog, cs[n..], vs[n..]));
    }
  }

  /** The whole key, built the way the buffer is filled: each component is appended
      and, when descending, complemented in place. */
  method EncodeTuple(catalog: Catalog, cs: seq<Component>, vs: seq<Value>) returns (key: Option<Key>)
    requires |cs| == |vs|
    ensures key == if 1 <= |cs| <= MAX_INDEX_COMPONENTS then EncodeComponents(catalog, cs, vs) else None
  {
    if |cs| == 0 || |cs| > MAX_INDEX_COMPONENTS { return None; }
    var output: Key := [];
    for i := 0 to |cs|
      invariant EncodeComponents(catalog, cs[..i], vs[..i]) == Some(output)
    {
      var start := |output|;
      ComponentsConcat(catalog, cs, vs, i + 1);
      ComponentsConcat(catalog, cs[..i+1], vs[..i+1], i);
      assert cs[..i+1][..i] == cs[..i] && vs[..i+1][..i] == vs[..i];
      assert cs[..i+1][i..] == [cs[i]] && vs[..i+1][i..] == [vs[i]];
      var k := EncodeKey(catalog, cs[i].ty, vs[i], 0);
      if k.None? {
        assert EncodeComponents(catalog, [cs[i]], [vs[i]]).None?;
        return None;
      }
      output := output + k.value;
      if cs[i].descending {
        output := output[..start] + Complement(output[start..]);
      }
      assert output == EncodeComponents(catalog, cs[..i], vs[..i]).value + EncodeComponent(catalog, cs[i], vs[i]).value;
      assert EncodeComponents(catalog, [cs[i]], [vs[i]]).value == EncodeComponent(catalog, cs[i], vs[i]).value;
    }
    assert cs[..|cs|] == cs && vs[..|cs|] == vs;
    return Some(output);
  }
}
