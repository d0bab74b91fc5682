/** What decoding says about its input: it depends only on the bytes it consumes,
    its results are in normal form, and re-encoding a result takes the same space.
    Complete documents are therefore self-delimiting. */
module CodecCanonical {
  import opened Bytes
  import opened Scalars
  import opened Model
  import opened Codec

  // ---- More input changes nothing ---------------------------------------------------------------

  ghost function Longer<T>(r: Option<Read<T>>, more: Bytestring): Option<Read<T>> {
    if r.None? then None else Some(Read(r.value.value, r.value.rest + more))
  }

  lemma WordExtends(input: Bytestring, width: nat, more: Bytestring)
    ensures Word(input, width).Some? ==> Word(input + more, width) == Longer(Word(input, width), more)
    ensures Take(input, width).Some? ==> Take(input + more, width) == Longer(Take(input, width), more)
  {
    if width <= |input| {
      assert (input + more)[..width] == input[..width];
      assert (input + more)[width..] == input[width..] + more;
    }
  }

  lemma IdExtends(input: Bytestring, more: Bytestring)
    ensures StableId(input).Some? ==> StableId(input + more) == Longer(StableId(input), more)
  {
    WordExtends(input, 8, more);
  }

  lemma SizedExtends(input: Bytestring, more: Bytestring)
    ensures TakeSized(input).Some? ==> TakeSized(input + more) == Longer(TakeSized(input), more)
  {
    hide Word, Take;
    WordExtends(input, 4, more);
    if Word(input, 4).Some? {
      WordExtends(Word(input, 4).value.rest, Word(input, 4).value.value, more);
    }
  }

  lemma ScalarExtends(ty: ScalarType, input: Bytestring, more: Bytestring)
    requires IsScalar(ty)
    ensures DecodeScalar(ty, input).Some? ==> DecodeScalar(ty, input + more) == Longer(DecodeScalar(ty, input), more)
  {
    hide Word, Take, TakeSized, FromScalarWord, IsUtf8;
    if ty.TText? || ty.TBytes? {
      SizedExtends(input, more);
    } else {
      WordExtends(input, if ty.TUuid? then 16 else WordWidth(ty), more);
    }
  }

  lemma {:induction false} DecodeExtends(
    catalog: Catalog, ty: ScalarType, input: Bytestring, more: Bytestring, version: nat, depth: nat)
    requires Decode(catalog, ty, input, version, depth).Some?
    ensures Decode(catalog, ty, input + more, version, depth) ==
            Longer(Decode(catalog, ty, input, version, depth), more)
    decreases MAX_DEPTH - depth, 0, 0
  {
    hide Word, StableId, DecodeScalar, DecodeItems, DecodeFields, DecodeList, DecodeEntries, FindVariant;
    match ty
    case TRef(id) =>
      IdExtends(input, more);
      DecodeExtends(catalog, catalog[id], StableId(input).value.rest, more, version, depth + 1);
    case TOption(inner) =>
      WordExtends(input, 1, more);
      if Word(input, 1).value.value == 1 {
        DecodeExtends(catalog, inner, Word(input, 1).value.rest, more, version, depth + 1);
      }
    case TRecord(columns) =>
      WordExtends(input, 4, more);
      FieldsExtend(catalog, columns, |columns|, {}, map[], Word(input, 4).value.rest, more, version, depth + 1);
    case TTuple(types) =>
      WordExtends(input, 4, more);
      ItemsExtend(catalog, types, Word(input, 4).value.rest, more, version, depth + 1);
    case TList(inner) =>
      WordExtends(input, 4, more);
      ListExtends(catalog, inner, Word(input, 4).value.value, Word(input, 4).value.rest, more, version, depth + 1);
    case TMap(inner) =>
      WordExtends(input, 4, more);
      EntriesExtend(catalog, inner, Word(input, 4).value.value, None, Word(input, 4).value.rest, more, version,
                    depth + 1);
    case TEnum(variants) =>
      IdExtends(input, more);
      var rest := StableId(input).value.rest;
      WordExtends(rest, 4, more);
      ItemsExtend(catalog, FindVariant(variants, StableId(input).value.value).value.args, Word(rest, 4).value.rest,
                  more, version, depth + 1);
    case TNamed(_) =>
    case _ => ScalarExtends(ty, input, more);
  }

  lemma {:induction false} ItemsExtend(
    catalog: Catalog, types: seq<ScalarType>, input: Bytestring, more: Bytestring, version: nat, depth: nat)
    requires DecodeItems(catalog, types, input, version, depth).Some?
    ensures DecodeItems(catalog, types, input + more, version, depth) ==
            Longer(DecodeItems(catalog, types, input, version, depth), more)
    decreases MAX_DEPTH - depth, 1, |types|
  {
    hide Decode;
    if types != [] {
      DecodeExtends(catalog, types[0], input, more, version, depth);
      ItemsExtend(catalog, types[1..], Decode(catalog, types[0], input, version, depth).value.rest, more, version,
                  depth);
    }
  }

  lemma {:induction false} FieldsExtend(
    catalog: Catalog, columns: seq<Column>, count: nat, seen: set<U64>, fields: map<string, Value>,
    input: Bytestring, more: Bytestring, version: nat, depth: nat)
    requires DecodeFields(catalog, columns, count, seen, fields, input, version, depth).Some?
    ensures DecodeFields(catalog, columns, count, seen, fields, input + more, version, depth)
            == Longer(DecodeFields(catalog, columns, count, seen, fields, input, version, depth), more)
    decreases MAX_DEPTH - depth, 1, count
  {
    hide Decode, StableId, FindColumn;
    if count > 0 {
      IdExtends(input, more);
      var id := StableId(input).value;
      var c := FindColumn(columns, id.value).value;
      DecodeExtends(catalog, c.ty, id.rest, more, version, depth);
      var v := Decode(catalog, c.ty, id.rest, version, depth).value;
      FieldsExtend(catalog, columns, count - 1, seen + {c.id}, fields[c.name := v.value], v.rest, more, version, depth);
    }
  }

  lemma {:induction false} ListExtends(
    catalog: Catalog, inner: ScalarType, count: nat, input: Bytestring, more: Bytestring, version: nat, depth: nat)
    requires DecodeList(catalog, inner, count, input, version, depth).Some?
    ensures DecodeList(catalog, inner, count, input + more, version, depth) ==
            Longer(DecodeList(catalog, inner, count, input, version, depth), more)
    decreases MAX_DEPTH - depth, 1, count
  {
    hide Decode;
    if count > 0 {
      DecodeExtends(catalog, inner, input, more, version, depth);
      ListExtends(catalog, inner, count - 1, Decode(catalog, inner, input, version, depth).value.rest, more, version,
                  depth);
    }
  }

  lemma {:induction false} EntriesExtend(catalog: Catalog, inner: ScalarType, count: nat, previous: Option<Text>,
                                         input: Bytestring, more: Bytestring, version: nat, depth: nat)
    requires DecodeEntries(catalog, inner, count, previous, input, version, depth).Some?
    ensures DecodeEntries(catalog, inner, count, previous, input + more, version, depth)
            == Longer(DecodeEntries(catalog, inner, count, previous, input, version, depth), more)
    decreases MAX_DEPTH - depth, 1, count
  {
    hide Decode, TakeSized, IsUtf8, Compare;
    if count > 0 {
      SizedExtends(input, more);
      var key := TakeSized(input).value;
      DecodeExtends(catalog, inner, key.rest, more, version, depth);
      EntriesExtend(catalog, inner, count - 1, Some(key.value),
                    Decode(catalog, inner, key.rest, version, depth).value.rest, more, version, depth);
    }
  }

  // ---- Decoded values are in normal form and re-encode to the same size -------------------------

  /** `v` is a normal-form value whose encoding takes `size` bytes. */
  ghost predicate Canonical(catalog: Catalog, ty: ScalarType, v: Value, version: nat, depth: nat, size: int) {
    && WellTyped(catalog, ty, v, depth)
    && var e := Encode(catalog, ty, v, version, depth);
    && e.Some? && |e.value| == size
  }

  lemma WordConsumes(input: Bytestring, width: nat)
    ensures Word(input, width).Some? ==> |Word(input, width).value.rest| == |input| - width
    ensures StableId(input).Some? ==> |StableId(input).value.rest| == |input| - 8
  {}

  lemma SizedConsumes(input: Bytestring)
    requires TakeSized(input).Some?
    ensures Sized(TakeSized(input).value.value).Some?
    ensures |Sized(TakeSized(input).value.value).value| + |TakeSized(input).value.rest| == |input|
  {
    Pow256Values();
  }

  lemma ScalarReencodes(catalog: Catalog, ty: ScalarType, input: Bytestring, version: nat, depth: nat)
    requires IsScalar(ty) && depth < MAX_DEPTH && DecodeScalar(ty, input).Some?
    ensures var d := DecodeScalar(ty, input).value;
            Canonical(catalog, ty, d.value, version, depth, |input| - |d.rest|)
  {
    hide BigEndian, FromBigEndian, Pow10, Sized, TakeSized, IsUtf8;
    Pow256Values();
    if ty.TText? || ty.TBytes? {
      SizedConsumes(input);
    }
  }

  lemma {:induction false} Reencodes(catalog: Catalog, ty: ScalarType, input: Bytestring, version: nat, depth: nat)
    requires WellFormedCatalog(catalog) && WellFormed(ty)
    requires Decode(catalog, ty, input, version, depth).Some?
    ensures var d := Decode(catalog, ty, input, version, depth).value;
            Canonical(catalog, ty, d.value, version, depth, |input| - |d.rest|)
    decreases MAX_DEPTH - depth, 0, 0
  {
    hide Canonical, DecodeScalar, WellFormedCatalog;
    match ty
    case TRef(_) => RefReencodes(catalog, ty, input, version, depth);
    case TOption(_) => OptionReencodes(catalog, ty, input, version, depth);
    case TRecord(_) => RecordReencodes(catalog, ty, input, version, depth);
    case TTuple(_) => TupleReencodes(catalog, ty, input, version, depth);
    case TList(_) => ListReencodes(catalog, ty, input, version, depth);
    case TMap(_) => MapReencodes(catalog, ty, input, version, depth);
    case TEnum(_) => EnumReencodes(catalog, ty, input, version, depth);
    case TNamed(_) =>
    case _ => ScalarReencodes(catalog, ty, input, version, depth);
  }

  lemma {:induction false} RefReencodes(catalog: Catalog, ty: ScalarType, input: Bytestring, version: nat, depth: nat)
    requires WellFormedCatalog(catalog) && WellFormed(ty) && ty.TRef?
    requires depth < MAX_DEPTH && Decode(catalog, ty, input, version, depth).Some?
    ensures var d := Decode(catalog, ty, input, version, depth).value;
            Canonical(catalog, ty, d.value, version, depth, |input| - |d.rest|)
    decreases MAX_DEPTH - depth - 1, 2, 0
  {
    hide Decode, Canonical, StableId, WellFormed;
    RefDecoded(catalog, ty.typeId, input, version, depth);
    var rest := StableId(input).value.rest;
    assert WellFormed(catalog[ty.typeId]);
    Reencodes(catalog, catalog[ty.typeId], rest, version, depth + 1);
    var inner := Decode(catalog, catalog[ty.typeId], rest, version, depth + 1).value;
    RefCanonical(catalog, ty.typeId, inner.value, version, depth, |rest| - |inner.rest|);
  }

  lemma RefDecoded(catalog: Catalog, id: U64, input: Bytestring, version: nat, depth: nat)
    requires depth < MAX_DEPTH && Decode(catalog, TRef(id), input, version, depth).Some?
    ensures id in catalog && StableId(input).Some? && |StableId(input).value.rest| == |input| - 8
    ensures var inner := Decode(catalog, catalog[id], StableId(input).value.rest, version, depth + 1);
            && inner.Some?
            && Decode(catalog, TRef(id), input, version, depth) ==
               Some(Read(Named(id, inner.value.value), inner.value.rest))
  {
    hide StableId, Word;
    WordConsumes(input, 8);
  }

  lemma RefCanonical(catalog: Catalog, id: U64, v: Value, version: nat, depth: nat, size: int)
    requires depth < MAX_DEPTH && id in catalog && Canonical(catalog, catalog[id], v, version, depth + 1, size)
    ensures Canonical(catalog, TRef(id), Named(id, v), version, depth, size + 8)
  {
    hide BigEndian;
  }

  lemma {:induction false} OptionReencodes(
    catalog: Catalog, ty: ScalarType, input: Bytestring, version: nat, depth: nat)
    requires WellFormedCatalog(catalog) && WellFormed(ty) && ty.TOption?
    requires depth < MAX_DEPTH && Decode(catalog, ty, input, version, depth).Some?
    ensures var d := Decode(catalog, ty, input, version, depth).value;
            Canonical(catalog, ty, d.value, version, depth, |input| - |d.rest|)
    decreases MAX_DEPTH - depth - 1, 2, 0
  {
    hide Word, StableId, BigEndian, WellFormedCatalog;
    WordConsumes(input, 1);
    if Word(input, 1).value.value == 1 {
      Reencodes(catalog, ty.inner, Word(input, 1).value.rest, version, depth + 1);
    }
  }

  ghost predicate CanonicalItems(
    catalog: Catalog, types: seq<ScalarType>, vs: seq<Value>, version: nat, depth: nat, size: int) {
    && |vs| == |types|
    && (forall k :: 0 <= k < |vs| ==> WellTyped(catalog, types[k], vs[k], depth))
    && var e := EncodeItems(catalog, types, vs, version, depth);
    && e.Some? && |e.value| == size
  }

  lemma {:induction false} ItemsReencode(
    catalog: Catalog, types: seq<ScalarType>, input: Bytestring, version: nat, depth: nat)
    requires WellFormedCatalog(catalog) && forall t <- types :: WellFormed(t)
    requires DecodeItems(catalog, types, input, version, depth).Some?
    ensures var d := DecodeItems(catalog, types, input, version, depth).value;
            CanonicalItems(catalog, types, d.value, version, depth, |input| - |d.rest|)
    decreases MAX_DEPTH - depth, 1, |types|
  {
    hide Decode, Encode, WellTyped, WellFormed, WellFormedCatalog;
    if types != [] {
      var v := Decode(catalog, types[0], input, version, depth).value;
      Reencodes(catalog, types[0], input, version, depth);
      ItemsReencode(catalog, types[1..], v.rest, version, depth);
      var vs := DecodeItems(catalog, types, input, version, depth).value.value;
      assert vs[0] == v.value && vs[1..] == DecodeItems(catalog, types[1..], v.rest, version, depth).value.value;
      forall k | 0 <= k < |vs| ensures WellTyped(catalog, types[k], vs[k], depth) {
        if k > 0 { assert types[k] == types[1..][k-1] && vs[k] == vs[1..][k-1]; }
      }
    }
  }

  lemma {:induction false} TupleReencodes(catalog: Catalog, ty: ScalarType, input: Bytestring, version: nat, depth: nat)
    requires WellFormedCatalog(catalog) && WellFormed(ty) && ty.TTuple?
    requires depth < MAX_DEPTH && Decode(catalog, ty, input, version, depth).Some?
    ensures var d := Decode(catalog, ty, input, version, depth).value;
            Canonical(catalog, ty, d.value, version, depth, |input| - |d.rest|)
    decreases MAX_DEPTH - depth - 1, 3, 0
  {
    hide Word, EncodeItems, DecodeItems, BigEndian;
    Pow256Values();
    WordConsumes(input, 4);
    ItemsReencode(catalog, ty.items, Word(input, 4).value.rest, version, depth + 1);
  }

  lemma {:induction false} EnumReencodes(catalog: Catalog, ty: ScalarType, input: Bytestring, version: nat, depth: nat)
    requires WellFormedCatalog(catalog) && WellFormed(ty) && ty.TEnum?
    requires depth < MAX_DEPTH && Decode(catalog, ty, input, version, depth).Some?
    ensures var d := Decode(catalog, ty, input, version, depth).value;
            Canonical(catalog, ty, d.value, version, depth, |input| - |d.rest|)
    decreases MAX_DEPTH - depth - 1, 3, 0
  {
    hide Word, StableId, EncodeItems, DecodeItems, BigEndian, FindVariant;
    Pow256Values();
    var id := StableId(input).value;
    WordConsumes(input, 8);
    WordConsumes(id.rest, 4);
    ItemsReencode(catalog, FindVariant(ty.variants, id.value).value.args, Word(id.rest, 4).value.rest, version,
                  depth + 1);
  }

  ghost predicate CanonicalList(
    catalog: Catalog, inner: ScalarType, vs: seq<Value>, version: nat, depth: nat, size: int) {
    && (forall x <- vs :: WellTyped(catalog, inner, x, depth))
    && var e := EncodeList(catalog, inner, vs, version, depth);
    && e.Some? && |e.value| == size
  }

  lemma {:induction false} ElementsReencode(
    catalog: Catalog, inner: ScalarType, count: nat, input: Bytestring, version: nat, depth: nat)
    requires WellFormedCatalog(catalog) && WellFormed(inner)
    requires DecodeList(catalog, inner, count, input, version, depth).Some?
    ensures var d := DecodeList(catalog, inner, count, input, version, depth).value;
            CanonicalList(catalog, inner, d.value, version, depth, |input| - |d.rest|)
    decreases MAX_DEPTH - depth, 1, count
  {
    hide Decode, Encode, WellTyped, WellFormed, WellFormedCatalog;
    if count > 0 {
      var v := Decode(catalog, inner, input, version, depth).value;
      Reencodes(catalog, inner, input, version, depth);
      ElementsReencode(catalog, inner, count - 1, v.rest, version, depth);
      var vs := DecodeList(catalog, inner, count, input, version, depth).value.value;
      assert vs[0] == v.value && vs[1..] == DecodeList(catalog, inner, count - 1, v.rest, version, depth).value.value;
      HeadTail(vs);
    }
  }

  lemma {:induction false} ListReencodes(catalog: Catalog, ty: ScalarType, input: Bytestring, version: nat, depth: nat)
    requires WellFormedCatalog(catalog) && WellFormed(ty) && ty.TList?
    requires depth < MAX_DEPTH && Decode(catalog, ty, input, version, depth).Some?
    ensures var d := Decode(catalog, ty, input, version, depth).value;
            Canonical(catalog, ty, d.value, version, depth, |input| - |d.rest|)
    decreases MAX_DEPTH - depth - 1, 3, 0
  {
    hide Word, EncodeList, DecodeList, BigEndian;
    Pow256Values();
    WordConsumes(input, 4);
    ElementsReencode(catalog, ty.inner, Word(input, 4).value.value, Word(input, 4).value.rest, version, depth + 1);
  }

  ghost predicate CanonicalEntries(
    catalog: Catalog, inner: ScalarType, previous: Option<Text>, es: seq<Entry>, version: nat, depth: nat, size: int) {
    && AscendingKeys(es) && (previous.Some? ==> forall e <- es :: Precedes(previous.value, e.key))
    && (forall e <- es :: WellTyped(catalog, inner, e.value, depth))
    && var b := EncodeEntries(catalog, inner, es, version, depth);
    && b.Some? && |b.value| == size
  }

  lemma {:induction false} EntriesReencode(catalog: Catalog, inner: ScalarType, count: nat, previous: Option<Text>,
                                           input: Bytestring, version: nat, depth: nat)
    requires WellFormedCatalog(catalog) && WellFormed(inner)
    requires DecodeEntries(catalog, inner, count, previous, input, version, depth).Some?
    ensures var d := DecodeEntries(catalog, inner, count, previous, input, version, depth).value;
            CanonicalEntries(catalog, inner, previous, d.value, version, depth, |input| - |d.rest|)
    decreases MAX_DEPTH - depth, 1, count
  {
    hide Decode, Encode, WellTyped, WellFormed, WellFormedCatalog, TakeSized, Sized, IsUtf8, Compare;
    if count > 0 {
      SizedConsumes(input);
      var key := TakeSized(input).value;
      var v := Decode(catalog, inner, key.rest, version, depth).value;
      Reencodes(catalog, inner, key.rest, version, depth);
      EntriesReencode(catalog, inner, count - 1, Some(key.value), v.rest, version, depth);
      var tail := DecodeEntries(catalog, inner, count - 1, Some(key.value), v.rest, version, depth).value;
      CanonicalCons(catalog, inner, previous, Entry(key.value, v.value), tail.value, version, depth,
                    |key.rest| - |v.rest|, |v.rest| - |tail.rest|);
    }
  }

  lemma CanonicalCons(catalog: Catalog, inner: ScalarType, previous: Option<Text>, first: Entry, tail: seq<Entry>,
                      version: nat, depth: nat, size: int, tailSize: int)
    requires |first.key| <= MAX_MAP_KEY_BYTES && Sized(first.key).Some?
    requires previous.Some? ==> Precedes(previous.value, first.key)
    requires Canonical(catalog, inner, first.value, version, depth, size)
    requires CanonicalEntries(catalog, inner, Some(first.key), tail, version, depth, tailSize)
    ensures CanonicalEntries(catalog, inner, previous, [first] + tail, version, depth,
                             |Sized(first.key).value| + size + tailSize)
  {
    hide Encode, WellTyped, Sized, Compare;
    var es := [first] + tail;
    assert es[0] == first && es[1..] == tail;
    AscendingHead(previous, es);
    assert EncodeEntry(catalog, inner, first, version, depth).Some?;
  }

  lemma AscendingHead(previous: Option<Text>, es: seq<Entry>)
    requires es != [] && AscendingKeys(es[1..]) && forall e <- es[1..] :: Precedes(es[0].key, e.key)
    requires previous.Some? ==> Precedes(previous.value, es[0].key)
    ensures AscendingKeys(es)
    ensures previous.Some? ==> forall e <- es :: Precedes(previous.value, e.key)
  {
    HeadTail(es);
    forall i, j | 0 <= i < j < |es| ensures Precedes(es[i].key, es[j].key) {
      assert es[j] == es[1..][j-1];
      if i > 0 { assert es[i] == es[1..][i-1]; }
    }
    if previous.Some? {
      forall e | e in es ensures Precedes(previous.value, e.key) {
        if e != es[0] {
          CompareTransitive(previous.value, es[0].key, e.key);
        }
      }
    }
  }

  lemma {:induction false} MapReencodes(catalog: Catalog, ty: ScalarType, input: Bytestring, version: nat, depth: nat)
    requires WellFormedCatalog(catalog) && WellFormed(ty) && ty.TMap?
    requires depth < MAX_DEPTH && Decode(catalog, ty, input, version, depth).Some?
    ensures var d := Decode(catalog, ty, input, version, depth).value;
            Canonical(catalog, ty, d.value, version, depth, |input| - |d.rest|)
    decreases MAX_DEPTH - depth - 1, 3, 0
  {
    hide Word, EncodeEntries, DecodeEntries, BigEndian;
    Pow256Values();
    WordConsumes(input, 4);
    EntriesReencode(catalog, ty.inner, Word(input, 4).value.value, None, Word(input, 4).value.rest, version, depth + 1);
  }

  // ---- Records: fields may arrive in any order --------------------------------------------------

  ghost function FieldSize(catalog: Catalog, c: Column, fields: map<string, Value>, version: nat, depth: nat): nat {
    var e := EncodeField(catalog, c, fields, version, depth);
    if e.Some? then |e.value| else 0
  }

  ghost function FieldsSize(
    catalog: Catalog, columns: seq<Column>, fields: map<string, Value>, version: nat, depth: nat): nat {
    if columns == [] then 0
    else
      FieldSize(catalog, columns[0], fields, version, depth) +
      FieldsSize(catalog, columns[1..], fields, version, depth)
  }

  ghost predicate CanonicalFields(
    catalog: Catalog, columns: seq<Column>, fields: map<string, Value>, version: nat, depth: nat) {
    forall c <- columns ::
      && c.name in fields && WellTyped(catalog, c.ty, fields[c.name], depth)
      && EncodeField(catalog, c, fields, version, depth).Some?
  }

  /** The order in which the fields arrived, with the space they took. */
  lemma {:induction false} ArrivalOrder(
    catalog: Catalog, columns: seq<Column>, count: nat, seen: set<U64>, fields: map<string, Value>,
    input: Bytestring, version: nat, depth: nat) returns (order: seq<Column>)
    requires WellFormedCatalog(catalog) && WellFormed(TRecord(columns))
    requires DecodeFields(catalog, columns, count, seen, fields, input, version, depth).Some?
    ensures |order| == count && DistinctColumns(order) && forall c <- order :: c in columns && c.id !in seen
    ensures var d := DecodeFields(catalog, columns, count, seen, fields, input, version, depth).value;
            && d.value.Keys == fields.Keys + Names(order)
            && (forall name <- fields :: name !in Names(order) ==> d.value[name] == fields[name])
            && CanonicalFields(catalog, order, d.value, version, depth)
            && FieldsSize(catalog, order, d.value, version, depth) == |input| - |d.rest|
    decreases MAX_DEPTH - depth, 1, count
  {
    hide Decode, Encode, WellTyped, StableId, WellFormedCatalog, FindColumn, BigEndian;
    order := [];
    if count > 0 {
      var id := StableId(input).value;
      var c := FindColumn(columns, id.value).value;
      var v := Decode(catalog, c.ty, id.rest, version, depth).value;
      var fields' := fields[c.name := v.value];
      WordConsumes(input, 8);
      Reencodes(catalog, c.ty, id.rest, version, depth);
      var tail := ArrivalOrder(catalog, columns, count - 1, seen + {c.id}, fields', v.rest, version, depth);
      order := [c] + tail;
      var d := DecodeFields(catalog, columns, count, seen, fields, input, version, depth).value;
      forall t <- tail ensures t.name != c.name {
        if t.name == c.name { DistinctOnce(columns, t, c); }
      }
      assert c.name !in Names(tail) && c.name in fields' && d.value[c.name] == v.value;
      assert order[1..] == tail;
      ArrivalNames(c, tail);
    }
  }

  lemma ArrivalNames(c: Column, tail: seq<Column>)
    requires DistinctColumns(tail) && forall t <- tail :: t.name != c.name && t.id != c.id
    ensures DistinctColumns([c] + tail)
    ensures Names([c] + tail) == {c.name} + Names(tail)
  {
    var order := [c] + tail;
    forall i, j | 0 <= i < j < |order| ensures order[i].id != order[j].id && order[i].name != order[j].name {
      assert order[j] == tail[j-1];
      if i > 0 { assert order[i] == tail[i-1]; }
    }
  }

  lemma RemoveAt<T>(b: seq<T>, i: nat)
    requires i < |b|
    ensures multiset(b) == multiset{b[i]} + multiset(b[..i] + b[i+1..])
  {
    assert b == b[..i] + [b[i]] + b[i+1..];
  }

  lemma CancelHead<T>(a: seq<T>, b: seq<T>)
    requires a != [] && multiset(a) == multiset{a[0]} + multiset(b)
    ensures multiset(a[1..]) == multiset(b)
  {
    HeadTail(a);
    assert multiset(a) == multiset{a[0]} + multiset(a[1..]);
    forall x ensures multiset(a[1..])[x] == multiset(b)[x] {
      assert multiset(a)[x] == multiset{a[0]}[x] + multiset(b)[x];
    }
  }

  lemma {:induction false} SizeRemove(
    catalog: Catalog, columns: seq<Column>, i: nat, fields: map<string, Value>, version: nat, depth: nat)
    requires i < |columns|
    ensures FieldsSize(catalog, columns, fields, version, depth) ==
            FieldSize(catalog, columns[i], fields, version, depth) +
            FieldsSize(catalog, columns[..i] + columns[i+1..], fields, version, depth)
  {
    hide FieldSize;
    if i == 0 {
      assert columns[..0] + columns[1..] == columns[1..];
    } else {
      SizeRemove(catalog, columns[1..], i - 1, fields, version, depth);
      var shorter := columns[..i] + columns[i+1..];
      assert shorter[0] == columns[0] && shorter[1..] == columns[1..][..i-1] + columns[1..][i..];
    }
  }

  lemma {:induction false} SizePermuted(
    catalog: Catalog, a: seq<Column>, b: seq<Column>, fields: map<string, Value>, version: nat, depth: nat)
    requires multiset(a) == multiset(b)
    ensures FieldsSize(catalog, a, fields, version, depth) == FieldsSize(catalog, b, fields, version, depth)
    decreases |a|
  {
    hide FieldSize;
    if a == [] {
      assert |multiset(b)| == 0;
    } else {
      HeadTail(a);
      assert a[0] in multiset(b);
      var i: nat :| i < |b| && b[i] == a[0];
      RemoveAt(b, i);
      CancelHead(a, b[..i] + b[i+1..]);
      SizePermuted(catalog, a[1..], b[..i] + b[i+1..], fields, version, depth);
      SizeRemove(catalog, b, i, fields, version, depth);
    }
  }

  lemma OthersStay(a: seq<Column>, b: seq<Column>, i: nat)
    requires DistinctColumns(a) && DistinctColumns(b) && a != [] && i < |b| && b[i] == a[0] && forall c <- a :: c in b
    ensures DistinctColumns(a[1..]) && DistinctColumns(b[..i] + b[i+1..])
    ensures forall c <- a[1..] :: c in b[..i] + b[i+1..]
  {
    forall c <- a[1..] ensures c in b[..i] + b[i+1..] {
      var k: nat :| k < |a[1..]| && a[1..][k] == c;
      assert c == a[k+1] && c != a[0] && a[k+1] in a;
      assert c in b;
      var j: nat :| j < |b| && b[j] == c;
      assert (b[..i] + b[i+1..])[if j < i then j else j - 1] == c;
    }
  }

  /** As many distinct columns, all of them among these, are these in another order. */
  lemma {:induction false} ArrivalPermutation(a: seq<Column>, b: seq<Column>)
    requires DistinctColumns(a) && DistinctColumns(b) && |a| == |b| && forall c <- a :: c in b
    ensures multiset(a) == multiset(b)
    decreases |a|
  {
    if a == [] {
    } else {
      HeadTail(a);
      assert a[0] in b;
      var i: nat :| i < |b| && b[i] == a[0];
      var shorter := b[..i] + b[i+1..];
      RemoveAt(b, i);
      OthersStay(a, b, i);
      hide DistinctColumns;
      ArrivalPermutation(a[1..], shorter);
    }
  }

  lemma {:induction false} FieldsEncode(
    catalog: Catalog, columns: seq<Column>, fields: map<string, Value>, version: nat, depth: nat)
    requires CanonicalFields(catalog, columns, fields, version, depth)
    ensures EncodeFields(catalog, columns, fields, version, depth).Some?
    ensures |EncodeFields(catalog, columns, fields, version, depth).value| ==
            FieldsSize(catalog, columns, fields, version, depth)
  {
    hide Encode, EncodeField, WellTyped;
    if columns != [] {
      FieldsEncode(catalog, columns[1..], fields, version, depth);
    }
  }

  lemma {:induction false} RecordReencodes(
    catalog: Catalog, ty: ScalarType, input: Bytestring, version: nat, depth: nat)
    requires WellFormedCatalog(catalog) && WellFormed(ty) && ty.TRecord?
    requires depth < MAX_DEPTH && Decode(catalog, ty, input, version, depth).Some?
    ensures var d := Decode(catalog, ty, input, version, depth).value;
            Canonical(catalog, ty, d.value, version, depth, |input| - |d.rest|)
    decreases MAX_DEPTH - depth - 1, 3, 0
  {
    hide Word, EncodeFields, DecodeFields, BigEndian, ById, FieldsSize, WellFormedCatalog, FieldSize, FindColumn,
      StableId, EncodeField;
    Pow256Values();
    WordConsumes(input, 4);
    var columns, body := ty.columns, Word(input, 4).value.rest;
    var order := ArrivalOrder(catalog, columns, |columns|, {}, map[], body, version, depth + 1);
    var fields := DecodeFields(catalog, columns, |columns|, {}, map[], body, version, depth + 1).value.value;
    AllArrived(catalog, columns, order, fields, version, depth + 1);
    FieldsEncode(catalog, ById(columns), fields, version, depth + 1);
  }

  lemma AllArrived(
    catalog: Catalog, columns: seq<Column>, order: seq<Column>, fields: map<string, Value>, version: nat, depth: nat)
    requires DistinctColumns(columns) && DistinctColumns(order) && |order| == |columns|
             && forall c <- order :: c in columns
    requires CanonicalFields(catalog, order, fields, version, depth)
    ensures Names(order) == Names(columns)
    ensures CanonicalFields(catalog, columns, fields, version, depth)
    ensures CanonicalFields(catalog, ById(columns), fields, version, depth)
    ensures FieldsSize(catalog, ById(columns), fields, version, depth) ==
            FieldsSize(catalog, order, fields, version, depth)
  {
    hide ById, FieldsSize, WellTyped, EncodeField;
    ArrivalPermutation(order, columns);
    SizePermuted(catalog, order, ById(columns), fields, version, depth);
    forall c <- columns ensures c in order {
      assert c in multiset(columns);
    }
    forall c <- ById(columns) ensures c in order {
      assert c in multiset(ById(columns));
    }
  }
}
