/** The encoder that appends to a bounded buffer and the decoder that advances a
    cursor, each proved to do what the byte-string functions say. */
module CodecBuffers {
  import opened Bytes
  import opened Scalars
  import opened Model
  import opened Codec
  import opened CodecDocument

  /** Appending `e` succeeds exactly when there is something to append and it fits. */
  ghost predicate Appended(before: Bytestring, e: Option<Bytestring>, ok: bool, after: Bytestring) {
    && |after| <= MAX_VALUE_BYTES
    && (ok <==> e.Some? && |before| + |e.value| <= MAX_VALUE_BYTES)
    && (ok ==> after == before + e.value)
  }

  lemma AppendedThen(
    b0: Bytestring, e1: Option<Bytestring>, ok1: bool, b1: Bytestring, e2: Option<Bytestring>, ok2: bool,
    b2: Bytestring)
    requires Appended(b0, e1, ok1, b1)
    requires if ok1 then Appended(b1, e2, ok2, b2) else !ok2 && b2 == b1
    ensures Appended(b0, Concat(e1, e2), ok2, b2)
  {
    if ok2 { Regroup(b0, e1.value, e2.value); }
  }

  class Encoder {
    const catalog: Catalog
    const version: nat
    var bytes: Bytestring

    constructor (catalog: Catalog, version: nat)
      ensures this.catalog == catalog && this.version == version && bytes == []
    {
      this.catalog, this.version, bytes := catalog, version, [];
    }

    method Append(s: Bytestring) returns (ok: bool)
      requires |bytes| <= MAX_VALUE_BYTES
      modifies this
      ensures Appended(old(bytes), Some(s), ok, bytes)
    {
      if |bytes| + |s| > MAX_VALUE_BYTES { return false; }
      bytes := bytes + s;
      return true;
    }

    method AppendLength(n: nat) returns (ok: bool)
      requires |bytes| <= MAX_VALUE_BYTES
      modifies this
      ensures Appended(old(bytes), Length(n), ok, bytes)
    {
      if n >= U32_LIMIT { return false; }
      ok := Append(BigEndian(n, 4));
    }

    method AppendSized(s: Bytestring) returns (ok: bool)
      requires |bytes| <= MAX_VALUE_BYTES
      modifies this
      ensures Appended(old(bytes), Sized(s), ok, bytes)
    {
      hide Length;
      ghost var b0 := bytes;
      ok := AppendLength(|s|);
      ghost var ok1, b1 := ok, bytes;
      if ok { ok := Append(s); }
      AppendedThen(b0, Length(|s|), ok1, b1, Some(s), ok, bytes);
    }

    method Value(ty: ScalarType, v: Value, depth: nat) returns (ok: bool)
      requires |bytes| <= MAX_VALUE_BYTES
      modifies this
      ensures Appended(old(bytes), Encode(catalog, ty, v, version, depth), ok, bytes)
      decreases MAX_DEPTH - depth, 0, 0
    {
      if depth >= MAX_DEPTH { return false; }
      if ty.TRecord? || ty.TTuple? || ty.TList? || ty.TMap? || ty.TEnum? {
        ok := Composite(ty, v, depth);
      } else if ty.TRef? || ty.TOption? {
        ok := Wrapped(ty, v, depth);
      } else {
        ok := Scalar(ty, v, depth);
      }
    }

    method Scalar(ty: ScalarType, v: Value, depth: nat) returns (ok: bool)
      requires |bytes| <= MAX_VALUE_BYTES && depth < MAX_DEPTH && (IsScalar(ty) || ty.TNamed?)
      modifies this
      ensures Appended(old(bytes), Encode(catalog, ty, v, version, depth), ok, bytes)
    {
      hide EncodeScalar, Sized;
      if ty.TNamed? {
        ok := false;
      } else if ty.TText? && v.Text? {
        ok := AppendSized(v.text);
        assert EncodeScalar(ty, v) == Sized(v.text) by { SizedScalar(ty, v); }
      } else if ty.TBytes? && v.Bytes? {
        ok := AppendSized(v.blob);
        assert EncodeScalar(ty, v) == Sized(v.blob) by { SizedScalar(ty, v); }
      } else {
        var word := EncodeScalar(ty, v);
        ok := false;
        if word.Some? { ok := Append(word.value); }
      }
    }

    method Wrapped(ty: ScalarType, v: Value, depth: nat) returns (ok: bool)
      requires |bytes| <= MAX_VALUE_BYTES && depth < MAX_DEPTH && (ty.TRef? || ty.TOption?)
      modifies this
      ensures Appended(old(bytes), Encode(catalog, ty, v, version, depth), ok, bytes)
      decreases MAX_DEPTH - depth - 1, 3, 0
    {
      hide BigEndian;
      var tag: Bytestring;
      var inner: ScalarType;
      var nested: Value;
      if ty.TRef? {
        if !v.Named? || v.typeId != ty.typeId { return false; }
        if ty.typeId !in catalog { return false; }
        tag, inner, nested := BigEndian(ty.typeId, 8), catalog[ty.typeId], v.value;
      } else if !v.Opt? {
        return false;
      } else if v.opt.None? {
        ok := Append([0]);
        return;
      } else {
        tag, inner, nested := [1], ty.inner, v.opt.value;
      }
      ghost var b0 := bytes;
      ok := Append(tag);
      ghost var ok1, b1 := ok, bytes;
      if ok { ok := Value(inner, nested, depth + 1); }
      AppendedThen(b0, Some(tag), ok1, b1, Encode(catalog, inner, nested, version, depth + 1), ok, bytes);
    }

    method Composite(ty: ScalarType, v: Value, depth: nat) returns (ok: bool)
      requires |bytes| <= MAX_VALUE_BYTES && depth < MAX_DEPTH
      requires ty.TRecord? || ty.TTuple? || ty.TList? || ty.TMap? || ty.TEnum?
      modifies this
      ensures Appended(old(bytes), Encode(catalog, ty, v, version, depth), ok, bytes)
      decreases MAX_DEPTH - depth - 1, 4, 0
    {
      hide BigEndian, Length, EncodeItems, EncodeFields, EncodeList, EncodeEntries, FindVariant, ById;
      ghost var b0 := bytes;
      ghost var ok1, b1;
      if ty.TRecord? {
        if !v.Record? { return false; }
        ok := AppendLength(|ty.columns|);
        ok1, b1 := ok, bytes;
        if ok { ok := Fields(ById(ty.columns), v.fields, depth + 1); }
        AppendedThen(b0, Length(|ty.columns|), ok1, b1,
                     EncodeFields(catalog, ById(ty.columns), v.fields, version, depth + 1), ok, bytes);
      } else if ty.TTuple? {
        if !v.Tuple? || |v.items| != |ty.items| { return false; }
        ok := AppendLength(|ty.items|);
        ok1, b1 := ok, bytes;
        if ok { ok := Items(ty.items, v.items, depth + 1); }
        AppendedThen(b0, Length(|ty.items|), ok1, b1, EncodeItems(catalog, ty.items, v.items, version, depth + 1), ok,
                     bytes);
      } else if ty.TList? {
        if !v.List? || |v.items| > MAX_COLLECTION_ITEMS { return false; }
        ok := AppendLength(|v.items|);
        ok1, b1 := ok, bytes;
        if ok { ok := Elements(ty.inner, v.items, depth + 1); }
        AppendedThen(b0, Length(|v.items|), ok1, b1, EncodeList(catalog, ty.inner, v.items, version, depth + 1), ok,
                     bytes);
      } else if ty.TMap? {
        if version < MAP_VALUE_CODEC_VERSION || !v.Map? || |v.entries| > MAX_MAP_ENTRIES { return false; }
        ok := AppendLength(|v.entries|);
        ok1, b1 := ok, bytes;
        if ok { ok := Entries(ty.inner, v.entries, depth + 1); }
        AppendedThen(b0, Length(|v.entries|), ok1, b1, EncodeEntries(catalog, ty.inner, v.entries, version, depth + 1),
                     ok, bytes);
      } else {
        ok := EnumValue(ty, v, depth);
      }
    }

    method EnumValue(ty: ScalarType, v: Value, depth: nat) returns (ok: bool)
      requires |bytes| <= MAX_VALUE_BYTES && depth < MAX_DEPTH && ty.TEnum?
      modifies this
      ensures Appended(old(bytes), Encode(catalog, ty, v, version, depth), ok, bytes)
      decreases MAX_DEPTH - depth - 1, 3, 0
    {
      hide BigEndian, Length, EncodeItems, FindVariant;
      if !v.Enum? { return false; }
      var variant := FindVariant(ty.variants, v.id);
      if variant.None? || |v.args| != |variant.value.args| { return false; }
      ghost var b0 := bytes;
      ok := Append(BigEndian(v.id, 8));
      ghost var ok1, b1 := ok, bytes;
      if ok { ok := AppendLength(|v.args|); }
      AppendedThen(b0, Some(BigEndian(v.id, 8)), ok1, b1, Length(|v.args|), ok, bytes);
      ghost var ok2, b2 := ok, bytes;
      if ok { ok := Items(variant.value.args, v.args, depth + 1); }
      AppendedThen(b0, Concat(Some(BigEndian(v.id, 8)), Length(|v.args|)), ok2, b2,
                   EncodeItems(catalog, variant.value.args, v.args, version, depth + 1), ok, bytes);
    }

    method Items(types: seq<ScalarType>, vs: seq<Value>, depth: nat) returns (ok: bool)
      requires |bytes| <= MAX_VALUE_BYTES && |types| == |vs|
      modifies this
      ensures Appended(old(bytes), EncodeItems(catalog, types, vs, version, depth), ok, bytes)
      decreases MAX_DEPTH - depth, 1, 0
    {
      hide Encode;
      ghost var total := EncodeItems(catalog, types, vs, version, depth);
      ghost var done: Option<Bytestring> := Some([]);
      var i := 0;
      ConcatEmpty(total);
      while i < |types|
        invariant 0 <= i <= |types|
        invariant Appended(old(bytes), done, true, bytes)
        invariant total == Concat(done, EncodeItems(catalog, types[i..], vs[i..], version, depth))
      {
        ghost var b, tail := bytes, EncodeItems(catalog, types[i..][1..], vs[i..][1..], version, depth);
        ghost var e := Encode(catalog, types[i], vs[i], version, depth);
        ok := Value(types[i], vs[i], depth);
        AppendedThen(old(bytes), done, true, b, e, ok, bytes);
        ConcatAssoc(done, e, tail);
        if !ok {
          TooLong(old(bytes), Concat(done, e), tail, bytes);
          return;
        }
        done := Concat(done, e);
        assert types[i..][1..] == types[i+1..] && vs[i..][1..] == vs[i+1..];
        i := i + 1;
      }
      ok := true;
      ConcatNothing(done);
    }

    method Fields(columns: seq<Column>, fields: map<string, Value>, depth: nat) returns (ok: bool)
      requires |bytes| <= MAX_VALUE_BYTES
      modifies this
      ensures Appended(old(bytes), EncodeFields(catalog, columns, fields, version, depth), ok, bytes)
      decreases MAX_DEPTH - depth, 2, 0
    {
      hide EncodeField;
      ghost var total := EncodeFields(catalog, columns, fields, version, depth);
      ghost var done: Option<Bytestring> := Some([]);
      var i := 0;
      ConcatEmpty(total);
      while i < |columns|
        invariant 0 <= i <= |columns|
        invariant Appended(old(bytes), done, true, bytes)
        invariant total == Concat(done, EncodeFields(catalog, columns[i..], fields, version, depth))
      {
        ghost var b, tail := bytes, EncodeFields(catalog, columns[i..][1..], fields, version, depth);
        ghost var e := EncodeField(catalog, columns[i], fields, version, depth);
        ok := Field(columns[i], fields, depth);
        AppendedThen(old(bytes), done, true, b, e, ok, bytes);
        ConcatAssoc(done, e, tail);
        if !ok {
          TooLong(old(bytes), Concat(done, e), tail, bytes);
          return;
        }
        done := Concat(done, e);
        assert columns[i..][1..] == columns[i+1..];
        i := i + 1;
      }
      ok := true;
      ConcatNothing(done);
    }

    method Field(c: Column, fields: map<string, Value>, depth: nat) returns (ok: bool)
      requires |bytes| <= MAX_VALUE_BYTES
      modifies this
      ensures Appended(old(bytes), EncodeField(catalog, c, fields, version, depth), ok, bytes)
      decreases MAX_DEPTH - depth, 1, 0
    {
      hide Encode, BigEndian;
      ghost var b0 := bytes;
      ok := Append(BigEndian(c.id, 8));
      ghost var ok1, b1 := ok, bytes;
      if c.name !in fields { return false; }
      if ok { ok := Value(c.ty, fields[c.name], depth); }
      AppendedThen(b0, Some(BigEndian(c.id, 8)), ok1, b1, Encode(catalog, c.ty, fields[c.name], version, depth), ok,
                   bytes);
    }

    method Elements(inner: ScalarType, vs: seq<Value>, depth: nat) returns (ok: bool)
      requires |bytes| <= MAX_VALUE_BYTES
      modifies this
      ensures Appended(old(bytes), EncodeList(catalog, inner, vs, version, depth), ok, bytes)
      decreases MAX_DEPTH - depth, 1, 0
    {
      hide Encode;
      ghost var total := EncodeList(catalog, inner, vs, version, depth);
      ghost var done: Option<Bytestring> := Some([]);
      var i := 0;
      ConcatEmpty(total);
      while i < |vs|
        invariant 0 <= i <= |vs|
        invariant Appended(old(bytes), done, true, bytes)
        invariant total == Concat(done, EncodeList(catalog, inner, vs[i..], version, depth))
      {
        ghost var b, tail := bytes, EncodeList(catalog, inner, vs[i..][1..], version, depth);
        ghost var e := Encode(catalog, inner, vs[i], version, depth);
        ok := Value(inner, vs[i], depth);
        AppendedThen(old(bytes), done, true, b, e, ok, bytes);
        ConcatAssoc(done, e, tail);
        if !ok {
          TooLong(old(bytes), Concat(done, e), tail, bytes);
          return;
        }
        done := Concat(done, e);
        assert vs[i..][1..] == vs[i+1..];
        i := i + 1;
      }
      ok := true;
      ConcatNothing(done);
    }

    method Entries(inner: ScalarType, es: seq<Entry>, depth: nat) returns (ok: bool)
      requires |bytes| <= MAX_VALUE_BYTES
      modifies this
      ensures Appended(old(bytes), EncodeEntries(catalog, inner, es, version, depth), ok, bytes)
      decreases MAX_DEPTH - depth, 2, 0
    {
      hide EncodeEntry;
      ghost var total := EncodeEntries(catalog, inner, es, version, depth);
      ghost var done: Option<Bytestring> := Some([]);
      var i := 0;
      ConcatEmpty(total);
      while i < |es|
        invariant 0 <= i <= |es|
        invariant Appended(old(bytes), done, true, bytes)
        invariant total == Concat(done, EncodeEntries(catalog, inner, es[i..], version, depth))
      {
        ghost var b, tail := bytes, EncodeEntries(catalog, inner, es[i..][1..], version, depth);
        ghost var e := EncodeEntry(catalog, inner, es[i], version, depth);
        ok := OneEntry(inner, es[i], depth);
        AppendedThen(old(bytes), done, true, b, e, ok, bytes);
        ConcatAssoc(done, e, tail);
        if !ok {
          TooLong(old(bytes), Concat(done, e), tail, bytes);
          return;
        }
        done := Concat(done, e);
        assert es[i..][1..] == es[i+1..];
        i := i + 1;
      }
      ok := true;
      ConcatNothing(done);
    }

    method OneEntry(inner: ScalarType, e: Entry, depth: nat) returns (ok: bool)
      requires |bytes| <= MAX_VALUE_BYTES
      modifies this
      ensures Appended(old(bytes), EncodeEntry(catalog, inner, e, version, depth), ok, bytes)
      decreases MAX_DEPTH - depth, 1, 0
    {
      hide Encode, Sized;
      if |e.key| > MAX_MAP_KEY_BYTES { return false; }
      ghost var b0 := bytes;
      ok := AppendSized(e.key);
      ghost var ok1, b1 := ok, bytes;
      if ok { ok := Value(inner, e.value, depth); }
      AppendedThen(b0, Sized(e.key), ok1, b1, Encode(catalog, inner, e.value, version, depth), ok, bytes);
    }
  }

  lemma SizedScalar(ty: ScalarType, v: Value)
    requires ty.TText? || ty.TBytes?
    ensures ty.TText? && v.Text? ==> EncodeScalar(ty, v) == Sized(v.text)
    ensures ty.TBytes? && v.Bytes? ==> EncodeScalar(ty, v) == Sized(v.blob)
  {}

  /** What does not fit does not fit with more after it. */
  lemma TooLong(before: Bytestring, e: Option<Bytestring>, tail: Option<Bytestring>, after: Bytestring)
    requires Appended(before, e, false, after)
    ensures Appended(before, Concat(e, tail), false, after)
  {}

  method EncodeValue(catalog: Catalog, ty: ScalarType, v: Value, version: nat) returns (r: Option<Bytestring>)
    requires VALUE_CODEC_VERSION <= version <= MAP_VALUE_CODEC_VERSION
    ensures r == EncodeDocument(catalog, ty, v, version)
  {
    hide Encode, BigEndian, VisitType;
    if !Permitted(catalog, ty, version) { return None; }
    var encoder := new Encoder(catalog, version);
    var ok := encoder.Append(MAGIC);
    ok := encoder.Append(BigEndian(version, 2));
    assert [] + MAGIC == MAGIC;
    ok := encoder.Value(ty, v, 0);
    if !ok { return None; }
    return Some(encoder.bytes);
  }

  // ---- Decoding ---------------------------------------------------------------------------------

  /** The cursor read what the specification reads: the same value, or the same failure. */
  ghost predicate Reads<T>(spec: Option<Read<T>>, got: Option<T>, rest: Bytestring) {
    if spec.None? then got.None? else got == Some(spec.value.value) && rest == spec.value.rest
  }

  class Decoder {
    const catalog: Catalog
    const bytes: Bytestring
    var pos: nat
    var version: nat

    constructor (catalog: Catalog, bytes: Bytestring)
      ensures this.catalog == catalog && this.bytes == bytes && pos == 0
    {
      this.catalog, this.bytes, pos, version := catalog, bytes, 0, 0;
    }

    function Rest(): Bytestring
      requires pos <= |bytes|
      reads this
    {
      bytes[pos..]
    }

    method TakeBytes(n: nat) returns (r: Option<Bytestring>)
      requires pos <= |bytes|
      modifies this`pos
      ensures pos <= |bytes| && Reads(Take(old(Rest()), n), r, Rest())
    {
      if pos + n > |bytes| { return None; }
      r := Some(bytes[pos..pos+n]);
      assert Rest()[..n] == bytes[pos..pos+n] && Rest()[n..] == bytes[pos+n..];
      pos := pos + n;
    }

    method TakeWord(width: nat) returns (r: Option<nat>)
      requires pos <= |bytes|
      modifies this`pos
      ensures pos <= |bytes| && Reads(Word(old(Rest()), width), r, Rest())
    {
      var b := TakeBytes(width);
      if b.None? { return None; }
      return Some(FromBigEndian(b.value));
    }

    method TakeId() returns (r: Option<U64>)
      requires pos <= |bytes|
      modifies this`pos
      ensures pos <= |bytes| && Reads(StableId(old(Rest())), r, Rest())
    {
      var b := TakeWord(8);
      if b.None? { return None; }
      Pow256Values();
      return Some(b.value);
    }

    method TakeSizedBytes() returns (r: Option<Bytestring>)
      requires pos <= |bytes|
      modifies this`pos
      ensures pos <= |bytes| && Reads(TakeSized(old(Rest())), r, Rest())
    {
      var n := TakeWord(4);
      if n.None? { return None; }
      r := TakeBytes(n.value);
    }

    method Value(ty: ScalarType, depth: nat) returns (r: Option<Value>)
      requires pos <= |bytes|
      modifies this`pos
      ensures pos <= |bytes| && Reads(Decode(catalog, ty, old(Rest()), version, depth), r, Rest())
      decreases MAX_DEPTH - depth, 0, 0
    {
      if depth >= MAX_DEPTH { return None; }
      if ty.TRef? || ty.TOption? {
        r := Wrapped(ty, depth);
      } else if ty.TRecord? || ty.TTuple? || ty.TList? || ty.TMap? {
        r := Counted(ty, depth);
      } else if ty.TEnum? {
        r := EnumValue(ty, depth);
      } else if ty.TNamed? {
        r := None;
      } else {
        r := Scalar(ty);
      }
    }

    method Scalar(ty: ScalarType) returns (r: Option<Value>)
      requires pos <= |bytes| && IsScalar(ty)
      modifies this`pos
      ensures pos <= |bytes| && Reads(DecodeScalar(ty, old(Rest())), r, Rest())
    {
      hide TakeSized, Take, Word, IsUtf8, FromScalarWord;
      if ty.TText? || ty.TBytes? {
        var s := TakeSizedBytes();
        if s.None? { return None; }
        if ty.TText? {
          if !IsUtf8(s.value) { return None; }
          return Some(Text(s.value));
        }
        if |s.value| > MAX_BYTES { return None; }
        return Some(Bytes(s.value));
      } else if ty.TUuid? {
        var s := TakeBytes(16);
        if s.None? { return None; }
        assert |s.value| == 16 by { TakeLength(old(Rest()), 16); }
        return Some(Uuid(s.value));
      } else {
        var w := TakeWord(WordWidth(ty));
        if w.None? { return None; }
        return FromScalarWord(ty, w.value);
      }
    }

    method Wrapped(ty: ScalarType, depth: nat) returns (r: Option<Value>)
      requires pos <= |bytes| && depth < MAX_DEPTH && (ty.TRef? || ty.TOption?)
      modifies this`pos
      ensures pos <= |bytes| && Reads(Decode(catalog, ty, old(Rest()), version, depth), r, Rest())
      decreases MAX_DEPTH - depth - 1, 3, 0
    {
      hide Word, StableId;
      if ty.TRef? {
        var actual := TakeId();
        if actual.None? || actual.value != ty.typeId || ty.typeId !in catalog { return None; }
        var v := Value(catalog[ty.typeId], depth + 1);
        if v.None? { return None; }
        return Some(Named(ty.typeId, v.value));
      }
      var tag := TakeWord(1);
      if tag.None? || tag.value > 1 { return None; }
      if tag.value == 0 { return Some(Opt(None)); }
      var v := Value(ty.inner, depth + 1);
      if v.None? { return None; }
      return Some(Opt(Some(v.value)));
    }

    method Counted(ty: ScalarType, depth: nat) returns (r: Option<Value>)
      requires pos <= |bytes| && depth < MAX_DEPTH && (ty.TRecord? || ty.TTuple? || ty.TList? || ty.TMap?)
      modifies this`pos
      ensures pos <= |bytes| && Reads(Decode(catalog, ty, old(Rest()), version, depth), r, Rest())
      decreases MAX_DEPTH - depth - 1, 3, 0
    {
      hide Word, DecodeFields, DecodeItems, DecodeList, DecodeEntries;
      if ty.TMap? && version < MAP_VALUE_CODEC_VERSION { return None; }
      var count := TakeWord(4);
      if count.None? { return None; }
      if ty.TRecord? {
        if count.value != |ty.columns| { return None; }
        var fields := Fields(ty.columns, depth + 1);
        if fields.None? { return None; }
        return Some(Record(fields.value));
      } else if ty.TTuple? {
        if count.value != |ty.items| { return None; }
        var items := Items(ty.items, depth + 1);
        if items.None? { return None; }
        return Some(Tuple(items.value));
      } else if ty.TList? {
        if count.value > MAX_COLLECTION_ITEMS || count.value > |bytes| - pos { return None; }
        var items := Elements(ty.inner, count.value, depth + 1);
        if items.None? { return None; }
        return Some(List(items.value));
      } else {
        if count.value > MAX_MAP_ENTRIES { return None; }
        var entries := Entries(ty.inner, count.value, depth + 1);
        if entries.None? { return None; }
        return Some(Map(entries.value));
      }
    }

    method EnumValue(ty: ScalarType, depth: nat) returns (r: Option<Value>)
      requires pos <= |bytes| && depth < MAX_DEPTH && ty.TEnum?
      modifies this`pos
      ensures pos <= |bytes| && Reads(Decode(catalog, ty, old(Rest()), version, depth), r, Rest())
      decreases MAX_DEPTH - depth - 1, 3, 0
    {
      hide Word, StableId, DecodeItems, FindVariant;
      var id := TakeId();
      if id.None? { return None; }
      var variant := FindVariant(ty.variants, id.value);
      if variant.None? { return None; }
      var count := TakeWord(4);
      if count.None? || count.value != |variant.value.args| { return None; }
      var args := Items(variant.value.args, depth + 1);
      if args.None? { return None; }
      return Some(Enum(variant.value.name, args.value, id.value));
    }

    method Items(types: seq<ScalarType>, depth: nat) returns (r: Option<seq<Value>>)
      requires pos <= |bytes|
      modifies this`pos
      ensures pos <= |bytes| && Reads(DecodeItems(catalog, types, old(Rest()), version, depth), r, Rest())
      decreases MAX_DEPTH - depth, 1, 0
    {
      hide Decode;
      ghost var total := DecodeItems(catalog, types, Rest(), version, depth);
      var done: seq<Value> := [];
      PrependedNothing(total);
      var i := 0;
      while i < |types|
        invariant 0 <= i <= |types| && pos <= |bytes|
        invariant total == Prepended(done, DecodeItems(catalog, types[i..], Rest(), version, depth))
      {
        ghost var before := Rest();
        var v := Value(types[i], depth);
        if v.None? { return None; }
        PrependedStep(done, v.value, DecodeItems(catalog, types[i..][1..], Rest(), version, depth));
        assert types[i..][1..] == types[i+1..];
        done := done + [v.value];
        i := i + 1;
      }
      assert done + [] == done;
      return Some(done);
    }

    method Elements(inner: ScalarType, count: nat, depth: nat) returns (r: Option<seq<Value>>)
      requires pos <= |bytes|
      modifies this`pos
      ensures pos <= |bytes| && Reads(DecodeList(catalog, inner, count, old(Rest()), version, depth), r, Rest())
      decreases MAX_DEPTH - depth, 1, 0
    {
      hide Decode;
      ghost var total := DecodeList(catalog, inner, count, Rest(), version, depth);
      var done: seq<Value> := [];
      PrependedNothing(total);
      for i := 0 to count
        invariant pos <= |bytes|
        invariant total == Prepended(done, DecodeList(catalog, inner, count - i, Rest(), version, depth))
      {
        var v := Value(inner, depth);
        if v.None? { return None; }
        PrependedStep(done, v.value, DecodeList(catalog, inner, count - i - 1, Rest(), version, depth));
        done := done + [v.value];
      }
      assert done + [] == done;
      return Some(done);
    }

    method Fields(columns: seq<Column>, depth: nat) returns (r: Option<map<string, Value>>)
      requires pos <= |bytes|
      modifies this`pos
      ensures pos <= |bytes|
              && Reads(DecodeFields(catalog, columns, |columns|, {}, map[], old(Rest()), version, depth), r, Rest())
      decreases MAX_DEPTH - depth, 1, 0
    {
      hide Decode, StableId, FindColumn;
      ghost var total := DecodeFields(catalog, columns, |columns|, {}, map[], Rest(), version, depth);
      var seen: set<U64>, fields: map<string, Value> := {}, map[];
      for i := 0 to |columns|
        invariant pos <= |bytes|
        invariant total == DecodeFields(catalog, columns, |columns| - i, seen, fields, Rest(), version, depth)
      {
        var id := TakeId();
        if id.None? || id.value in seen { return None; }
        var column := FindColumn(columns, id.value);
        if column.None? { return None; }
        var v := Value(column.value.ty, depth);
        if v.None? { return None; }
        seen, fields := seen + {id.value}, fields[column.value.name := v.value];
      }
      return Some(fields);
    }

    method Entries(inner: ScalarType, count: nat, depth: nat) returns (r: Option<seq<Entry>>)
      requires pos <= |bytes|
      modifies this`pos
      ensures pos <= |bytes|
              && Reads(DecodeEntries(catalog, inner, count, None, old(Rest()), version, depth), r, Rest())
      decreases MAX_DEPTH - depth, 1, 0
    {
      hide Decode, TakeSized, IsUtf8, Compare;
      ghost var total := DecodeEntries(catalog, inner, count, None, Rest(), version, depth);
      var done: seq<Entry>, previous: Option<Text> := [], None;
      PrependedNothing(total);
      for i := 0 to count
        invariant pos <= |bytes|
        invariant total == Prepended(done, DecodeEntries(catalog, inner, count - i, previous, Rest(), version, depth))
      {
        var key := TakeSizedBytes();
        if key.None? || |key.value| > MAX_MAP_KEY_BYTES || !IsUtf8(key.value) { return None; }
        if previous.Some? && !Precedes(previous.value, key.value) { return None; }
        var v := Value(inner, depth);
        if v.None? { return None; }
        var e := Entry(key.value, v.value);
        PrependedStep(done, e, DecodeEntries(catalog, inner, count - i - 1, Some(key.value), Rest(), version, depth));
        done, previous := done + [e], Some(key.value);
      }
      assert done + [] == done;
      return Some(done);
    }
  }

  ghost function Prepended<T>(done: seq<T>, r: Option<Read<seq<T>>>): Option<Read<seq<T>>> {
    if r.None? then None else Some(Read(done + r.value.value, r.value.rest))
  }

  lemma PrependedNothing<T>(r: Option<Read<seq<T>>>)
    ensures r == Prepended([], r)
  {
    if r.Some? { assert [] + r.value.value == r.value.value; }
  }

  lemma PrependedStep<T>(done: seq<T>, x: T, r: Option<Read<seq<T>>>)
    ensures Prepended(done, if r.None? then None else Some(Read([x] + r.value.value, r.value.rest))) ==
            Prepended(done + [x], r)
  {
    if r.Some? { assert done + ([x] + r.value.value) == done + [x] + r.value.value; }
  }

  lemma TakeLength(input: Bytestring, n: nat)
    ensures Take(input, n).Some? ==> |Take(input, n).value.value| == n
  {}

  method DecodeValue(catalog: Catalog, ty: ScalarType, bytes: Bytestring) returns (r: Option<Value>)
    ensures r == DecodeDocument(catalog, ty, bytes)
  {
    hide Decode, VisitType, FromBigEndian;
    if |bytes| > MAX_VALUE_BYTES { return None; }
    var decoder := new Decoder(catalog, bytes);
    var magic := decoder.TakeBytes(4);
    if magic.None? || magic.value != MAGIC { return None; }
    var version := decoder.TakeWord(2);
    if version.None? { return None; }
    assert bytes[4..][..2] == bytes[4..6] && bytes[4..][2..] == bytes[6..];
    if !Permitted(catalog, ty, version.value) { return None; }
    decoder.version := version.value;
    var v := decoder.Value(ty, 0);
    if v.None? || decoder.pos != |bytes| { return None; }
    return v;
  }
}
