/** When a page's sort is accepted, and what that proves: no two rows of the result share
    a place in the order. */
module PageOrders {
  import opened Bytes
  import opened Model
  import opened OrderedKey
  import opened Schema
  import opened Postings
  import opened TableStore
  import opened Tables
  import opened Expressions
  import opened Planner
  import opened IndexPredicates
  import opened IndexScan
  import opened IndexAccess
  import opened OrderedScan
  import Paging

  // ---- Rows on their way to the sort ------------------------------------------------------------

  function Project(columns: seq<string>, fields: Fields): Fields {
    map c | c in columns && RowField(fields, c).Some? :: RowField(fields, c).value
  }

  /** What the stages from `i` on do to one row that survives them. `derive` gives the value
      each derive stage computes. */
  function Transform(stages: seq<Stage>, i: nat, derive: (nat, Fields) -> Value, fields: Fields): Fields
    requires i <= |stages|
    decreases |stages| - i
  {
    if i == |stages| then fields
    else match stages[i]
      case Derive(name) => Transform(stages, i + 1, derive, fields[name := derive(i, fields)])
      case Select(columns) => Transform(stages, i + 1, derive, Project(columns, fields))
      case _ => Transform(stages, i + 1, derive, fields)
  }

  function Root(path: string): string {
    var split := SplitDot(path);
    if split.Some? then split.value.0 else path
  }

  /** The primary key is the last sort key, and no stage derives a field of that name. */
  predicate PrimaryProof(t: TableSchema, before: seq<Stage>, keys: seq<SortKey>) {
    && t.primaryKey.Some? && keys != [] && keys[|keys|-1].column == t.primaryKey.value
    && forall s <- before :: s.Derive? ==> s.name != t.primaryKey.value
  }

  // ---- Following the key through the stages -----------------------------------------------------

  /** Where a field's value comes from: nowhere, the stored row, or a derive stage. */
  datatype View = Absent | Stored | Derived

  /** The field named by the whole key path, and the one named by its first segment. */
  datatype Track = Track(whole: View, root: View) {
    function Resolved(): View {
      if whole != Absent then whole else root
    }
  }

  function Follow(stages: seq<Stage>, i: nat, key: string, track: Track): Track
    requires i <= |stages|
    decreases |stages| - i
  {
    if i == |stages| then track
    else match stages[i]
      case Derive(name) => Follow(stages, i + 1, key, if name == Root(key) then track.(root := Derived) else track)
      case Select(columns) =>
        Follow(stages, i + 1, key, Track(if key in columns then track.Resolved() else Absent,
                                         if Root(key) in columns then track.root else Absent))
      case _ => Follow(stages, i + 1, key, track)
  }

  function Start(key: string): Track {
    if '.' in key then Track(Absent, Stored) else Track(Stored, Absent)
  }

  /** The page order really ends in the stored primary key. */
  predicate KeepsKey(stages: seq<Stage>, key: string) {
    Follow(stages, 0, key, Start(key)).Resolved() == Stored
  }

  predicate NeverDerives(stages: seq<Stage>, key: string) {
    forall s <- stages :: s.Derive? ==> s.name != key
  }

  /** A stored row: plain field names, and a value for the key. */
  predicate StoredRow(fields: Fields, key: string) {
    (forall name <- fields :: '.' !in name) && RowField(fields, key).Some?
  }

  predicate Entry(fields: Fields, name: string, v: Option<Value>) {
    if v.Some? then name in fields && fields[name] == v.value else name !in fields
  }

  lemma {:induction false} NoSplit(path: string)
    requires '.' !in path
    ensures SplitDot(path).None?
  {}

  /** A field path reads the field of its own name, or else goes through its root. */
  lemma FieldView(fields: Fields, key: string)
    ensures RowField(fields, key) ==
            if key in fields then Some(fields[key])
            else if '.' in key && Root(key) in fields then NestedField(fields[Root(key)], SplitDot(key).value.1)
            else None
    ensures '.' in key <==> SplitDot(key).Some?
    ensures '.' !in Root(key)
  {
    hide NestedField;
    if '.' !in key { NoSplit(key); }
    var split := SplitDot(key);
    if split.Some? { assert key[|split.value.0|] == '.'; }
  }

  lemma RootField(fields: Fields, key: string)
    ensures RowField(fields, Root(key)) == if Root(key) in fields then Some(fields[Root(key)]) else None
  {
    hide NestedField;
    FieldView(fields, key);
    FieldView(fields, Root(key));
  }

  /** What a row's fields are while the key is followed from a stored row `from`. */
  ghost predicate Tracks(fields: Fields, from: Fields, key: string, track: Track) {
    && (track.whole == Stored ==> Entry(fields, key, RowField(from, key)))
    && (track.whole == Absent ==> key !in fields)
    && ('.' in key && track.root == Stored ==> Root(key) in from && Entry(fields, Root(key), Some(from[Root(key)])))
    && ('.' in key && track.root == Absent ==> Root(key) !in fields)
    && ('.' !in key ==> track.root == Absent)
  }

  lemma TrackedField(fields: Fields, from: Fields, key: string, track: Track)
    requires Tracks(fields, from, key, track) && StoredRow(from, key) && track.Resolved() == Stored
    ensures RowField(fields, key) == RowField(from, key)
  {
    hide NestedField;
    FieldView(fields, key);
    FieldView(from, key);
  }

  lemma {:induction false} KeptKey(
    stages: seq<Stage>, i: nat, derive: (nat, Fields) -> Value, fields: Fields, from: Fields, key: string, track: Track)
    requires i <= |stages| && NeverDerives(stages, key) && StoredRow(from, key) && Tracks(fields, from, key, track)
    requires Follow(stages, i, key, track).Resolved() == Stored
    ensures RowField(Transform(stages, i, derive, fields), key) == RowField(from, key)
    decreases |stages| - i
  {
    hide NestedField, RowField, SplitDot;
    if i == |stages| {
      TrackedField(fields, from, key, track);
    } else {
      match stages[i]
      case Derive(name) =>
        assert stages[i] in stages;
        FieldView(from, key);
        NameNotKey(key, name);
        KeptKey(stages, i + 1, derive, fields[name := derive(i, fields)], from, key,
                if name == Root(key) then track.(root := Derived) else track);
      case Select(columns) =>
        var track' := Track(if key in columns then track.Resolved() else Absent,
                            if Root(key) in columns then track.root else Absent);
        ProjectTracks(columns, fields, from, key, track);
        KeptKey(stages, i + 1, derive, Project(columns, fields), from, key, track');
      case _ => KeptKey(stages, i + 1, derive, fields, from, key, track);
    }
  }

  lemma NameNotKey(key: string, name: string)
    ensures '.' !in key ==> Root(key) == key
  {
    FieldView(map[], key);
  }

  lemma ProjectTracks(columns: seq<string>, fields: Fields, from: Fields, key: string, track: Track)
    requires StoredRow(from, key) && Tracks(fields, from, key, track)
    ensures Tracks(Project(columns, fields), from, key,
                   Track(if key in columns then track.Resolved() else Absent,
                         if Root(key) in columns then track.root else Absent))
  {
    hide NestedField, SplitDot;
    FieldView(fields, key);
    RootField(fields, key);
    NameNotKey(key, key);
    if track.Resolved() == Stored { TrackedField(fields, from, key, track); }
  }

  // ---- A derived key cannot separate rows -------------------------------------------------------

  ghost predicate SameEntry(x: Fields, y: Fields, name: string) {
    (name in x <==> name in y) && (name in x ==> x[name] == y[name])
  }

  function Constant(c: Value): (nat, Fields) -> Value {
    (n, f) => c
  }

  /** Two rows under derive stages that ignore their row: whatever no longer comes from
      the stored row is the same in both. */
  ghost predicate Twins(x: Fields, y: Fields, key: string, track: Track) {
    && (track.whole != Stored ==> SameEntry(x, y, key))
    && ('.' in key && track.root != Stored ==> SameEntry(x, y, Root(key)))
    && (track.whole == Derived ==> track.root != Stored)
    && (track.whole == Absent ==> key !in x && key !in y)
    && ('.' in key && track.root == Absent ==> Root(key) !in x && Root(key) !in y)
    && ('.' !in key ==> track.root == Absent)
  }

  lemma TwinField(x: Fields, y: Fields, key: string, track: Track)
    requires Twins(x, y, key, track) && track.Resolved() != Stored
    ensures RowField(x, key) == RowField(y, key)
  {
    hide NestedField;
    FieldView(x, key);
    FieldView(y, key);
  }

  lemma {:induction false} TwinKeys(
    stages: seq<Stage>, i: nat, c: Value, x: Fields, y: Fields, key: string, track: Track)
    requires i <= |stages| && NeverDerives(stages, key) && Twins(x, y, key, track)
    requires Follow(stages, i, key, track).Resolved() != Stored
    ensures RowField(Transform(stages, i, Constant(c), x), key) == RowField(Transform(stages, i, Constant(c), y), key)
    decreases |stages| - i
  {
    hide NestedField, RowField, SplitDot;
    if i == |stages| {
      TwinField(x, y, key, track);
    } else {
      match stages[i]
      case Derive(name) =>
        assert stages[i] in stages;
        NameNotKey(key, name);
        TwinKeys(stages, i + 1, c, x[name := c], y[name := c], key,
                 if name == Root(key) then track.(root := Derived) else track);
      case Select(columns) =>
        var track' := Track(if key in columns then track.Resolved() else Absent,
                            if Root(key) in columns then track.root else Absent);
        ProjectTwins(columns, x, y, key, track);
        TwinKeys(stages, i + 1, c, Project(columns, x), Project(columns, y), key, track');
      case _ => TwinKeys(stages, i + 1, c, x, y, key, track);
    }
  }

  lemma ProjectTwins(columns: seq<string>, x: Fields, y: Fields, key: string, track: Track)
    requires Twins(x, y, key, track)
    ensures Twins(Project(columns, x), Project(columns, y), key,
                  Track(if key in columns then track.Resolved() else Absent,
                        if Root(key) in columns then track.root else Absent))
  {
    hide NestedField, SplitDot;
    FieldView(x, key);
    FieldView(y, key);
    RootField(x, key);
    RootField(y, key);
    NameNotKey(key, key);
    if track.Resolved() != Stored { TwinField(x, y, key, track); }
  }

  /** The key survives the stages for every derivation, or some derivation makes every two
      stored rows agree on it: `KeepsKey` is the exact condition. */
  lemma KeepsKeyExact(stages: seq<Stage>, key: string)
    requires NeverDerives(stages, key)
    ensures KeepsKey(stages, key) ==>
              forall derive: (nat, Fields) -> Value, x :: StoredRow(x, key) ==>
                RowField(Transform(stages, 0, derive, x), key) == RowField(x, key)
    ensures !KeepsKey(stages, key) ==>
              forall c, x, y :: StoredRow(x, key) && StoredRow(y, key) ==>
                RowField(Transform(stages, 0, Constant(c), x), key) ==
                  RowField(Transform(stages, 0, Constant(c), y), key)
  {
    hide NestedField, Transform, Follow, SplitDot;
    if KeepsKey(stages, key) {
      forall derive: (nat, Fields) -> Value, x | StoredRow(x, key)
        ensures RowField(Transform(stages, 0, derive, x), key) == RowField(x, key)
      {
        StartTracks(x, key);
        KeptKey(stages, 0, derive, x, x, key, Start(key));
      }
    } else {
      forall c, x, y | StoredRow(x, key) && StoredRow(y, key)
        ensures RowField(Transform(stages, 0, Constant(c), x), key) ==
                RowField(Transform(stages, 0, Constant(c), y), key)
      {
        StartTwins(x, y, key);
        TwinKeys(stages, 0, c, x, y, key, Start(key));
      }
    }
  }

  lemma StartTracks(x: Fields, key: string)
    requires StoredRow(x, key)
    ensures Tracks(x, x, key, Start(key))
  {
    hide NestedField, SplitDot;
    FieldView(x, key);
  }

  lemma StartTwins(x: Fields, y: Fields, key: string)
    requires StoredRow(x, key) && StoredRow(y, key)
    ensures Twins(x, y, key, Start(key))
  {
    hide NestedField, SplitDot;
    FieldView(x, key);
    FieldView(y, key);
    NameNotKey(key, key);
  }

  // ---- Strict orders ----------------------------------------------------------------------------

  function Comps(order: seq<Paging.OrderKey>): (r: seq<Component>)
    ensures |r| == |order|
    ensures forall i :: 0 <= i < |order| ==> r[i] == Component(order[i].ty, order[i].descending)
  {
    if order == [] then [] else [Component(order[0].ty, order[0].descending)] + Comps(order[1..])
  }

  /** Comparing with a row's cursor is comparing the two rows' sort tuples. */
  lemma {:induction false} CursorCompare(catalog: Catalog, order: seq<Paging.OrderKey>, x: Fields, y: Fields)
    requires Paging.Cursor(order, x).Some? && Paging.Cursor(order, y).Some?
    ensures |Paging.Cursor(order, x).value| == |Paging.Cursor(order, y).value| == |order|
    ensures Paging.CompareBoundary(catalog, order, x, Paging.Cursor(order, y).value) ==
            CompareComponents(catalog, Comps(order), Paging.Cursor(order, x).value, Paging.Cursor(order, y).value)
  {
    hide CompareComponent, RowField;
    if order != [] {
      CursorCompare(catalog, order[1..], x, y);
      var cx, cy := Paging.Cursor(order, x).value, Paging.Cursor(order, y).value;
      assert cx[1..] == Paging.Cursor(order[1..], x).value && cy[1..] == Paging.Cursor(order[1..], y).value;
      assert Comps(order)[1..] == Comps(order[1..]);
    }
  }

  /** A sorted result in which no two rows tie is strictly ordered, as paging needs. */
  lemma SortedIsStrict(catalog: Catalog, order: seq<Paging.OrderKey>, rows: seq<Fields>)
    requires forall r <- rows :: Paging.Cursor(order, r).Some?
    requires forall r <- rows ::
               |Paging.Cursor(order, r).value| == |order|
                 && EncodeComponents(catalog, Comps(order), Paging.Cursor(order, r).value).Some?
    requires forall i, j :: 0 <= i < j < |rows| ==>
      Paging.CompareBoundary(catalog, order, rows[i], Paging.Cursor(order, rows[j]).value) == Some(Less)
    ensures Paging.Strict(catalog, order, rows)
  {
    hide Paging.Cursor, Paging.CompareBoundary, EncodeComponents, CompareComponents, Comps, Compare;
    forall i, j | 0 <= i < |rows| && 0 <= j < |rows|
      ensures Paging.CompareBoundary(catalog, order, rows[i], Paging.Cursor(order, rows[j]).value) ==
              Some(CompareInt(i, j))
    {
      assert rows[i] in rows && rows[j] in rows;
      BothWays(catalog, order, rows[i], rows[j]);
      if j < i { BothWays(catalog, order, rows[j], rows[i]); }
    }
  }

  lemma BothWays(catalog: Catalog, order: seq<Paging.OrderKey>, x: Fields, y: Fields)
    requires Paging.Cursor(order, x).Some? && Paging.Cursor(order, y).Some?
    requires |Paging.Cursor(order, x).value| == |Paging.Cursor(order, y).value| == |order|
    requires EncodeComponents(catalog, Comps(order), Paging.Cursor(order, x).value).Some?
    requires EncodeComponents(catalog, Comps(order), Paging.Cursor(order, y).value).Some?
    ensures var o, p := Paging.CompareBoundary(catalog, order, x, Paging.Cursor(order, y).value),
                        Paging.CompareBoundary(catalog, order, y, Paging.Cursor(order, x).value);
            o.Some? && p.Some? && p.value == o.value.Reverse() && (x == y ==> o.value == Equal)
  {
    hide Paging.Cursor, Paging.CompareBoundary, EncodeComponents, CompareComponents, Comps, Compare;
    var cx, cy := Paging.Cursor(order, x).value, Paging.Cursor(order, y).value;
    CursorCompare(catalog, order, x, y);
    CursorCompare(catalog, order, y, x);
    TupleOrder(catalog, Comps(order), cx, cy);
    TupleOrder(catalog, Comps(order), cy, cx);
    var ex, ey := EncodeComponents(catalog, Comps(order), cx).value, EncodeComponents(catalog, Comps(order), cy).value;
    DecidesIsCompare(ex, ey, CompareComponents(catalog, Comps(order), cx, cy).value);
    DecidesIsCompare(ey, ex, CompareComponents(catalog, Comps(order), cy, cx).value);
    CompareReverse(ex, ey);
  }

  // ---- Ending in the primary key ----------------------------------------------------------------

  lemma {:induction false} LastDecides(catalog: Catalog, order: seq<Paging.OrderKey>, x: Fields, y: Fields)
    requires order != [] && Paging.Cursor(order, x).Some? && Paging.Cursor(order, y).Some?
    requires Paging.CompareBoundary(catalog, order, x, Paging.Cursor(order, y).value) == Some(Equal)
    ensures var last := order[|order|-1];
            var l, r := RowField(x, last.column), RowField(y, last.column);
            l.Some? && r.Some? && CompareTyped(catalog, last.ty, l.value, r.value, 0) == Some(Equal)
  {
    hide CompareTyped, RowField;
    var cy := Paging.Cursor(order, y).value;
    if |order| > 1 {
      assert cy[1..] == Paging.Cursor(order[1..], y).value;
      LastDecides(catalog, order[1..], x, y);
    }
  }

  lemma PrimaryFiled(t: TableSchema, rm: RowMap, id: RowId, ty: ScalarType)
    requires t.primaryKey.Some? && FieldType(t.catalog, t.columns, t.primaryKey.value) == Some(ty)
    requires id in rm && !Unfileable(t, PrimaryDefinition(t.primaryKey.value), rm[id])
    ensures var f, v := FilingOf(t, PrimaryDefinition(t.primaryKey.value), rm), RowField(rm[id], t.primaryKey.value);
            v.Some? && Encodes(t.catalog, ty, v.value) && id in f && f[id] == KeyOf(t.catalog, ty, v.value)
  {
    hide FieldType, RowField, EncodeKey, FilingOf, BoundComponents, ComponentValues, Oversized;
    var d := PrimaryDefinition(t.primaryKey.value);
    assert FiledKey(t, d, rm[id]).Some?;
    var comps, vs := FiledTyped(t, d, rm[id]);
    FilingAt(t, d, rm, id);
    assert EncodeComponents(t.catalog, comps[1..], vs[1..]) == Some([]);
    ConcatNothing(EncodeComponent(t.catalog, comps[0], vs[0]));
  }

  /** An accepted order that ends in the primary key separates every two rows, provided
      the key is kept on the way to the sort. */
  lemma {:induction false} PrimaryOrderStrict(
    t: TableSchema, ds: seq<IndexDefinition>, rm: RowMap, before: seq<Stage>, keys: seq<SortKey>,
    order: seq<Paging.OrderKey>, derive: (nat, Fields) -> Value, a: RowId, b: RowId)
    requires PrimaryProof(t, before, keys) && KeepsKey(before, t.primaryKey.value)
    requires PrimaryIndexed(t, ds) && AllFileable(t, ds, rm) && NoDuplicates(t, ds, rm)
    requires a in rm && b in rm && a != b && StoredRow(rm[a], t.primaryKey.value)
             && StoredRow(rm[b], t.primaryKey.value)
    requires |order| == |keys| && order[|order|-1].column == t.primaryKey.value
    requires FieldType(t.catalog, t.columns, t.primaryKey.value) == Some(order[|order|-1].ty)
    ensures var x, y := Transform(before, 0, derive, rm[a]), Transform(before, 0, derive, rm[b]);
            Paging.Cursor(order, x).Some? && Paging.Cursor(order, y).Some? ==>
            Paging.CompareBoundary(t.catalog, order, x, Paging.Cursor(order, y).value) != Some(Equal)
  {
    hide FieldType, RowField, Transform, Unfileable, FilingOf, StoredRow, Paging.Cursor, Paging.CompareBoundary,
      CompareTyped, EncodeKey, Follow, Compare;
    var pk, ty := t.primaryKey.value, order[|order|-1].ty;
    var x, y := Transform(before, 0, derive, rm[a]), Transform(before, 0, derive, rm[b]);
    StartTracks(rm[a], pk);
    KeptKey(before, 0, derive, rm[a], rm[a], pk, Start(pk));
    StartTracks(rm[b], pk);
    KeptKey(before, 0, derive, rm[b], rm[b], pk, Start(pk));
    PrimaryFiled(t, rm, a, ty);
    PrimaryFiled(t, rm, b, ty);
    var va, vb := RowField(rm[a], pk).value, RowField(rm[b], pk).value;
    TypedIsBytes(t.catalog, ty, va, vb);
    CompareReverse(KeyOf(t.catalog, ty, va), KeyOf(t.catalog, ty, vb));
    assert MustBeUnique(t, PrimaryDefinition(pk));
    if Paging.Cursor(order, x).Some? && Paging.Cursor(order, y).Some?
       && Paging.CompareBoundary(t.catalog, order, x, Paging.Cursor(order, y).value) == Some(Equal) {
      LastDecides(t.catalog, order, x, y);
      assert false;
    }
  }

  /** Where the key is not kept, it decides nothing: some derivation makes every two rows
      compare as the rest of the accepted order alone compares them. With no other sort key
      they all tie, whatever their stored keys. */
  lemma {:induction false} LostKeyTies(
    t: TableSchema, before: seq<Stage>, keys: seq<SortKey>, order: seq<Paging.OrderKey>, c: Value, x: Fields, y: Fields)
    requires PrimaryProof(t, before, keys) && !KeepsKey(before, t.primaryKey.value)
    requires StoredRow(x, t.primaryKey.value) && StoredRow(y, t.primaryKey.value)
    requires |order| == |keys| && order[|order|-1].column == t.primaryKey.value
    requires var u, v := Transform(before, 0, Constant(c), x), Transform(before, 0, Constant(c), y);
             && Paging.Cursor(order, u).Some? && Paging.Cursor(order, v).Some?
             && |Paging.Cursor(order, v).value| == |order|
             && Encodes(t.catalog, order[|order|-1].ty, Paging.Cursor(order, v).value[|order|-1])
    ensures var u, v := Transform(before, 0, Constant(c), x), Transform(before, 0, Constant(c), y);
            var front := order[..|order|-1];
            && Paging.Cursor(front, v).Some?
            && Paging.CompareBoundary(t.catalog, order, u, Paging.Cursor(order, v).value) ==
               Paging.CompareBoundary(t.catalog, front, u, Paging.Cursor(front, v).value)
            && (|order| == 1 ==>
                Paging.CompareBoundary(t.catalog, order, u, Paging.Cursor(order, v).value) == Some(Equal))
  {
    hide Transform, StoredRow, KeepsKey, RowField, Encodes, Paging.Cursor, Paging.CompareBoundary;
    var key := t.primaryKey.value;
    var u, v := Transform(before, 0, Constant(c), x), Transform(before, 0, Constant(c), y);
    KeepsKeyExact(before, key);
    assert RowField(u, key) == RowField(v, key);
    LastIsIdle(t.catalog, order, u, v);
    assert |order| == 1 ==>
           Paging.CompareBoundary(t.catalog, order[..0], u, Paging.Cursor(order[..0], v).value) == Some(Equal) by {
      NoKeys(t.catalog, u, v);
    }
  }

  lemma NoKeys(catalog: Catalog, u: Fields, v: Fields)
    ensures Paging.Cursor([], v).Some?
            && Paging.CompareBoundary(catalog, [], u, Paging.Cursor([], v).value) == Some(Equal)
  {}

  /** A last key on which both rows agree decides nothing. */
  lemma {:induction false} LastIsIdle(catalog: Catalog, order: seq<Paging.OrderKey>, u: Fields, v: Fields)
    requires order != [] && Paging.Cursor(order, u).Some? && Paging.Cursor(order, v).Some?
    requires RowField(u, order[|order|-1].column) == RowField(v, order[|order|-1].column)
    requires |Paging.Cursor(order, v).value| == |order|
    requires Encodes(catalog, order[|order|-1].ty, Paging.Cursor(order, v).value[|order|-1])
    ensures var front := order[..|order|-1];
            && Paging.Cursor(front, v).Some?
            && Paging.CompareBoundary(catalog, order, u, Paging.Cursor(order, v).value) ==
               Paging.CompareBoundary(catalog, front, u, Paging.Cursor(front, v).value)
  {
    hide RowField, CompareComponent, Encodes;
    var n, cursor := |order| - 1, Paging.Cursor(order, v).value;
    var front := order[..n];
    if n == 0 {
      SameIsEqual(catalog, order[0].ty, order[0].descending, cursor[0]);
      assert Paging.CompareBoundary(catalog, order[1..], u, cursor[1..]) == Some(Equal);
    } else {
      assert cursor[1..] == Paging.Cursor(order[1..], v).value;
      LastIsIdle(catalog, order[1..], u, v);
      assert order[1..][..n-1] == front[1..];
      assert Paging.Cursor(front, v).value[1..] == Paging.Cursor(front[1..], v).value;
    }
  }

  lemma SameIsEqual(catalog: Catalog, ty: ScalarType, descending: bool, v: Value)
    requires Encodes(catalog, ty, v)
    ensures CompareComponent(catalog, Component(ty, descending), v, v) == Some(Equal)
  {
    hide EncodeKey, CompareTyped;
    TypedIsBytes(catalog, ty, v, v);
    CompareReverse(KeyOf(catalog, ty, v), KeyOf(catalog, ty, v));
  }

  const META_ID: string := "meta" + "." + "id"

  /** The acceptance test alone is not enough: with the key `meta.id` and a derived field
      `meta`, an order that compares every two rows equal is accepted. */
  lemma DerivedRootAccepted(t: TableSchema, x: Fields, y: Fields)
    requires t.primaryKey == Some(META_ID)
    ensures var before, keys := [Derive("meta")], [SortKey(META_ID, false)];
            var derive := Constant(Record(map["id" := Int(0)]));
            var order := [Paging.OrderKey(META_ID, false, TInt)];
            var u, v := Transform(before, 0, derive, x), Transform(before, 0, derive, y);
            && PrimaryProof(t, before, keys) && !KeepsKey(before, META_ID)
            && (META_ID !in x && META_ID !in y ==>
                Paging.Cursor(order, v).Some?
                  && Paging.CompareBoundary(t.catalog, order, u, Paging.Cursor(order, v).value) == Some(Equal))
  {
    hide RowField, NestedField, SplitDot;
    var key, before, c := META_ID, [Derive("meta")], Record(map["id" := Int(0)]);
    MetaSplit();
    assert Start(key) == Track(Absent, Stored);
    assert Follow(before, 1, key, Track(Absent, Derived)) == Track(Absent, Derived);
    var u, v := x["meta" := c], y["meta" := c];
    assert Transform(before, 1, Constant(c), u) == u && Transform(before, 1, Constant(c), v) == v;
    if key !in x && key !in y {
      MetaField(u, c);
      MetaField(v, c);
      OneKey(t.catalog, key, u, v);
    }
  }

  lemma MetaField(u: Fields, c: Value)
    requires c == Record(map["id" := Int(0)]) && META_ID !in u && "meta" in u && u["meta"] == c
    ensures RowField(u, META_ID) == Some(Int(0))
  {
    MetaSplit();
    assert NestedField(c, "id") == Some(Int(0));
  }

  lemma OneKey(catalog: Catalog, key: string, u: Fields, v: Fields)
    requires RowField(u, key) == Some(Int(0)) && RowField(v, key) == Some(Int(0))
    ensures var order := [Paging.OrderKey(key, false, TInt)];
            Paging.Cursor(order, v).Some?
              && Paging.CompareBoundary(catalog, order, u, Paging.Cursor(order, v).value) == Some(Equal)
  {
    hide RowField;
    var order := [Paging.OrderKey(key, false, TInt)];
    assert Paging.Cursor(order[1..], v) == Some([]);
    assert [Int(0)] + [] == [Int(0)];
    assert Paging.Cursor(order, v) == Some([Int(0)]);
  }

  lemma MetaSplit()
    ensures SplitDot(META_ID) == Some(("meta", "id")) && SplitDot("id").None?
  {
    SplitAt("meta", "id");
    NoSplit("id");
  }

  lemma {:induction false} SplitAt(head: string, tail: string)
    requires '.' !in head
    ensures SplitDot(head + "." + tail) == Some((head, tail))
  {
    var path := head + "." + tail;
    if head == [] {
      assert path[1..] == tail;
    } else {
      SplitAt(head[1..], tail);
      assert path[1..] == head[1..] + "." + tail && path[0] == head[0];
      assert head == [head[0]] + head[1..];
    }
  }

  // ---- Covering a unique index ------------------------------------------------------------------

  /** A unique index whose components are all fixed by equality or named by the sort, in
      index order and in one direction. */
  predicate UniqueIndexProof(b: Builtins, d: IndexDefinition, stages: seq<Stage>, position: nat) {
    var m := FixedCount(d.components, LeadingConstraints(stages, false));
    var sm := IndexSortMatch(stages, d.components, m);
    && d.unique && Proven(b, d, LeadingFilters(stages))
    && sm.Some? && sm.value.position == position && position < |stages| && stages[position].Sort?
    && |Visible(stages[position].keys, FixedColumns(d.components, m))| == |d.components| - m
  }

  /** Rows that pass the filters agree on every component fixed by equality. */
  lemma FixedPrefix(
    b: Builtins, t: TableSchema, d: IndexDefinition, stages: seq<Stage>, comps: seq<Component>, xs: seq<Value>,
    ys: seq<Value>, x: Fields, y: Fields)
    requires BoundFilters(b, t, LeadingFilters(stages)) && FiledKey(t, d, x).Some? && FiledKey(t, d, y).Some?
    requires TypedRow(t, d.components, comps, xs, x) && TypedRow(t, d.components, comps, ys, y)
    requires Passes(b, LeadingFilters(stages), RowResolver(x)) == Some(true)
             && Passes(b, LeadingFilters(stages), RowResolver(y)) == Some(true)
    ensures SamePrefix(t.catalog, comps, FixedCount(d.components, LeadingConstraints(stages, false)), xs, ys)
  {
    hide FieldType, RowField, Encodes, CompareTyped, Passes, LeadingFilters, LeadingConstraints, BoundFilters,
      FiledKey, CompareComponents, FixedBy;
    var m := FixedCount(d.components, LeadingConstraints(stages, false));
    forall i | 0 <= i < m ensures CompareTyped(t.catalog, comps[i].ty, xs[i], ys[i], 0) == Some(Equal) {
      FixedComponent(b, t, d, stages, comps, xs, ys, x, y, i);
    }
    AllEqualComponents(t.catalog, comps[..m], xs[..m], ys[..m]);
  }

  /** An order accepted through a unique index separates every two rows that pass the
      filters. */
  lemma UniqueIndexOrderStrict(
    b: Builtins, t: TableSchema, ds: seq<IndexDefinition>, d: IndexDefinition, rm: RowMap, stages: seq<Stage>,
      position: nat, i: RowId, j: RowId)
    requires d in ds && UniqueIndexProof(b, d, stages, position) && BoundFilters(b, t, LeadingFilters(stages))
    requires AllFileable(t, ds, rm) && NoDuplicates(t, ds, rm) && i in rm && j in rm && i != j
    requires Passes(b, LeadingFilters(stages), RowResolver(rm[i])) == Some(true)
    requires Passes(b, LeadingFilters(stages), RowResolver(rm[j])) == Some(true)
    ensures var o := CompareRows(t, stages[position].keys, rm[i], rm[j]); o == Some(Less) || o == Some(Greater)
  {
    hide FieldType, RowField, Encodes, CompareTyped, Passes, LeadingFilters, LeadingConstraints, BoundFilters,
      FiledKey, FilingOf, CompareRows, CompareComponents, EncodeComponents, Compare, Proven, BoundComponents,
      Unfileable, SimpleComparison;
    var cs := d.components;
    var m := FixedCount(cs, LeadingConstraints(stages, false));
    PassingFiled(b, t, ds, d, rm, stages, i);
    PassingFiled(b, t, ds, d, rm, stages, j);
    var comps, xs := FiledTyped(t, d, rm[i]);
    var comps', ys := FiledTyped(t, d, rm[j]);
    FixedPrefix(b, t, d, stages, comps, xs, ys, rm[i], rm[j]);
    var sm := IndexSortMatch(stages, cs, m).value;
    NothingLeft(t.catalog, comps, xs, ys);
    SortIsKeyOrder(t, stages[position].keys, cs, comps, m, xs, ys, rm[i], rm[j], sm.reverse);
    CompareReverse(EncodeComponents(t.catalog, comps, xs).value, EncodeComponents(t.catalog, comps, ys).value);
    assert MustBeUnique(t, d);
    assert Injective(FilingOf(t, d, rm));
  }

  lemma PassingFiled(
    b: Builtins, t: TableSchema, ds: seq<IndexDefinition>, d: IndexDefinition, rm: RowMap, stages: seq<Stage>,
    id: RowId)
    requires d in ds && Proven(b, d, LeadingFilters(stages)) && BoundFilters(b, t, LeadingFilters(stages))
             && AllFileable(t, ds, rm) && id in rm
    requires Passes(b, LeadingFilters(stages), RowResolver(rm[id])) == Some(true)
    ensures FiledKey(t, d, rm[id]).Some? && id in FilingOf(t, d, rm)
            && FilingOf(t, d, rm)[id] == FiledKey(t, d, rm[id]).value
  {
    hide Passes, LeadingFilters, Proven, BoundFilters, FiledKey, FilingOf, Selects, PlanScan, Unfileable;
    PassingSelected(b, t, d, stages, rm[id]);
    FilingAt(t, d, rm, id);
  }

  // ---- Ties under a unique index ----------------------------------------------------------------

  /** Every component is a sort key or fixed by an equality filter. */
  predicate Pinned(cs: seq<IndexComponent>, keys: seq<SortKey>, constraints: seq<Constraint>) {
    forall i :: 0 <= i < |cs| ==> NamedBy(keys, cs[i].column) || FixedBy(constraints, cs[i].column)
  }

  /** Some unique index that holds every kept row is pinned, so no two kept rows tie. */
  predicate KeyDecides(
    b: Builtins, t: TableSchema, ds: seq<IndexDefinition>, stages: seq<Stage>, keys: seq<SortKey>) {
    exists u <- ds ::
      && MustBeUnique(t, u) && Proven(b, u, LeadingFilters(stages))
      && Pinned(u.components, keys, LeadingConstraints(stages, false))
  }

  /** Rows that tie have equal values under every sort key. */
  lemma {:induction false} TiedKey(t: TableSchema, keys: seq<SortKey>, x: Fields, y: Fields, k: SortKey)
    requires CompareRows(t, keys, x, y) == Some(Equal) && k in keys
    ensures var ty, l, r := FieldType(t.catalog, t.columns, k.column), RowField(x, k.column), RowField(y, k.column);
            && ty.Some? && l.Some? && r.Some?
            && CompareTyped(t.catalog, ty.value, l.value, r.value, 0) == Some(Equal)
  {
    hide FieldType, RowField, CompareTyped;
    if k != keys[0] { TiedKey(t, keys[1..], x, y, k); }
  }

  /** Kept rows that tie on the sort keys of a deciding order are one row. */
  lemma {:induction false} TiedSame(
    b: Builtins, t: TableSchema, ds: seq<IndexDefinition>, rm: RowMap, stages: seq<Stage>, keys: seq<SortKey>,
    i: RowId, j: RowId)
    requires KeyDecides(b, t, ds, stages, keys) && AllFileable(t, ds, rm) && NoDuplicates(t, ds, rm)
    requires BoundFilters(b, t, LeadingFilters(stages)) && i in rm && j in rm
    requires Passes(b, LeadingFilters(stages), RowResolver(rm[i])) == Some(true)
    requires Passes(b, LeadingFilters(stages), RowResolver(rm[j])) == Some(true)
    requires CompareRows(t, keys, rm[i], rm[j]) == Some(Equal)
    ensures i == j
  {
    hide FieldType, RowField, Encodes, CompareTyped, Passes, LeadingFilters, LeadingConstraints, BoundFilters,
      FiledKey, FilingOf, CompareRows, CompareComponents, EncodeComponents, Compare, Proven, BoundComponents,
      Unfileable, FixedBy, MustBeUnique, AllFileable;
    var u :| u in ds && MustBeUnique(t, u) && Proven(b, u, LeadingFilters(stages))
             && Pinned(u.components, keys, LeadingConstraints(stages, false));
    PassingFiled(b, t, ds, u, rm, stages, i);
    PassingFiled(b, t, ds, u, rm, stages, j);
    var comps, xs := FiledTyped(t, u, rm[i]);
    var comps', ys := FiledTyped(t, u, rm[j]);
    forall c | 0 <= c < |comps| ensures CompareTyped(t.catalog, comps[c].ty, xs[c], ys[c], 0) == Some(Equal) {
      if FixedBy(LeadingConstraints(stages, false), u.components[c].column) {
        FixedComponent(b, t, u, stages, comps, xs, ys, rm[i], rm[j], c);
      } else {
        var k :| k in keys && k.column == u.components[c].column;
        TiedKey(t, keys, rm[i], rm[j], k);
      }
    }
    AllEqualComponents(t.catalog, comps, xs, ys);
    SameTupleKey(t.catalog, comps, xs, ys);
    assert Injective(FilingOf(t, u, rm));
  }

  /** Equal tuples have one key. */
  lemma SameTupleKey(catalog: Catalog, comps: seq<Component>, xs: seq<Value>, ys: seq<Value>)
    requires |comps| == |xs| == |ys| && CompareComponents(catalog, comps, xs, ys) == Some(Equal)
    requires EncodeComponents(catalog, comps, xs).Some? && EncodeComponents(catalog, comps, ys).Some?
    ensures EncodeComponents(catalog, comps, xs) == EncodeComponents(catalog, comps, ys)
  {
    hide EncodeComponents, CompareComponents, Compare;
    TupleOrder(catalog, comps, xs, ys);
    DecidesIsCompare(EncodeComponents(catalog, comps, xs).value, EncodeComponents(catalog, comps, ys).value, Equal);
    CompareReverse(EncodeComponents(catalog, comps, xs).value, EncodeComponents(catalog, comps, ys).value);
  }

  // ---- Accepted pages can be walked -------------------------------------------------------------

  /** The rows of a sorted result, as the page order compares them. */
  ghost predicate SortedBy(catalog: Catalog, order: seq<Paging.OrderKey>, rows: seq<Fields>) {
    && (forall r <- rows :: Paging.Cursor(order, r).Some?)
    && (forall r <- rows ::
          |Paging.Cursor(order, r).value| == |order|
            && EncodeComponents(catalog, Comps(order), Paging.Cursor(order, r).value).Some?)
    && (forall i, j :: 0 <= i < j < |rows| ==>
          var o := Paging.CompareBoundary(catalog, order, rows[i], Paging.Cursor(order, rows[j]).value);
                   o == Some(Less) || o == Some(Equal))
  }

  /** A result sorted by an accepted order that ends in a kept primary key is strictly
      ordered, so walking its pages visits every row once. */
  lemma {:induction false} PrimaryResultStrict(
    t: TableSchema, ds: seq<IndexDefinition>, rm: RowMap, before: seq<Stage>, keys: seq<SortKey>,
    order: seq<Paging.OrderKey>, derive: (nat, Fields) -> Value, ids: seq<RowId>, rows: seq<Fields>)
    requires PrimaryProof(t, before, keys) && KeepsKey(before, t.primaryKey.value)
    requires PrimaryIndexed(t, ds) && AllFileable(t, ds, rm) && NoDuplicates(t, ds, rm)
    requires |order| == |keys| && order[|order|-1].column == t.primaryKey.value
    requires FieldType(t.catalog, t.columns, t.primaryKey.value) == Some(order[|order|-1].ty)
    requires Distinct(ids) && |rows| == |ids| && SortedBy(t.catalog, order, rows)
    requires forall i :: 0 <= i < |ids| ==> ids[i] in rm && StoredRow(rm[ids[i]], t.primaryKey.value)
    requires forall i :: 0 <= i < |ids| ==> rows[i] == Transform(before, 0, derive, rm[ids[i]])
    ensures Paging.Strict(t.catalog, order, rows)
  {
    hide FieldType, Transform, AllFileable, NoDuplicates, StoredRow, Paging.Cursor, Paging.CompareBoundary, Comps,
      EncodeComponents, KeepsKey, PrimaryProof, Paging.Strict;
    forall i, j | 0 <= i < j < |rows|
      ensures Paging.CompareBoundary(t.catalog, order, rows[i], Paging.Cursor(order, rows[j]).value) == Some(Less)
    {
      assert rows[i] in rows && rows[j] in rows;
      PrimaryOrderStrict(t, ds, rm, before, keys, order, derive, ids[i], ids[j]);
    }
    SortedIsStrict(t.catalog, order, rows);
  }

  function TypedOrder(t: TableSchema, keys: seq<SortKey>): Option<seq<Paging.OrderKey>> {
    if keys == [] then Some([]) else
    var ty, rest := FieldType(t.catalog, t.columns, keys[0].column), TypedOrder(t, keys[1..]);
    if ty.None? || rest.None? then None
    else Some([Paging.OrderKey(keys[0].column, keys[0].descending, ty.value)] + rest.value)
  }

  /** Over stored rows, the page order compares as the sort does. */
  lemma {:induction false} OrderIsSort(t: TableSchema, keys: seq<SortKey>, x: Fields, y: Fields)
    requires TypedOrder(t, keys).Some? && Paging.Cursor(TypedOrder(t, keys).value, y).Some?
    ensures var order := TypedOrder(t, keys).value;
            CompareRows(t, keys, x, y) == Paging.CompareBoundary(t.catalog, order, x, Paging.Cursor(order, y).value)
  {
    hide FieldType, RowField, CompareComponent;
    if keys != [] {
      var order := TypedOrder(t, keys).value;
      assert order[1..] == TypedOrder(t, keys[1..]).value;
      var cursor := Paging.Cursor(order, y).value;
      assert cursor[1..] == Paging.Cursor(order[1..], y).value;
      OrderIsSort(t, keys[1..], x, y);
    }
  }

  /** The same for an order accepted through a unique index. */
  lemma {:induction false} UniqueIndexResultStrict(
    b: Builtins, t: TableSchema, ds: seq<IndexDefinition>, d: IndexDefinition, rm: RowMap, stages: seq<Stage>,
      position: nat,
    order: seq<Paging.OrderKey>, ids: seq<RowId>, rows: seq<Fields>)
    requires d in ds && UniqueIndexProof(b, d, stages, position) && BoundFilters(b, t, LeadingFilters(stages))
    requires AllFileable(t, ds, rm) && NoDuplicates(t, ds, rm) && TypedOrder(t, stages[position].keys) == Some(order)
    requires Distinct(ids) && |rows| == |ids| && SortedBy(t.catalog, order, rows)
    requires forall i :: 0 <= i < |ids| ==> ids[i] in rm && rows[i] == rm[ids[i]]
    requires forall i :: 0 <= i < |ids| ==> Passes(b, LeadingFilters(stages), RowResolver(rm[ids[i]])) == Some(true)
    ensures Paging.Strict(t.catalog, order, rows)
  {
    hide AllFileable, NoDuplicates, Paging.Cursor, Paging.CompareBoundary, Comps, EncodeComponents, Paging.Strict,
      Passes, LeadingFilters, BoundFilters, CompareRows, TypedOrder;
    assert stages[position].Sort?;
    hide UniqueIndexProof;
    forall i, j | 0 <= i < j < |rows|
      ensures Paging.CompareBoundary(t.catalog, order, rows[i], Paging.Cursor(order, rows[j]).value) == Some(Less)
    {
      assert rows[i] in rows && rows[j] in rows;
      UniqueIndexOrderStrict(b, t, ds, d, rm, stages, position, ids[i], ids[j]);
      OrderIsSort(t, stages[position].keys, rows[i], rows[j]);
    }
    SortedIsStrict(t.catalog, order, rows);
  }
}
