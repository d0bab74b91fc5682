/** Union, intersect and except over typed rows, with hash buckets that may collide. */
module SetOperations {
  import opened Bytes
  import opened Scalars
  import opened Model
  import opened OrderedKey
  import opened Schema
  import opened Expressions

  datatype SetOperator = Union | Intersect | Except

  predicate EqualRows(columns: seq<string>, l: Fields, r: Fields) {
    forall c <- columns :: c in l && c in r && EqualValues(l[c], r[c])
  }

  lemma EqualRowsSymmetric(columns: seq<string>, l: Fields, r: Fields)
    requires EqualRows(columns, l, r)
    ensures EqualRows(columns, r, l)
  {
    forall c <- columns ensures EqualValues(r[c], l[c]) { EqualSymmetric(l[c], r[c]); }
  }

  lemma EqualRowsTransitive(columns: seq<string>, x: Fields, y: Fields, z: Fields)
    requires EqualRows(columns, x, y) && EqualRows(columns, y, z)
    ensures EqualRows(columns, x, z)
  {
    forall c <- columns ensures EqualValues(x[c], z[c]) { EqualTransitive(x[c], y[c], z[c]); }
  }

  // ---- The plain definitions --------------------------------------------------------------------

  ghost predicate In(columns: seq<string>, row: Fields, rows: seq<Fields>) {
    exists i :: 0 <= i < |rows| && EqualRows(columns, row, rows[i])
  }

  /** The rows with no equal row before them, of those `wanted`, in order. */
  ghost function Firsts(columns: seq<string>, rows: seq<Fields>, wanted: Fields -> bool): seq<Fields> {
    if rows == [] then []
    else
      var front, last := rows[..|rows|-1], rows[|rows|-1];
      Firsts(columns, front, wanted) + if wanted(last) && !In(columns, last, front) then [last] else []
  }

  ghost function Selected(op: SetOperator, columns: seq<string>, left: seq<Fields>, right: seq<Fields>): seq<Fields> {
    match op
    case Union => Firsts(columns, left + right, row => true)
    case Intersect => Firsts(columns, left, row => In(columns, row, right))
    case Except => Firsts(columns, left, row => !In(columns, row, right))
  }

  // ---- Buckets ----------------------------------------------------------------------------------

  type Buckets = map<nat, seq<nat>>

  predicate InBucket(buckets: Buckets, h: nat, p: nat) {
    h in buckets && p in buckets[h]
  }

  /** The buckets file every row under its hash, and nothing else. */
  ghost predicate Filed(rows: seq<Fields>, hash: Fields -> nat, buckets: Buckets) {
    && (forall h: nat, p: nat :: InBucket(buckets, h, p) ==> p < |rows| && hash(rows[p]) == h)
    && (forall p: nat :: p < |rows| ==> InBucket(buckets, hash(rows[p]), p))
  }

  /** Equal rows have equal hashes. Unequal rows may share one. */
  ghost predicate Agrees(columns: seq<string>, hash: Fields -> nat) {
    forall l, r :: EqualRows(columns, l, r) ==> hash(l) == hash(r)
  }

  function Pushed(buckets: Buckets, h: nat, p: nat): Buckets {
    buckets[h := (if h in buckets then buckets[h] else []) + [p]]
  }

  lemma FiledPush(rows: seq<Fields>, row: Fields, hash: Fields -> nat, buckets: Buckets)
    requires Filed(rows, hash, buckets)
    ensures Filed(rows + [row], hash, Pushed(buckets, hash(row), |rows|))
  {
    var all, next := rows + [row], Pushed(buckets, hash(row), |rows|);
    forall p: nat | p < |all| ensures InBucket(next, hash(all[p]), p) {
      if p < |rows| { assert InBucket(buckets, hash(rows[p]), p); }
    }
    forall h: nat, p: nat | InBucket(next, h, p) ensures p < |all| && hash(all[p]) == h {
      if p != |rows| || h != hash(row) { assert InBucket(buckets, h, p); }
    }
  }

  method RowInBuckets(
    columns: seq<string>, needle: Fields, h: nat, rows: seq<Fields>, buckets: Buckets,
    ghost hash: Fields -> nat) returns (r: bool)
    requires Filed(rows, hash, buckets) && Agrees(columns, hash) && h == hash(needle)
    ensures r <==> In(columns, needle, rows)
  {
    hide EqualRows;
    if h !in buckets { return false; }
    var positions := buckets[h];
    forall j | 0 <= j < |positions| ensures positions[j] < |rows| { assert InBucket(buckets, h, positions[j]); }
    for i := 0 to |positions|
      invariant forall j :: 0 <= j < i ==> positions[j] < |rows| && !EqualRows(columns, needle, rows[positions[j]])
    {
      if EqualRows(columns, needle, rows[positions[i]]) { return true; }
    }
    forall p: nat | p < |rows| ensures !EqualRows(columns, needle, rows[p]) {
      if hash(rows[p]) == h {
        assert InBucket(buckets, h, p);
        var j :| 0 <= j < |positions| && positions[j] == p;
      }
    }
    return false;
  }

  // ---- The operations ---------------------------------------------------------------------------

  /** Being equal to a kept row is being equal to any earlier wanted row. */
  lemma {:induction false} InFirsts(columns: seq<string>, rows: seq<Fields>, wanted: Fields -> bool, row: Fields)
    requires wanted(row) && forall l, r :: EqualRows(columns, l, r) ==> wanted(l) == wanted(r)
    ensures In(columns, row, Firsts(columns, rows, wanted)) <==> In(columns, row, rows)
  {
    hide EqualRows;
    if rows != [] {
      var front, last := rows[..|rows|-1], rows[|rows|-1];
      InFirsts(columns, front, wanted, row);
      var kept := Firsts(columns, front, wanted);
      InPush(columns, row, front, last);
      InPush(columns, row, kept, last);
      assert rows == front + [last] && kept + [] == kept;
      if EqualRows(columns, row, last) {
        EqualRowsSymmetric(columns, row, last);
        if In(columns, last, front) {
          var i :| 0 <= i < |front| && EqualRows(columns, last, front[i]);
          EqualRowsTransitive(columns, row, last, front[i]);
        }
      }
    }
  }

  lemma InPush(columns: seq<string>, row: Fields, rows: seq<Fields>, last: Fields)
    ensures In(columns, row, rows + [last]) <==> In(columns, row, rows) || EqualRows(columns, row, last)
  {
    hide EqualRows;
    var all := rows + [last];
    if EqualRows(columns, row, last) { assert all[|rows|] == last; }
    if In(columns, row, rows) {
      var i :| 0 <= i < |rows| && EqualRows(columns, row, rows[i]);
      assert all[i] == rows[i];
    }
  }

  lemma FirstsPush(columns: seq<string>, rows: seq<Fields>, wanted: Fields -> bool, i: nat)
    requires i < |rows|
    ensures Firsts(columns, rows[..i+1], wanted) ==
            Firsts(columns, rows[..i], wanted) + if wanted(rows[i])
              && !In(columns, rows[i], rows[..i]) then [rows[i]] else []
  {
    assert rows[..i+1][..i] == rows[..i];
  }

  method FileAll(rows: seq<Fields>, hash: Fields -> nat) returns (buckets: Buckets)
    ensures Filed(rows, hash, buckets)
  {
    buckets := map[];
    for i := 0 to |rows|
      invariant Filed(rows[..i], hash, buckets)
    {
      FiledPush(rows[..i], rows[i], hash, buckets);
      assert rows[..i+1] == rows[..i] + [rows[i]];
      buckets := Pushed(buckets, hash(rows[i]), i);
    }
    assert rows[..|rows|] == rows;
  }

  method UnionRows(
    left: seq<Fields>, right: seq<Fields>, columns: seq<string>, hash: Fields -> nat) returns (output: seq<Fields>)
    requires Agrees(columns, hash)
    ensures output == Selected(Union, columns, left, right)
  {
    hide Filed, In, Firsts, Agrees;
    var rows := left + right;
    ghost var wanted: Fields -> bool := row => true;
    var buckets: Buckets := map[];
    output := [];
    assert Filed([], hash, buckets) by { NothingFiled(hash); }
    NoFirsts(columns, wanted);
    for i := 0 to |rows|
      invariant output == Firsts(columns, rows[..i], wanted) && Filed(output, hash, buckets)
    {
      var row := rows[i];
      FirstsPush(columns, rows, wanted, i);
      InFirsts(columns, rows[..i], wanted, row);
      var h := hash(row);
      var known := RowInBuckets(columns, row, h, output, buckets, hash);
      if !known {
        FiledPush(output, row, hash, buckets);
        buckets := Pushed(buckets, h, |output|);
        output := output + [row];
      }
    }
    assert rows[..|rows|] == rows;
  }

  lemma NothingFiled(hash: Fields -> nat)
    ensures Filed([], hash, map[])
  {}

  lemma NoFirsts(columns: seq<string>, wanted: Fields -> bool)
    ensures Firsts(columns, [], wanted) == []
  {}

  method MembershipRows(
    left: seq<Fields>, right: seq<Fields>, op: SetOperator, columns: seq<string>,
    hash: Fields -> nat) returns (output: seq<Fields>)
    requires Agrees(columns, hash) && op != Union
    ensures output == Selected(op, columns, left, right)
  {
    hide Filed, In, Firsts, Agrees;
    var rightBuckets := FileAll(right, hash);
    ghost var wanted: Fields -> bool :=
      if op == Intersect then row => In(columns, row, right) else row => !In(columns, row, right);
    WantedRespects(columns, right);
    var buckets: Buckets := map[];
    output := [];
    assert Filed([], hash, buckets) by { NothingFiled(hash); }
    NoFirsts(columns, wanted);
    for i := 0 to |left|
      invariant output == Firsts(columns, left[..i], wanted) && Filed(output, hash, buckets)
    {
      var row := left[i];
      FirstsPush(columns, left, wanted, i);
      var h := hash(row);
      var inRight := RowInBuckets(columns, row, h, right, rightBuckets, hash);
      var keep := if op == Intersect then inRight else !inRight;
      assert keep == wanted(row);
      if keep {
        InFirsts(columns, left[..i], wanted, row);
        var known := RowInBuckets(columns, row, h, output, buckets, hash);
        if !known {
          FiledPush(output, row, hash, buckets);
          buckets := Pushed(buckets, h, |output|);
          output := output + [row];
        }
      }
    }
    assert left[..|left|] == left;
  }

  lemma WantedRespects(columns: seq<string>, right: seq<Fields>)
    ensures forall l, r :: EqualRows(columns, l, r) ==> In(columns, l, right) == In(columns, r, right)
  {
    hide EqualRows;
    forall l, r | EqualRows(columns, l, r) ensures In(columns, l, right) == In(columns, r, right) {
      EqualRowsSymmetric(columns, l, r);
      if In(columns, l, right) {
        var i :| 0 <= i < |right| && EqualRows(columns, l, right[i]);
        EqualRowsTransitive(columns, r, l, right[i]);
      }
      if In(columns, r, right) {
        var i :| 0 <= i < |right| && EqualRows(columns, r, right[i]);
        EqualRowsTransitive(columns, l, r, right[i]);
      }
    }
  }

  method ApplySetOperation(
    left: seq<Fields>, right: seq<Fields>, op: SetOperator, columns: seq<string>,
    hash: Fields -> nat) returns (output: seq<Fields>)
    requires Agrees(columns, hash)
    ensures output == Selected(op, columns, left, right)
  {
    if op == Union {
      output := UnionRows(left, right, columns, hash);
    } else {
      output := MembershipRows(left, right, op, columns, hash);
    }
  }

  // ---- The hash the database uses ---------------------------------------------------------------

  datatype Token = Tag(n: nat) | Number(i: int) | Bytes(b: seq<Byte>) | Name(s: string)

  /** Field names in the order the record keeps them, which depends on the names only. */
  ghost function NameOrder(names: set<string>): (r: seq<string>)
    ensures forall n :: n in r <==> n in names
  {
    if names == {} then [] else
    var n :| n in names;
    [n] + NameOrder(names - {n})
  }

  /** What is fed to the hasher for one value. */
  ghost function Tokens(v: Value): seq<Token>
    decreases v, 1
  {
    match v
    case Int(i) => [Tag(0), Number(i)]
    case Float(bits) => [Tag(1), Number(NormalFloat(bits))]
    case Bool(b) => [Tag(2), Number(BoolRank(b))]
    case Text(s) => [Tag(3), Token.Bytes(s)]
    case Uuid(s) => [Tag(4), Token.Bytes(s)]
    case Date(d) => [Tag(5), Number(d)]
    case Timestamp(t) => [Tag(6), Number(t)]
    case Duration(d) => [Tag(7), Number(d)]
    case Decimal(c, s) => [Tag(8), Number(c), Number(s)]
    case Bytes(s) => [Tag(9), Token.Bytes(s)]
    case Null => [Tag(10)]
    case Enum(name, args, id) => [Tag(11), Number(id)] + (if id == 0 then [Name(name)] else []) + ItemTokens(v, args)
    case Record(f) => [Tag(12), Number(|f|)] + FieldTokens(v, f, NameOrder(f.Keys))
    case Tuple(xs) => [Tag(13), Number(|xs|)] + ItemTokens(v, xs)
    case List(xs) => [Tag(14), Number(|xs|)] + ItemTokens(v, xs)
    case Map(es) => [Tag(17), Number(|es|)] + EntryTokens(v, es)
    case Opt(o) => [Tag(15), Number(OptionRank(o))] + if o.Some? then Tokens(o.value) else []
    case Named(t, x) => [Tag(16), Number(t)] + Tokens(x)
  }

  ghost function ItemTokens(v: Value, xs: seq<Value>): seq<Token>
    requires forall i :: 0 <= i < |xs| ==> xs[i] < v
    decreases v, 0, |xs|
  {
    if xs == [] then [] else Tokens(xs[0]) + ItemTokens(v, xs[1..])
  }

  ghost function EntryTokens(v: Value, es: seq<Entry>): seq<Token>
    requires forall i :: 0 <= i < |es| ==> es[i].value < v
    decreases v, 0, |es|
  {
    if es == [] then [] else [Token.Bytes(es[0].key)] + Tokens(es[0].value) + EntryTokens(v, es[1..])
  }

  ghost function FieldTokens(v: Value, f: Fields, names: seq<string>): seq<Token>
    requires (forall n <- names :: n in f) && forall n <- f :: f[n] < v
    decreases v, 0, |names|
  {
    if names == [] then [] else [Name(names[0])] + Tokens(f[names[0]]) + FieldTokens(v, f, names[1..])
  }

  lemma SameFloat(a: U64, b: U64)
    requires CompareFloat(a, b) == Equal
    ensures NormalFloat(a) == NormalFloat(b)
  {
    var x, y := NormalFloat(a), NormalFloat(b);
    assert Magnitude(0) == 0;
    if x < TWO_63 && y < TWO_63 {
      MagnitudeOrder(x, y);
    } else if x >= TWO_63 && y >= TWO_63 {
      MagnitudeOrder(x - TWO_63, y - TWO_63);
    } else if x < TWO_63 {
      MagnitudeMonotone(0, y - TWO_63);
    } else {
      MagnitudeMonotone(0, x - TWO_63);
    }
  }

  /** Equal values are hashed alike, whatever the hasher does with its input. */
  lemma {:induction false} EqualTokens(x: Value, y: Value)
    requires EqualValues(x, y)
    ensures Tokens(x) == Tokens(y)
    decreases x, 1
  {
    match x
    case Float(bits) => SameFloat(bits, y.bits);
    case Enum(_, xs, _) => EqualItemTokens(x, y, xs, y.args);
    case Tuple(xs) => EqualItemTokens(x, y, xs, y.items);
    case List(xs) => EqualItemTokens(x, y, xs, y.items);
    case Map(es) => EqualEntryTokens(x, y, es, y.entries);
    case Record(f) =>
      assert f.Keys == y.fields.Keys by { SubsetOfSameSize(f.Keys, y.fields.Keys); }
      EqualFieldTokens(x, y, f, y.fields, NameOrder(f.Keys));
    case Opt(o) => if o.Some? { EqualTokens(o.value, y.opt.value); }
    case Named(_, inner) => EqualTokens(inner, y.value);
    case _ =>
  }

  lemma {:induction false} EqualItemTokens(x: Value, y: Value, xs: seq<Value>, ys: seq<Value>)
    requires |xs| == |ys| && (forall i :: 0 <= i < |xs| ==> xs[i] < x) && (forall i :: 0 <= i < |ys| ==> ys[i] < y)
    requires forall k :: 0 <= k < |xs| ==> EqualValues(xs[k], ys[k])
    ensures ItemTokens(x, xs) == ItemTokens(y, ys)
    decreases x, 0, |xs|
  {
    hide EqualValues, Tokens;
    if xs != [] {
      assert xs[0] in xs;
      EqualTokens(xs[0], ys[0]);
      EqualItemTokens(x, y, xs[1..], ys[1..]);
    }
  }

  lemma {:induction false} EqualEntryTokens(x: Value, y: Value, xs: seq<Entry>, ys: seq<Entry>)
    requires |xs| == |ys| && (forall i :: 0 <= i < |xs| ==> xs[i].value < x)
             && (forall i :: 0 <= i < |ys| ==> ys[i].value < y)
    requires forall k :: 0 <= k < |xs| ==> xs[k].key == ys[k].key && EqualValues(xs[k].value, ys[k].value)
    ensures EntryTokens(x, xs) == EntryTokens(y, ys)
    decreases x, 0, |xs|
  {
    hide EqualValues, Tokens;
    if xs != [] {
      assert xs[0] in xs;
      EqualTokens(xs[0].value, ys[0].value);
      EqualEntryTokens(x, y, xs[1..], ys[1..]);
    }
  }

  lemma {:induction false} EqualFieldTokens(x: Value, y: Value, f: Fields, g: Fields, names: seq<string>)
    requires (forall n <- f :: f[n] < x) && (forall n <- g :: g[n] < y)
    requires forall n <- names :: n in f && n in g && EqualValues(f[n], g[n])
    ensures FieldTokens(x, f, names) == FieldTokens(y, g, names)
    decreases x, 0, |names|
  {
    hide EqualValues, Tokens;
    if names != [] {
      assert names[0] in names;
      EqualTokens(f[names[0]], g[names[0]]);
      EqualFieldTokens(x, y, f, g, names[1..]);
    }
  }

  ghost function RowTokens(columns: seq<string>, row: Fields): seq<Token> {
    if columns == [] then []
    else [Name(columns[0])] + (if columns[0] in row then Tokens(row[columns[0]]) else []) + RowTokens(columns[1..], row)
  }

  /** The row hash, under any hasher, agrees with row equality. */
  lemma {:induction false} RowHashAgrees(columns: seq<string>, l: Fields, r: Fields)
    requires EqualRows(columns, l, r)
    ensures RowTokens(columns, l) == RowTokens(columns, r)
  {
    hide EqualValues, Tokens;
    if columns != [] {
      assert columns[0] in columns;
      EqualTokens(l[columns[0]], r[columns[0]]);
      RowHashAgrees(columns[1..], l, r);
    }
  }
}
