/** Window functions: each partition is sorted by the window's keys and its rows numbered
    and ranked in place, without moving them. */
module Windows {
  import opened Bytes
  import opened Scalars
  import opened Model
  import opened OrderedKey
  import opened Schema
  import opened ValueKeys
  import opened Paging

  datatype WindowFunction = RowNumber | RankOf | DenseRank

  datatype Assignment = Assignment(name: string, function_: WindowFunction)

  datatype Window = Window(partitionBy: seq<string>, orderBy: seq<OrderKey>, assignments: seq<Assignment>)

  // ---- Comparing and partitioning ---------------------------------------------------------------

  function CompareByKeys(catalog: Catalog, order: seq<OrderKey>, x: Fields, y: Fields): Option<Ordering> {
    if order == [] then Some(Equal) else
    var l, r := RowField(x, order[0].column), RowField(y, order[0].column);
    if l.None? || r.None? then None else
    var o := CompareComponent(catalog, Component(order[0].ty, order[0].descending), l.value, r.value);
    if o != Some(Equal) then o else CompareByKeys(catalog, order[1..], x, y)
  }

  function PartitionKey(paths: seq<string>, indexKey: Value -> string, row: Fields): Option<seq<string>> {
    if paths == [] then Some([]) else
    var v, rest := RowField(row, paths[0]), PartitionKey(paths[1..], indexKey, row);
    if v.None? || rest.None? then None else Some([indexKey(v.value)] + rest.value)
  }

  /** Two rows share a partition exactly when their partition fields are equal values. */
  lemma {:induction false} PartitionedByEquality(paths: seq<string>, indexKey: Value -> string, x: Fields, y: Fields)
    requires PrintsForm(indexKey)
    requires PartitionKey(paths, indexKey, x).Some? && PartitionKey(paths, indexKey, y).Some?
    requires forall p <- paths :: var v := RowField(x, p); v.Some? && Ordinary(v.value)
    requires forall p <- paths :: var v := RowField(y, p); v.Some? && Ordinary(v.value)
    ensures PartitionKey(paths, indexKey, x) == PartitionKey(paths, indexKey, y) <==>
            forall p <- paths :: EqualValues(RowField(x, p).value, RowField(y, p).value)
  {
    hide EqualValues, Ordinary, PrintsForm, RowField;
    if paths != [] {
      assert paths[0] in paths && forall p :: p in paths <==> p == paths[0] || p in paths[1..];
      PartitionedByEquality(paths[1..], indexKey, x, y);
      SameKey(indexKey, RowField(x, paths[0]).value, RowField(y, paths[0]).value);
      var k, l := PartitionKey(paths, indexKey, x).value, PartitionKey(paths, indexKey, y).value;
      assert k[1..] == PartitionKey(paths[1..], indexKey, x).value;
      assert l[1..] == PartitionKey(paths[1..], indexKey, y).value;
      assert k == l <==> k[0] == l[0] && k[1..] == l[1..];
    }
  }

  /** The row's sort tuple as index key bytes: what its place in the order depends on. */
  function PlaceKey(catalog: Catalog, order: seq<OrderKey>, row: Fields): Option<Key> {
    if order == [] then Some([]) else
    var v := RowField(row, order[0].column);
    if v.None? then None
    else Concat(EncodeComponent(catalog, Component(order[0].ty, order[0].descending), v.value),
                PlaceKey(catalog, order[1..], row))
  }

  lemma {:induction false} CompareByPlace(catalog: Catalog, order: seq<OrderKey>, x: Fields, y: Fields)
    requires PlaceKey(catalog, order, x).Some? && PlaceKey(catalog, order, y).Some?
    ensures CompareByKeys(catalog, order, x, y).Some?
    ensures Decides(PlaceKey(catalog, order, x).value, PlaceKey(catalog, order, y).value,
                    CompareByKeys(catalog, order, x, y).value)
  {
    hide EncodeComponent, CompareComponent, RowField;
    if order != [] {
      var c := Component(order[0].ty, order[0].descending);
      var l, r := RowField(x, order[0].column).value, RowField(y, order[0].column).value;
      ComponentOrder(catalog, c, l, r);
      CompareByPlace(catalog, order[1..], x, y);
      DecidesConcat(EncodeComponent(catalog, c, l).value, EncodeComponent(catalog, c, r).value,
                    CompareComponent(catalog, c, l, r).value,
                    PlaceKey(catalog, order[1..], x).value, PlaceKey(catalog, order[1..], y).value,
                    CompareByKeys(catalog, order[1..], x, y).value);
    }
  }

  // ---- Added fields do not disturb the window ---------------------------------------------------

  predicate Apart(name: string, path: string) {
    name != path && (SplitDot(path).Some? ==> name != SplitDot(path).value.0)
  }

  /** Binding rejects a window field whose name the input already has. */
  predicate FreshNames(w: Window) {
    forall a <- w.assignments ::
      (forall k <- w.orderBy :: Apart(a.name, k.column)) && (forall p <- w.partitionBy :: Apart(a.name, p))
  }

  function Assigned(row: Fields, assignments: seq<Assignment>, number: I64, rank: I64, dense: I64): Fields
    decreases |assignments|
  {
    if assignments == [] then row else
    var a := assignments[0];
    var v := match a.function_ case RowNumber => number case RankOf => rank case DenseRank => dense;
    Assigned(row[a.name := Int(v)], assignments[1..], number, rank, dense)
  }

  lemma {:induction false} PlaceApart(catalog: Catalog, order: seq<OrderKey>, row: Fields, name: string, v: Value)
    requires forall k <- order :: Apart(name, k.column)
    ensures PlaceKey(catalog, order, row[name := v]) == PlaceKey(catalog, order, row)
  {
    hide EncodeComponent, NestedField;
    if order != [] {
      assert order[0] in order;
      assert forall k <- order[1..] :: k in order;
      PlaceApart(catalog, order[1..], row, name, v);
    }
  }

  lemma {:induction false} AssignedPlace(
    catalog: Catalog, w: Window, row: Fields, assignments: seq<Assignment>, number: I64, rank: I64, dense: I64)
    requires FreshNames(w) && forall a <- assignments :: a in w.assignments
    ensures PlaceKey(catalog, w.orderBy, Assigned(row, assignments, number, rank, dense)) ==
            PlaceKey(catalog, w.orderBy, row)
    decreases |assignments|
  {
    hide PlaceKey, Apart;
    if assignments != [] {
      var a := assignments[0];
      assert a in assignments;
      var v := match a.function_ case RowNumber => number case RankOf => rank case DenseRank => dense;
      PlaceApart(catalog, w.orderBy, row, a.name, Int(v));
      assert forall x <- assignments[1..] :: x in assignments;
      AssignedPlace(catalog, w, row[a.name := Int(v)], assignments[1..], number, rank, dense);
    }
  }

  // ---- What the functions mean ------------------------------------------------------------------

  /** Rows with their partition and place in the order. */
  datatype Placed = Placed(part: seq<string>, place: Key)

  ghost predicate Behind(ps: seq<Placed>, j: nat, i: nat)
    requires i < |ps| && j < |ps|
  {
    ps[j].part == ps[i].part && Compare(ps[j].place, ps[i].place) == Less
  }

  /** The rows before row `i` in its partition: earlier in the order, or tied and earlier in
      the input. */
  ghost function Before(ps: seq<Placed>, i: nat): set<nat>
    requires i < |ps|
  {
    set j: nat | j < |ps| && (Behind(ps, j, i) || (ps[j] == ps[i] && j < i))
  }

  ghost function Earlier(ps: seq<Placed>, i: nat): set<nat>
    requires i < |ps|
  {
    set j: nat | j < |ps| && Behind(ps, j, i)
  }

  /** One row for each class of tied rows up to and including row `i`'s: the first in the
      input. */
  ghost function Classes(ps: seq<Placed>, i: nat): set<nat>
    requires i < |ps|
  {
    set j: nat | j < |ps| && (Behind(ps, j, i) || ps[j] == ps[i]) && (forall k: nat :: k < j ==> ps[k] != ps[j])
  }

  // ---- One sorted partition ---------------------------------------------------------------------

  ghost predicate Positions(ps: seq<Placed>, ids: seq<nat>) {
    forall a :: 0 <= a < |ids| ==> ids[a] < |ps|
  }

  ghost predicate Sorted(ps: seq<Placed>, ids: seq<nat>) {
    && Positions(ps, ids)
    && (forall a, b :: 0 <= a < b < |ids| ==>
          ps[ids[a]].part == ps[ids[b]].part
            && (Behind(ps, ids[a], ids[b]) || (ps[ids[a]] == ps[ids[b]] && ids[a] < ids[b])))
  }

  /** `ids` is one whole partition. */
  ghost predicate Whole(ps: seq<Placed>, ids: seq<nat>) {
    forall a, j: nat :: 0 <= a < |ids| && ids[a] < |ps| && j < |ps| && ps[j].part == ps[ids[a]].part ==> j in ids
  }

  ghost function PrefixSet(ids: seq<nat>, k: nat): set<nat>
    requires k <= |ids|
  {
    set a | 0 <= a < k :: ids[a]
  }

  lemma {:induction false} PrefixSize(ids: seq<nat>, k: nat)
    requires k <= |ids| && forall a, b :: 0 <= a < b < |ids| ==> ids[a] != ids[b]
    ensures |PrefixSet(ids, k)| == k
  {
    if k > 0 {
      PrefixSize(ids, k - 1);
      assert PrefixSet(ids, k) == PrefixSet(ids, k - 1) + {ids[k-1]};
    }
  }

  lemma SortedDistinct(ps: seq<Placed>, ids: seq<nat>)
    requires Sorted(ps, ids)
    ensures forall a, b :: 0 <= a < b < |ids| ==> ids[a] != ids[b]
  {
    hide Compare;
    forall a, b | 0 <= a < b < |ids| ensures ids[a] != ids[b] { CompareReverse(ps[ids[a]].place, ps[ids[b]].place); }
  }

  /** In a sorted whole partition, the rows before the one at position `p` are the first
      `p`. */
  lemma NumberAt(ps: seq<Placed>, ids: seq<nat>, p: nat)
    requires Sorted(ps, ids) && Whole(ps, ids) && p < |ids|
    ensures |Before(ps, ids[p])| == p
  {
    hide Compare;
    SortedDistinct(ps, ids);
    PrefixSize(ids, p);
    assert ids[p] in ids;
    forall j: nat ensures j in Before(ps, ids[p]) <==> j in PrefixSet(ids, p) {
      if j in Before(ps, ids[p]) {
        assert j in ids;
        var a :| 0 <= a < |ids| && ids[a] == j;
        CompareReverse(ps[ids[a]].place, ps[ids[p]].place);
      }
    }
    assert Before(ps, ids[p]) == PrefixSet(ids, p);
  }

  /** The rows strictly earlier than position `p` are those before the start of its run of
      ties. */
  lemma RankAt(ps: seq<Placed>, ids: seq<nat>, p: nat, start: nat)
    requires Sorted(ps, ids) && Whole(ps, ids) && start <= p < |ids|
    requires (forall a :: start <= a <= p ==> ps[ids[a]].place == ps[ids[p]].place)
    requires start > 0 ==> ps[ids[start-1]].place != ps[ids[p]].place
    ensures |Earlier(ps, ids[p])| == start
  {
    hide Compare;
    SortedDistinct(ps, ids);
    PrefixSize(ids, start);
    assert ids[p] in ids;
    forall j: nat ensures j in Earlier(ps, ids[p]) <==> j in PrefixSet(ids, start) {
      if j in Earlier(ps, ids[p]) {
        assert j in ids;
        var a :| 0 <= a < |ids| && ids[a] == j;
        CompareReverse(ps[ids[a]].place, ps[ids[p]].place);
      } else if j in PrefixSet(ids, start) {
        var a :| 0 <= a < start && ids[a] == j;
        assert ids[a] in ids && ids[start-1] in ids;
        BeforeRun(ps, ids, a, start, p);
      }
    }
    assert Earlier(ps, ids[p]) == PrefixSet(ids, start);
  }

  lemma BeforeRun(ps: seq<Placed>, ids: seq<nat>, a: nat, start: nat, p: nat)
    requires Sorted(ps, ids) && a < start <= p < |ids| && ids[a] < |ps| && ids[start-1] < |ps| && ids[p] < |ps|
    requires ps[ids[start-1]].place != ps[ids[p]].place
    ensures Behind(ps, ids[a], ids[p])
  {
    hide Compare;
    assert Behind(ps, ids[start-1], ids[p]);
    if a < start - 1 && ps[ids[a]].place != ps[ids[start-1]].place {
      CompareTransitive(ps[ids[a]].place, ps[ids[start-1]].place, ps[ids[p]].place);
    }
  }

  ghost predicate Leads(ps: seq<Placed>, ids: seq<nat>, a: nat)
    requires a < |ids| && Positions(ps, ids)
  {
    a == 0 || ps[ids[a-1]] != ps[ids[a]]
  }

  ghost function Leaders(ps: seq<Placed>, ids: seq<nat>, k: nat): set<nat>
    requires k <= |ids| && Positions(ps, ids)
  {
    set a | 0 <= a < k && Leads(ps, ids, a) :: ids[a]
  }

  /** The classes up to position `p` are led by the rows that start a run of ties. */
  lemma ClassesAt(ps: seq<Placed>, ids: seq<nat>, p: nat)
    requires Sorted(ps, ids) && Whole(ps, ids) && p < |ids|
    ensures Classes(ps, ids[p]) == Leaders(ps, ids, p + 1)
  {
    hide Compare;
    assert ids[p] in ids;
    forall j: nat ensures j in Classes(ps, ids[p]) <==> j in Leaders(ps, ids, p + 1) {
      if j in Classes(ps, ids[p]) {
        assert j in ids;
        var a :| 0 <= a < |ids| && ids[a] == j;
        assert a > 0 ==> ids[a-1] in ids;
        if a > 0 { CompareReverse(ps[ids[a-1]].place, ps[ids[a]].place); }
        CompareReverse(ps[ids[a]].place, ps[ids[p]].place);
        FirstUpTo(ps, ids, a, p);
      } else if j in Leaders(ps, ids, p + 1) {
        var a :| 0 <= a < p + 1 && Leads(ps, ids, a) && ids[a] == j;
        LeaderIsFirst(ps, ids, a);
      }
    }
  }

  lemma FirstUpTo(ps: seq<Placed>, ids: seq<nat>, a: nat, p: nat)
    requires Sorted(ps, ids) && a < |ids| && p < |ids| && ids[a] < |ps| && ids[p] < |ps|
    requires Behind(ps, ids[a], ids[p]) || ps[ids[a]] == ps[ids[p]]
    requires forall k: nat :: k < ids[a] ==> ps[k] != ps[ids[a]]
    ensures a <= p
  {
    hide Compare;
    if p < a { CompareReverse(ps[ids[p]].place, ps[ids[a]].place); }
  }

  lemma LeaderIsFirst(ps: seq<Placed>, ids: seq<nat>, a: nat)
    requires Sorted(ps, ids) && Whole(ps, ids) && a < |ids| && ids[a] < |ps| && Leads(ps, ids, a)
    ensures forall k: nat :: k < ids[a] ==> ps[k] != ps[ids[a]]
  {
    hide Compare;
    forall k: nat | k < ids[a] ensures ps[k] != ps[ids[a]] {
      if ps[k] == ps[ids[a]] {
        assert k in ids;
        var b :| 0 <= b < |ids| && ids[b] == k;
        CompareReverse(ps[ids[a]].place, ps[ids[b]].place);
        assert b < a;
        assert ids[a-1] in ids;
        BetweenTies(ps, ids, b, a);
      }
    }
  }

  lemma BetweenTies(ps: seq<Placed>, ids: seq<nat>, b: nat, a: nat)
    requires Sorted(ps, ids) && b < a < |ids| && ps[ids[b]] == ps[ids[a]]
    ensures ps[ids[a-1]] == ps[ids[a]]
  {
    hide Compare;
    if b < a - 1 {
      CompareReverse(ps[ids[b]].place, ps[ids[a-1]].place);
      CompareReverse(ps[ids[a-1]].place, ps[ids[a]].place);
      CompareReverse(ps[ids[b]].place, ps[ids[a]].place);
    }
  }

  // ---- Sorting a partition ----------------------------------------------------------------------

  ghost predicate Places(catalog: Catalog, w: Window, rows: seq<Fields>, ps: seq<Placed>) {
    |rows| == |ps| && forall i :: 0 <= i < |rows| ==> PlaceKey(catalog, w.orderBy, rows[i]) == Some(ps[i].place)
  }

  ghost predicate SamePart(ps: seq<Placed>, ids: seq<nat>, id: nat)
    requires id < |ps| && Positions(ps, ids)
  {
    forall a :: 0 <= a < |ids| ==> ps[ids[a]].part == ps[id].part
  }

  lemma InsertSorted(ps: seq<Placed>, sorted: seq<nat>, q: nat, id: nat)
    requires Sorted(ps, sorted) && q <= |sorted| && id < |ps| && SamePart(ps, sorted, id)
    requires forall a :: 0 <= a < |sorted| ==> sorted[a] < id
    requires q > 0 ==> Compare(ps[id].place, ps[sorted[q-1]].place) != Less
    requires forall a :: q <= a < |sorted| ==> Compare(ps[id].place, ps[sorted[a]].place) == Less
    ensures Sorted(ps, sorted[..q] + [id] + sorted[q..])
  {
    hide Compare;
    var all := sorted[..q] + [id] + sorted[q..];
    assert forall a :: 0 <= a < |all| ==> all[a] == if a < q then sorted[a] else if a == q then id else sorted[a-1];
    forall a | 0 <= a < q ensures Behind(ps, sorted[a], id) || (ps[sorted[a]] == ps[id] && sorted[a] < id) {
      NotAfter(ps, sorted, a, q, id);
    }
  }

  lemma NotAfter(ps: seq<Placed>, sorted: seq<nat>, a: nat, q: nat, id: nat)
    requires Sorted(ps, sorted) && a < q <= |sorted| && id < |ps| && SamePart(ps, sorted, id)
    requires Compare(ps[id].place, ps[sorted[q-1]].place) != Less
    ensures Behind(ps, sorted[a], id) || ps[sorted[a]] == ps[id]
  {
    hide Compare;
    var x, y, z := ps[sorted[a]].place, ps[sorted[q-1]].place, ps[id].place;
    CompareReverse(z, y);
    CompareReverse(x, y);
    CompareReverse(x, z);
    if Compare(x, y) != Greater { CompareTransitive(x, y, z); }
    assert a < q - 1 ==> Behind(ps, sorted[a], sorted[q-1]) || ps[sorted[a]] == ps[sorted[q-1]];
  }

  lemma NothingSorted(ps: seq<Placed>)
    ensures Sorted(ps, [])
  {}

  lemma Smaller(ps: seq<Placed>, sorted: seq<nat>, ids: seq<nat>, i: nat)
    requires Positions(ps, ids) && i < |ids| && Sorted(ps, sorted) && forall j :: j in sorted <==> j in ids[..i]
    requires forall a, b :: 0 <= a < b < |ids| ==> ids[a] < ids[b] && ps[ids[a]].part == ps[ids[b]].part
    ensures Positions(ps, sorted) && SamePart(ps, sorted, ids[i])
    ensures forall a :: 0 <= a < |sorted| ==> sorted[a] < ids[i]
  {
    forall a | 0 <= a < |sorted| ensures sorted[a] < ids[i] && ps[sorted[a]].part == ps[ids[i]].part {
      assert sorted[a] in ids[..i];
      var b :| 0 <= b < i && ids[..i][b] == sorted[a];
    }
  }

  // ---- The whole window -------------------------------------------------------------------------

  ghost function UpTo(n: nat): (s: set<nat>)
    ensures |s| == n && forall j: nat :: j in s <==> j < n
  {
    if n == 0 then {} else UpTo(n - 1) + {n - 1}
  }

  lemma SubsetSize(a: set<nat>, b: set<nat>)
    requires a <= b
    ensures |a| <= |b|
  {
    assert |b - a| == |b| - |a|;
  }

  lemma CountBounds(ps: seq<Placed>, i: nat)
    requires i < |ps|
    ensures |Before(ps, i)| < |ps| && |Earlier(ps, i)| < |ps| && |Classes(ps, i)| <= |ps|
  {
    hide Compare;
    var all := UpTo(|ps|);
    CompareReverse(ps[i].place, ps[i].place);
    SubsetSize(Before(ps, i), all - {i});
    SubsetSize(Earlier(ps, i), all - {i});
    SubsetSize(Classes(ps, i), all);
  }

  /** A row with its window fields: one more than the rows before it, one more than the
      rows strictly earlier, and the number of classes up to its own. */
  ghost function Expected(w: Window, ps: seq<Placed>, i: nat, row: Fields): Fields
    requires i < |ps| < TWO_63
  {
    CountBounds(ps, i);
    Assigned(row, w.assignments, |Before(ps, i)| + 1, |Earlier(ps, i)| + 1, |Classes(ps, i)|)
  }

  lemma ExpectedPlace(catalog: Catalog, w: Window, ps: seq<Placed>, i: nat, row: Fields)
    requires i < |ps| < TWO_63 && FreshNames(w)
    ensures PlaceKey(catalog, w.orderBy, Expected(w, ps, i, row)) == PlaceKey(catalog, w.orderBy, row)
  {
    hide PlaceKey, FreshNames;
    CountBounds(ps, i);
    AssignedPlace(catalog, w, row, w.assignments, |Before(ps, i)| + 1, |Earlier(ps, i)| + 1, |Classes(ps, i)|);
  }

  /** Whether two rows differ in the window's order. */
  method Differ(catalog: Catalog, w: Window, x: Fields, y: Fields, ghost px: Key, ghost py: Key) returns (b: bool)
    requires PlaceKey(catalog, w.orderBy, x) == Some(px) && PlaceKey(catalog, w.orderBy, y) == Some(py)
    ensures b <==> px != py
  {
    hide Compare, PlaceKey, CompareByKeys;
    CompareByPlace(catalog, w.orderBy, x, y);
    var o := CompareByKeys(catalog, w.orderBy, x, y);
    DecidesIsCompare(px, py, o.value);
    CompareReverse(px, py);
    return o != Some(Equal);
  }

  /** Two rows of one partition are never numbered alike: one is before the other, and all
      that is before it is before the other too. */
  lemma NumbersDistinct(ps: seq<Placed>, i: nat, j: nat)
    requires i < |ps| && j < |ps| && i != j && ps[i].part == ps[j].part
    ensures |Before(ps, i)| != |Before(ps, j)|
  {
    hide Compare;
    CompareReverse(ps[i].place, ps[j].place);
    if i in Before(ps, j) {
      FewerBefore(ps, i, j);
    } else {
      FewerBefore(ps, j, i);
    }
  }

  lemma FewerBefore(ps: seq<Placed>, i: nat, j: nat)
    requires i < |ps| && j < |ps| && i in Before(ps, j)
    ensures |Before(ps, i)| < |Before(ps, j)|
  {
    hide Compare;
    CompareReverse(ps[i].place, ps[i].place);
    forall k <- Before(ps, i) ensures k in Before(ps, j) {
      CompareReverse(ps[k].place, ps[i].place);
      CompareReverse(ps[i].place, ps[j].place);
      CompareTransitive(ps[k].place, ps[i].place, ps[j].place);
    }
    SubsetSize(Before(ps, i) + {i}, Before(ps, j));
  }

  /** Within a partition the numbers stay below its size. */
  lemma NumbersBounded(ps: seq<Placed>, i: nat, part: set<nat>)
    requires i < |ps| && forall j: nat :: j < |ps| && ps[j].part == ps[i].part ==> j in part
    ensures |Before(ps, i)| < |part|
  {
    hide Compare;
    CompareReverse(ps[i].place, ps[i].place);
    SubsetSize(Before(ps, i) + {i}, part);
  }

  /** The row numbers given to some rows. */
  ghost function Numbers(ps: seq<Placed>, rows: set<nat>): set<nat>
    requires forall i <- rows :: i < |ps|
  {
    set i <- rows :: |Before(ps, i)| + 1
  }

  lemma {:induction false} CountNumbers(ps: seq<Placed>, rows: set<nat>)
    requires forall i <- rows :: i < |ps|
    requires forall i <- rows, j <- rows :: ps[i].part == ps[j].part
    ensures |Numbers(ps, rows)| == |rows|
  {
    hide Before;
    if rows != {} {
      var i :| i in rows;
      var rest := rows - {i};
      CountNumbers(ps, rest);
      assert Numbers(ps, rows) == Numbers(ps, rest) + {|Before(ps, i)| + 1};
      assert |Before(ps, i)| + 1 !in Numbers(ps, rest) by {
        forall j <- rest ensures |Before(ps, j)| != |Before(ps, i)| { NumbersDistinct(ps, i, j); }
      }
    }
  }

  /** The numbers 1 to n. */
  ghost function FirstNumbers(n: nat): (s: set<nat>)
    ensures |s| == n && forall k :: k in s <==> 1 <= k <= n
  {
    if n == 0 then {} else FirstNumbers(n - 1) + {n}
  }

  /** The rows of a partition are numbered 1 to n, each number once. */
  lemma {:induction false} NumbersAreAll(ps: seq<Placed>, i: nat)
    requires i < |ps|
    ensures var part := set j | 0 <= j < |ps| && ps[j].part == ps[i].part;
            Numbers(ps, part) == FirstNumbers(|part|) && |Numbers(ps, part)| == |part|
  {
    hide Before;
    var part: set<nat> := set j | 0 <= j < |ps| && ps[j].part == ps[i].part;
    CountNumbers(ps, part);
    forall j <- part ensures |Before(ps, j)| + 1 in FirstNumbers(|part|) { NumbersBounded(ps, j, part); }
    SubsetOfSameSize(Numbers(ps, part), FirstNumbers(|part|));
  }

  /** Number and rank one sorted partition, writing the new fields into its rows. */
  method AssignPartition(
    catalog: Catalog, w: Window, rows: array<Fields>, ids: seq<nat>, ghost ps: seq<Placed>, ghost input: seq<Fields>)
    requires FreshNames(w) && Places(catalog, w, input, ps) && rows.Length == |ps| < TWO_63
    requires Sorted(ps, ids) && Whole(ps, ids)
    requires forall a :: 0 <= a < |ids| && ids[a] < |ps| ==> rows[ids[a]] == input[ids[a]]
    modifies rows
    ensures forall j :: 0 <= j < rows.Length ==>
              rows[j] == if j in ids then Expected(w, ps, j, input[j]) else old(rows[j])
  {
    hide PlaceKey, FreshNames, Expected, Whole, Sorted, Run, Leaders, Leads, Assigned;
    assert Positions(ps, ids) && forall a, b :: 0 <= a < b < |ids| ==> ids[a] != ids[b] by {
      SortedDistinct(ps, ids);
      SortedPositions(ps, ids);
    }
    var rank, dense := 1, 1;
    ghost var start: nat := 0;
    for p := 0 to |ids|
      invariant forall a :: 0 <= a < |ids| ==>
                  var j := ids[a];
                  rows[j] == if a < p then Expected(w, ps, j, input[j]) else input[j]
      invariant forall j :: 0 <= j < rows.Length && j !in ids ==> rows[j] == old(rows[j])
      invariant rank == start + 1 && dense >= 1
      invariant p == 0 ==> start == 0 && dense == 1
      invariant p > 0 ==> Run(ps, ids, start, p - 1) && dense == |Leaders(ps, ids, p)|
    {
      var current := ids[p];
      RunStep(ps, ids, start, p);
      if p > 0 {
        var previous := ids[p - 1];
        ExpectedPlace(catalog, w, ps, previous, input[previous]);
        var differ := Differ(catalog, w, rows[previous], rows[current], ps[previous].place, ps[current].place);
        if differ {
          rank, dense := p + 1, dense + 1;
          start := p;
        }
      }
      Ranked(w, ps, ids, p, start, input[current]);
      rows[current] := Assigned(rows[current], w.assignments, p + 1, rank, dense);
    }
  }

  lemma SortedPositions(ps: seq<Placed>, ids: seq<nat>)
    requires Sorted(ps, ids)
    ensures Positions(ps, ids)
  {}

  /** Extending a run by one row, or starting a new one. */
  lemma RunStep(ps: seq<Placed>, ids: seq<nat>, start: nat, p: nat)
    requires Sorted(ps, ids) && p < |ids| && Positions(ps, ids)
             && (if p == 0 then start == 0 else Run(ps, ids, start, p - 1))
    ensures p == 0 ==> Run(ps, ids, 0, 0) && |Leaders(ps, ids, 1)| == 1
    ensures p > 0 && ps[ids[p-1]].place != ps[ids[p]].place ==>
            Run(ps, ids, p, p) && |Leaders(ps, ids, p + 1)| == |Leaders(ps, ids, p)| + 1
    ensures p > 0 && ps[ids[p-1]].place == ps[ids[p]].place ==>
            Run(ps, ids, start, p) && |Leaders(ps, ids, p + 1)| == |Leaders(ps, ids, p)|
  {
    hide Sorted, Leaders;
    LeadersStep(ps, ids, p);
    if p > 0 { LeadsByPlace(ps, ids, p); }
  }

  /** Positions `start` to `p` are tied, and the row before them is not. */
  ghost predicate Run(ps: seq<Placed>, ids: seq<nat>, start: nat, p: nat) {
    && start <= p < |ids| && Positions(ps, ids)
    && (forall a :: start <= a <= p ==> ps[ids[a]].place == ps[ids[p]].place)
    && (start > 0 ==> ps[ids[start-1]].place != ps[ids[p]].place)
  }

  lemma LeadersGrow(ps: seq<Placed>, ids: seq<nat>, p: nat)
    requires Positions(ps, ids) && p < |ids| && forall a, b :: 0 <= a < b < |ids| ==> ids[a] != ids[b]
    ensures Leaders(ps, ids, p + 1) == Leaders(ps, ids, p) + (if Leads(ps, ids, p) then {ids[p]} else {})
    ensures ids[p] !in Leaders(ps, ids, p)
  {
    hide Leads;
  }

  lemma LeadersStep(ps: seq<Placed>, ids: seq<nat>, p: nat)
    requires Sorted(ps, ids) && p < |ids| && Positions(ps, ids)
    ensures |Leaders(ps, ids, p + 1)| == |Leaders(ps, ids, p)| + if Leads(ps, ids, p) then 1 else 0
    ensures |Leaders(ps, ids, 0)| == 0
  {
    hide Sorted, Leads;
    SortedDistinct(ps, ids);
    assert Leaders(ps, ids, 0) == {};
    hide Leaders;
    LeadersGrow(ps, ids, p);
  }

  /** A row leads when its place differs from the previous one: within a partition that is
      all that can differ. */
  lemma LeadsByPlace(ps: seq<Placed>, ids: seq<nat>, p: nat)
    requires Sorted(ps, ids) && 0 < p < |ids| && Positions(ps, ids)
    ensures Leads(ps, ids, p) <==> ps[ids[p-1]].place != ps[ids[p]].place
  {
    hide Behind;
  }

  lemma Ranked(w: Window, ps: seq<Placed>, ids: seq<nat>, p: nat, start: nat, row: Fields)
    requires Sorted(ps, ids) && Whole(ps, ids) && Run(ps, ids, start, p) && |ps| < TWO_63
    ensures p < |ps| && start < |ps| && |Leaders(ps, ids, p + 1)| <= |ps|
    ensures Expected(w, ps, ids[p], row) == Assigned(row, w.assignments, p + 1, start + 1, |Leaders(ps, ids, p + 1)|)
  {
    hide Compare, Assigned, Before, Earlier, Classes, Sorted, Whole, Leaders;
    SortedPositions(ps, ids);
    NumberAt(ps, ids, p);
    RankAt(ps, ids, p, start);
    ClassesAt(ps, ids, p);
    CountBounds(ps, ids[p]);
  }

  // ---- Partitions -------------------------------------------------------------------------------

  type Partitions = map<seq<string>, seq<nat>>

  predicate Member(parts: Partitions, k: seq<string>, j: nat) {
    k in parts && j in parts[k]
  }

  /** The first `n` rows, filed by partition key in input order. */
  ghost predicate Partitioned(ps: seq<Placed>, n: nat, parts: Partitions) {
    && n <= |ps|
    && (forall k, j: nat :: Member(parts, k, j) <==> j < n && ps[j].part == k)
    && (forall k <- parts :: forall a, b :: 0 <= a < b < |parts[k]| ==> parts[k][a] < parts[k][b])
  }

  lemma PartitionPush(ps: seq<Placed>, n: nat, parts: Partitions)
    requires Partitioned(ps, n, parts) && n < |ps|
    ensures var k := ps[n].part; Partitioned(ps, n + 1, parts[k := (if k in parts then parts[k] else []) + [n]])
  {
    var key := ps[n].part;
    var ids := if key in parts then parts[key] else [];
    var next := parts[key := ids + [n]];
    forall a | 0 <= a < |ids| ensures ids[a] < n { assert Member(parts, key, ids[a]); }
    forall k, j: nat ensures Member(next, k, j) <==> j < n + 1 && ps[j].part == k {
      assert Member(parts, k, j) <==> j < n && ps[j].part == k;
      assert Member(next, k, j) <==> Member(parts, k, j) || (k == key && j == n);
    }
  }

  method BuildPartitions(
    rows: array<Fields>, paths: seq<string>, indexKey: Value -> string,
    ghost ps: seq<Placed>) returns (parts: Partitions)
    requires rows.Length == |ps| && forall i :: 0 <= i < |ps| ==>
                                      PartitionKey(paths, indexKey, rows[i]) == Some(ps[i].part)
    ensures Partitioned(ps, |ps|, parts)
  {
    hide PartitionKey, Partitioned;
    parts := map[];
    assert Partitioned(ps, 0, parts) by { NothingPartitioned(ps); }
    for i := 0 to rows.Length
      invariant Partitioned(ps, i, parts)
    {
      var key := PartitionKey(paths, indexKey, rows[i]);
      PartitionPush(ps, i, parts);
      parts := parts[key.value := (if key.value in parts then parts[key.value] else []) + [i]];
    }
  }

  lemma NothingPartitioned(ps: seq<Placed>)
    ensures Partitioned(ps, 0, map[])
  {}

  ghost predicate Placement(
    catalog: Catalog, w: Window, indexKey: Value -> string, rows: seq<Fields>, ps: seq<Placed>) {
    Places(catalog, w, rows, ps) && forall i :: 0 <= i < |ps| ==>
                                      PartitionKey(w.partitionBy, indexKey, rows[i]) == Some(ps[i].part)
  }

  /** Every row keeps its place and its fields and gains the window's: a number that counts
      the rows before it in its partition, a rank that counts those strictly earlier, and
      the number of distinct places up to its own. */
  method ApplyWindow(catalog: Catalog, w: Window, indexKey: Value -> string, rows: array<Fields>, ghost ps: seq<Placed>)
    requires FreshNames(w) && Placement(catalog, w, indexKey, rows[..], ps) && rows.Length < TWO_63
    modifies rows
    ensures forall i :: 0 <= i < rows.Length ==> rows[i] == Expected(w, ps, i, old(rows[i]))
  {
    hide FreshNames, PlaceKey, PartitionKey, Expected, Partitioned, Sorted, Whole;
    ghost var input := rows[..];
    var parts := BuildPartitions(rows, w.partitionBy, indexKey, ps);
    var remaining := parts.Keys;
    forall i | 0 <= i < |ps| ensures ps[i].part in remaining { PartitionOf(ps, parts, i); }
    while remaining != {}
      invariant remaining <= parts.Keys
      invariant forall i :: 0 <= i < rows.Length ==>
                  rows[i] == if ps[i].part in remaining then input[i] else Expected(w, ps, i, input[i])
      decreases |remaining|
    {
      var key :| key in remaining;
      PartitionIds(ps, parts, key);
      // The rows of this partition still hold the input, so sorting reads it.
      var sorted := SortRows(catalog, w, rows, parts[key], ps, input);
      WholePartition(ps, parts, key, sorted);
      AssignPartition(catalog, w, rows, sorted, ps, input);
      remaining := remaining - {key};
    }
  }

  lemma PartitionOf(ps: seq<Placed>, parts: Partitions, i: nat)
    requires Partitioned(ps, |ps|, parts) && i < |ps|
    ensures ps[i].part in parts
  {
    assert Member(parts, ps[i].part, i);
  }

  lemma PartitionIds(ps: seq<Placed>, parts: Partitions, key: seq<string>)
    requires Partitioned(ps, |ps|, parts) && key in parts
    ensures Positions(ps, parts[key]) && forall a :: 0 <= a < |parts[key]| ==> ps[parts[key][a]].part == key
    ensures forall a, b :: 0 <= a < b < |parts[key]| ==> parts[key][a] < parts[key][b]
    ensures forall j: nat :: j in parts[key] <==> j < |ps| && ps[j].part == key
  {
    forall a | 0 <= a < |parts[key]| ensures parts[key][a] < |ps| && ps[parts[key][a]].part == key {
      assert Member(parts, key, parts[key][a]);
    }
    forall j: nat ensures j in parts[key] <==> j < |ps| && ps[j].part == key {
      assert Member(parts, key, j) <==> j in parts[key];
    }
  }

  lemma WholePartition(ps: seq<Placed>, parts: Partitions, key: seq<string>, sorted: seq<nat>)
    requires Partitioned(ps, |ps|, parts) && key in parts && forall j :: j in sorted <==> j in parts[key]
    ensures Whole(ps, sorted)
  {
    PartitionIds(ps, parts, key);
    forall a, j: nat | 0 <= a < |sorted| && sorted[a] < |ps| && j < |ps| && ps[j].part == ps[sorted[a]].part
      ensures j in sorted
    {
      assert sorted[a] in sorted;
    }
  }

  /** A stable sort of one partition's positions by the rows they name. */
  method SortRows(
    catalog: Catalog, w: Window, rows: array<Fields>, ids: seq<nat>, ghost ps: seq<Placed>,
    ghost input: seq<Fields>) returns (sorted: seq<nat>)
    requires rows.Length == |input| && Places(catalog, w, input, ps) && Positions(ps, ids)
    requires forall a :: 0 <= a < |ids| ==> rows[ids[a]] == input[ids[a]]
    requires forall a, b :: 0 <= a < b < |ids| ==> ids[a] < ids[b] && ps[ids[a]].part == ps[ids[b]].part
    ensures Sorted(ps, sorted) && forall j :: j in sorted <==> j in ids
  {
    hide Compare, Sorted, PlaceKey;
    sorted := [];
    assert Sorted(ps, []) by { NothingSorted(ps); }
    for i := 0 to |ids|
      invariant Sorted(ps, sorted) && forall j :: j in sorted <==> j in ids[..i]
    {
      var id := ids[i];
      Smaller(ps, sorted, ids, i);
      StillInput(rows[..], input, sorted, ids, i);
      var q := |sorted|;
      var searching := q > 0;
      while searching
        invariant 0 <= q <= |sorted| && (searching ==> q > 0)
        invariant forall a :: q <= a < |sorted| ==> Compare(ps[id].place, ps[sorted[a]].place) == Less
        invariant !searching && q > 0 ==> Compare(ps[id].place, ps[sorted[q-1]].place) != Less
        decreases q, searching
      {
        var less := Precede(catalog, w, rows[id], rows[sorted[q-1]], ps[id].place, ps[sorted[q-1]].place);
        if less {
          q := q - 1;
          searching := q > 0;
        } else {
          searching := false;
        }
      }
      InsertSorted(ps, sorted, q, id);
      assert ids[..i+1] == ids[..i] + [id];
      assert sorted == sorted[..q] + sorted[q..];
      sorted := sorted[..q] + [id] + sorted[q..];
    }
    assert ids[..|ids|] == ids;
  }

  method Precede(catalog: Catalog, w: Window, x: Fields, y: Fields, ghost px: Key, ghost py: Key) returns (b: bool)
    requires PlaceKey(catalog, w.orderBy, x) == Some(px) && PlaceKey(catalog, w.orderBy, y) == Some(py)
    ensures b <==> Compare(px, py) == Less
  {
    hide Compare, PlaceKey, CompareByKeys;
    CompareByPlace(catalog, w.orderBy, x, y);
    var o := CompareByKeys(catalog, w.orderBy, x, y);
    DecidesIsCompare(px, py, o.value);
    return o == Some(Less);
  }

  lemma StillInput(rows: seq<Fields>, input: seq<Fields>, sorted: seq<nat>, ids: seq<nat>, i: nat)
    requires |rows| == |input| && i <= |ids|
    requires forall a :: 0 <= a < |ids| ==> ids[a] < |rows| && rows[ids[a]] == input[ids[a]]
    requires forall j :: j in sorted <==> j in ids[..i]
    ensures forall a :: 0 <= a < |sorted| ==> sorted[a] < |rows| && rows[sorted[a]] == input[sorted[a]]
  {
    forall a | 0 <= a < |sorted| ensures sorted[a] < |rows| && rows[sorted[a]] == input[sorted[a]] {
      assert sorted[a] in ids[..i];
      var b :| 0 <= b < i && ids[..i][b] == sorted[a];
    }
  }
}
