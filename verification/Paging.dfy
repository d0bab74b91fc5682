/** Pages of an ordered result: what one page holds, and walking a whole result by its
    cursors. A cursor is the tuple of sort values of one row. */
module Paging {
  import opened Bytes
  import opened Model
  import opened OrderedKey
  import opened Schema

  datatype OrderKey = OrderKey(column: string, descending: bool, ty: ScalarType)

  datatype Direction = Forward | Backward

  datatype PageRequest = PageRequest(limit: nat, direction: Direction, boundary: Option<seq<Value>>)

  datatype Page = Page(rows: seq<Fields>, hasMore: bool, next: Option<seq<Value>>, previous: Option<seq<Value>>)

  /** The cursor of a row. */
  function Cursor(order: seq<OrderKey>, row: Fields): Option<seq<Value>> {
    if order == [] then Some([]) else
    var v, rest := RowField(row, order[0].column), Cursor(order[1..], row);
    if v.None? || rest.None? then None else Some([v.value] + rest.value)
  }

  function CompareBoundary(
    catalog: Catalog, order: seq<OrderKey>, row: Fields, boundary: seq<Value>): Option<Ordering> {
    if order == [] || boundary == [] then Some(Equal) else
    var v := RowField(row, order[0].column);
    if v.None? then None else
    var o := CompareComponent(catalog, Component(order[0].ty, order[0].descending), v.value, boundary[0]);
    if o != Some(Equal) then o else CompareBoundary(catalog, order[1..], row, boundary[1..])
  }

  predicate Beyond(catalog: Catalog, order: seq<OrderKey>, row: Fields, q: PageRequest) {
    q.boundary.None? ||
    CompareBoundary(catalog, order, row, q.boundary.value) == Some(if q.direction == Forward then Greater else Less)
  }

  /** The rows on the asked side of the boundary. */
  function Eligible(catalog: Catalog, order: seq<OrderKey>, rows: seq<Fields>, q: PageRequest): seq<Fields> {
    if rows == [] then []
    else
      Eligible(catalog, order, rows[..|rows|-1], q) +
      if Beyond(catalog, order, rows[|rows|-1], q) then [rows[|rows|-1]] else []
  }

  /** Every row can be compared with the boundary and has a cursor. */
  ghost predicate Comparable(catalog: Catalog, order: seq<OrderKey>, rows: seq<Fields>, q: PageRequest) {
    && (forall r <- rows :: Cursor(order, r).Some?)
    && (q.boundary.Some? ==> forall r <- rows :: CompareBoundary(catalog, order, r, q.boundary.value).Some?)
  }

  /** The page of a list of eligible rows, nearest the boundary. */
  function PageOf(order: seq<OrderKey>, eligible: seq<Fields>, q: PageRequest): Page {
    var n := |eligible|;
    var more := n > q.limit;
    var rows := if !more then eligible else if q.direction == Forward then eligible[..q.limit]
    else eligible[n - q.limit..];
    var resumed := q.boundary.Some?;
    Page(rows, more,
      if rows != [] && (if q.direction == Forward then more else resumed) then Cursor(order, rows[|rows|-1]) else None,
      if rows != [] && (if q.direction == Forward then resumed else more) then Cursor(order, rows[0]) else None)
  }

  lemma {:induction false} EligibleSplit(
    catalog: Catalog, order: seq<OrderKey>, rows: seq<Fields>, q: PageRequest, i: nat)
    requires i <= |rows|
    ensures Eligible(catalog, order, rows, q) == Eligible(catalog, order, rows[..i], q) +
            Eligible(catalog, order, rows[i..], q)
  {
    hide Beyond;
    if i == |rows| {
      assert rows[..i] == rows && rows[i..] == [];
    } else {
      var n, tail := |rows| - 1, rows[i..];
      EligibleSplit(catalog, order, rows[..n], q, i);
      assert rows[..n][..i] == rows[..i] && rows[..n][i..] == tail[..|tail|-1] && tail[|tail|-1] == rows[n];
      var one := if Beyond(catalog, order, rows[n], q) then [rows[n]] else [];
      Regroup(Eligible(catalog, order, rows[..i], q), Eligible(catalog, order, tail[..|tail|-1], q), one);
    }
  }

  lemma EligiblePush(catalog: Catalog, order: seq<OrderKey>, rows: seq<Fields>, q: PageRequest, i: nat)
    requires i < |rows|
    ensures Eligible(catalog, order, rows[..i+1], q) ==
            Eligible(catalog, order, rows[..i], q) + if Beyond(catalog, order, rows[i], q) then [rows[i]] else []
  {
    hide Beyond;
    assert rows[..i+1][..i] == rows[..i];
  }

  lemma EligibleHead(catalog: Catalog, order: seq<OrderKey>, rows: seq<Fields>, q: PageRequest, i: nat)
    requires i < |rows|
    ensures Eligible(catalog, order, rows[i..], q) ==
            (if Beyond(catalog, order, rows[i], q) then [rows[i]] else []) + Eligible(catalog, order, rows[i+1..], q)
  {
    hide Beyond;
    EligibleSplit(catalog, order, rows[i..], q, 1);
    assert rows[i..][..1] == [rows[i]] && rows[i..][1..] == rows[i+1..];
    assert [rows[i]][..0] == [];
    assert Eligible(catalog, order, [], q) == [];
  }

  lemma EligibleNothing(catalog: Catalog, order: seq<OrderKey>, q: PageRequest)
    ensures Eligible(catalog, order, [], q) == []
  {}

  /** The selection, from the boundary outwards, gets as far as row `i`. */
  ghost predicate Reaches(catalog: Catalog, order: seq<OrderKey>, rows: seq<Fields>, q: PageRequest, i: nat)
    requires i < |rows|
  {
    |Eligible(catalog, order, if q.direction == Forward then rows[..i] else rows[i+1..], q)| <= q.limit
  }

  /** A row the selection reaches cannot be compared with the boundary. */
  ghost predicate Incomparable(catalog: Catalog, order: seq<OrderKey>, rows: seq<Fields>, q: PageRequest) {
    exists i :: 0 <= i < |rows| && Reaches(catalog, order, rows, q, i) && Fails(catalog, order, rows[i], q)
  }

  predicate Fails(catalog: Catalog, order: seq<OrderKey>, row: Fields, q: PageRequest) {
    q.boundary.Some? && CompareBoundary(catalog, order, row, q.boundary.value).None?
  }

  /** A cursor the page has to carry cannot be taken from its row. */
  ghost predicate Unplaceable(order: seq<OrderKey>, page: Page, q: PageRequest) {
    page.rows != [] &&
    (((if q.direction == Forward then page.hasMore else q.boundary.Some?) && page.next.None?) ||
     ((if q.direction == Forward then q.boundary.Some? else page.hasMore) && page.previous.None?))
  }

  /** Select one row more than the page holds, from the boundary outwards. */
  method ApplyPage(catalog: Catalog, order: seq<OrderKey>, rows: seq<Fields>, q: PageRequest) returns (r: Option<Page>)
    requires q.limit >= 1
    ensures var page := PageOf(order, Eligible(catalog, order, rows, q), q);
            r == if Incomparable(catalog, order, rows, q) || Unplaceable(order, page, q) then None else Some(page)
    ensures Comparable(catalog, order, rows, q) ==> r.Some?
  {
    hide Cursor, Eligible, Fails, PageOf, Nearest, Incomparable;
    ghost var eligible := Eligible(catalog, order, rows, q);
    EligibleMembers(catalog, order, rows, q);
    ComparableRows(catalog, order, rows, q);
    hide Comparable, Beyond;
    var found: Option<seq<Fields>>;
    if q.direction == Forward {
      found := FirstEligible(catalog, order, rows, q);
    } else {
      found := LastEligible(catalog, order, rows, q);
    }
    if found.None? { return None; }
    var selected := found.value;
    Trimmed(order, eligible, q);
    var more := |selected| > q.limit;
    if more {
      selected := if q.direction == Forward then selected[..|selected|-1] else selected[1..];
    }
    PageShape(order, eligible, q);
    var next, previous := None, None;
    if selected != [] && (if q.direction == Forward then q.boundary.Some? else more) {
      previous := Cursor(order, selected[0]);
      if previous.None? { return None; }
    }
    if selected != [] && (if q.direction == Forward then more else q.boundary.Some?) {
      next := Cursor(order, selected[|selected|-1]);
      if next.None? { return None; }
    }
    return Some(Page(selected, more, next, previous));
  }

  lemma ComparableRows(catalog: Catalog, order: seq<OrderKey>, rows: seq<Fields>, q: PageRequest)
    ensures Comparable(catalog, order, rows, q) ==> !Incomparable(catalog, order, rows, q)
    ensures Comparable(catalog, order, rows, q) ==>
            forall x <- Eligible(catalog, order, rows, q) :: Cursor(order, x).Some?
  {
    hide Cursor, CompareBoundary, Beyond, Eligible;
    EligibleMembers(catalog, order, rows, q);
  }

  /** One row more than the page, nearest the boundary. */
  function Nearest(eligible: seq<Fields>, q: PageRequest): seq<Fields> {
    var n := |eligible|;
    if n <= q.limit + 1 then eligible
    else if q.direction == Forward then eligible[..q.limit + 1] else eligible[n - q.limit - 1..]
  }

  lemma Trimmed(order: seq<OrderKey>, eligible: seq<Fields>, q: PageRequest)
    requires q.limit >= 1
    ensures var page, near := PageOf(order, eligible, q), Nearest(eligible, q);
            && (page.hasMore <==> |near| > q.limit)
            && page.rows == if !page.hasMore then near else if q.direction == Forward then near[..|near|-1]
            else near[1..]
  {
    hide Cursor;
  }

  /** One row more than the page, nearest the boundary, makes the same page. */
  lemma NearestSamePage(order: seq<OrderKey>, eligible: seq<Fields>, q: PageRequest)
    requires q.limit >= 1
    ensures PageOf(order, Nearest(eligible, q), q) == PageOf(order, eligible, q)
  {
    hide Cursor;
  }

  lemma PageShape(order: seq<OrderKey>, eligible: seq<Fields>, q: PageRequest)
    ensures var page, resumed := PageOf(order, eligible, q), q.boundary.Some?;
            && (forall x <- page.rows :: x in eligible)
            && page.next == (if page.rows != [] && (if q.direction == Forward then page.hasMore else resumed)
                             then Cursor(order, page.rows[|page.rows|-1]) else None)
            && page.previous == (if page.rows != [] && (if q.direction == Forward then resumed else page.hasMore)
                                 then Cursor(order, page.rows[0]) else None)
  {
    hide Cursor;
  }

  lemma {:induction false} EligibleMembers(catalog: Catalog, order: seq<OrderKey>, rows: seq<Fields>, q: PageRequest)
    ensures forall r :: r in Eligible(catalog, order, rows, q) <==> r in rows && Beyond(catalog, order, r, q)
  {
    hide Beyond;
    if rows != [] {
      EligibleMembers(catalog, order, rows[..|rows|-1], q);
      assert rows == rows[..|rows|-1] + [rows[|rows|-1]];
    }
  }

  method FirstEligible(catalog: Catalog, order: seq<OrderKey>, rows: seq<Fields>, q: PageRequest)
    returns (r: Option<seq<Fields>>)
    requires q.direction == Forward
    ensures r == if Incomparable(catalog, order, rows, q) then None
                 else Some(Nearest(Eligible(catalog, order, rows, q), q))
  {
    hide Beyond, Eligible, Fails;
    var selected: seq<Fields> := [];
    EligibleNothing(catalog, order, q);
    for i := 0 to |rows|
      invariant selected == Eligible(catalog, order, rows[..i], q) && |selected| < q.limit + 1
      invariant forall j :: 0 <= j < i ==> !Fails(catalog, order, rows[j], q)
    {
      EligiblePush(catalog, order, rows, q, i);
      assert Reaches(catalog, order, rows, q, i);
      if Fails(catalog, order, rows[i], q) { return None; }
      if Beyond(catalog, order, rows[i], q) {
        selected := selected + [rows[i]];
        if |selected| == q.limit + 1 {
          EligibleSplit(catalog, order, rows, q, i + 1);
          assert forall j :: i < j < |rows| ==> !Reaches(catalog, order, rows, q, j) by {
            NoFurther(catalog, order, rows, q, i + 1);
          }
          assert selected == Nearest(Eligible(catalog, order, rows, q), q);
          return Some(selected);
        }
      }
    }
    assert rows[..|rows|] == rows;
    return Some(selected);
  }

  lemma NoFurther(catalog: Catalog, order: seq<OrderKey>, rows: seq<Fields>, q: PageRequest, n: nat)
    requires q.direction == Forward && n <= |rows| && |Eligible(catalog, order, rows[..n], q)| > q.limit
    ensures forall j :: n <= j < |rows| ==> !Reaches(catalog, order, rows, q, j)
  {
    hide Beyond, Eligible;
    forall j | n <= j < |rows| ensures !Reaches(catalog, order, rows, q, j) {
      EligibleSplit(catalog, order, rows[..j], q, n);
      assert rows[..j][..n] == rows[..n];
    }
  }

  method LastEligible(catalog: Catalog, order: seq<OrderKey>, rows: seq<Fields>, q: PageRequest)
    returns (r: Option<seq<Fields>>)
    requires q.direction == Backward
    ensures r == if Incomparable(catalog, order, rows, q) then None
                 else Some(Nearest(Eligible(catalog, order, rows, q), q))
  {
    hide Beyond, Eligible, Fails;
    var selected: seq<Fields> := [];
    EligibleNothing(catalog, order, q);
    assert rows[|rows|..] == [];
    for i := |rows| downto 0
      invariant selected == Eligible(catalog, order, rows[i..], q) && |selected| < q.limit + 1
      invariant forall j :: i <= j < |rows| ==> !Fails(catalog, order, rows[j], q)
    {
      EligibleHead(catalog, order, rows, q, i);
      assert Reaches(catalog, order, rows, q, i);
      if Fails(catalog, order, rows[i], q) { return None; }
      if Beyond(catalog, order, rows[i], q) {
        selected := [rows[i]] + selected;
        if |selected| == q.limit + 1 {
          EligibleSplit(catalog, order, rows, q, i);
          assert forall j :: 0 <= j < i ==> !Reaches(catalog, order, rows, q, j) by {
            NoEarlier(catalog, order, rows, q, i);
          }
          assert selected == Nearest(Eligible(catalog, order, rows, q), q);
          return Some(selected);
        }
      }
    }
    assert rows[0..] == rows;
    return Some(selected);
  }

  lemma NoEarlier(catalog: Catalog, order: seq<OrderKey>, rows: seq<Fields>, q: PageRequest, n: nat)
    requires q.direction == Backward && n <= |rows| && |Eligible(catalog, order, rows[n..], q)| > q.limit
    ensures forall j :: 0 <= j < n ==> !Reaches(catalog, order, rows, q, j)
  {
    hide Beyond, Eligible;
    forall j | 0 <= j < n ensures !Reaches(catalog, order, rows, q, j) {
      EligibleSplit(catalog, order, rows[j+1..], q, n - j - 1);
      assert rows[j+1..][n-j-1..] == rows[n..];
    }
  }

  // ---- Pages of a strictly ordered result -------------------------------------------------------

  /** The result's order is the comparison: each row's cursor places every other row
      before or after it. */
  ghost predicate Strict(catalog: Catalog, order: seq<OrderKey>, rows: seq<Fields>) {
    && (forall i :: 0 <= i < |rows| ==> Cursor(order, rows[i]).Some?)
    && (forall i, j :: 0 <= i < |rows| && 0 <= j < |rows| ==>
          CompareBoundary(catalog, order, rows[i], Cursor(order, rows[j]).value) == Some(CompareInt(i, j)))
  }

  /** Before the first row, or at one of the rows. */
  ghost predicate At(order: seq<OrderKey>, rows: seq<Fields>, boundary: Option<seq<Value>>, k: nat)
  {
    boundary.Some? ==> k < |rows| && Cursor(order, rows[k]) == boundary
  }

  lemma {:induction false} EligibleFrom(
    catalog: Catalog, order: seq<OrderKey>, rows: seq<Fields>, q: PageRequest, k: nat, n: nat)
    requires Strict(catalog, order, rows) && q.boundary.Some? && At(order, rows, q.boundary, k) && n <= |rows|
    ensures Eligible(catalog, order, rows[..n], q) ==
            if q.direction == Forward then (if n <= k then [] else rows[k+1..n])
            else (if n <= k then rows[..n] else rows[..k])
  {
    hide CompareBoundary, Cursor, Eligible;
    if n == 0 {
      EligibleNothing(catalog, order, q);
    } else {
      EligibleFrom(catalog, order, rows, q, k, n - 1);
      EligiblePush(catalog, order, rows, q, n - 1);
      assert CompareBoundary(catalog, order, rows[n-1], Cursor(order, rows[k]).value) == Some(CompareInt(n - 1, k));
    }
  }

  lemma {:induction false} EligibleAll(catalog: Catalog, order: seq<OrderKey>, rows: seq<Fields>, q: PageRequest)
    requires q.boundary.None?
    ensures Eligible(catalog, order, rows, q) == rows
  {
    if rows != [] {
      EligibleAll(catalog, order, rows[..|rows|-1], q);
      assert rows == rows[..|rows|-1] + [rows[|rows|-1]];
    }
  }

  /** A forward page starts right after its boundary and stops after `limit` rows;
      `hasMore` says exactly whether rows remain. */
  lemma ForwardPage(
    catalog: Catalog, order: seq<OrderKey>, rows: seq<Fields>, limit: nat, boundary: Option<seq<Value>>, k: nat)
    requires Strict(catalog, order, rows) && limit >= 1 && At(order, rows, boundary, k)
    ensures var q := PageRequest(limit, Forward, boundary);
            var page, start := PageOf(order, Eligible(catalog, order, rows, q), q), if boundary.Some? then k + 1 else 0;
            var end := if start + limit <= |rows| then start + limit else |rows|;
            && start <= |rows| && Comparable(catalog, order, rows, q)
            && page.rows == rows[start..end] && (page.hasMore <==> end < |rows|)
            && (page.next.Some? <==> page.hasMore)
            && page.next == (if end < |rows| then Cursor(order, rows[end-1]) else None)
            && page.previous == (if boundary.Some? && start < |rows| then Cursor(order, rows[start]) else None)
  {
    hide CompareBoundary, Cursor, Eligible, PageOf;
    var q := PageRequest(limit, Forward, boundary);
    PlacedComparable(catalog, order, rows, q, k);
    if boundary.Some? {
      EligibleFrom(catalog, order, rows, q, k, |rows|);
      assert rows[..|rows|] == rows && rows[k+1..|rows|] == rows[k+1..];
      ForwardShape(order, rows, q, k + 1);
    } else {
      EligibleAll(catalog, order, rows, q);
      assert rows[0..] == rows;
      ForwardShape(order, rows, q, 0);
    }
  }

  lemma ForwardShape(order: seq<OrderKey>, rows: seq<Fields>, q: PageRequest, start: nat)
    requires start <= |rows| && q.limit >= 1 && q.direction == Forward
    requires forall i :: 0 <= i < |rows| ==> Cursor(order, rows[i]).Some?
    ensures var page := PageOf(order, rows[start..], q);
            var end := if start + q.limit <= |rows| then start + q.limit else |rows|;
            && page.rows == rows[start..end] && (page.hasMore <==> end < |rows|)
            && (page.next.Some? <==> page.hasMore)
            && page.next == (if end < |rows| then Cursor(order, rows[end-1]) else None)
            && page.previous == (if q.boundary.Some? && start < |rows| then Cursor(order, rows[start]) else None)
  {
    hide Cursor;
    var page, end := PageOf(order, rows[start..], q), if start + q.limit <= |rows| then start + q.limit else |rows|;
    assert page.rows == rows[start..end];
    assert page.rows != [] ==> page.rows[0] == rows[start] && page.rows[|page.rows|-1] == rows[end-1];
  }

  lemma BackwardShape(order: seq<OrderKey>, rows: seq<Fields>, q: PageRequest, end: nat)
    requires end <= |rows| && q.limit >= 1 && q.direction == Backward
    requires forall i :: 0 <= i < |rows| ==> Cursor(order, rows[i]).Some?
    ensures var page := PageOf(order, rows[..end], q);
            var start := if end >= q.limit then end - q.limit else 0;
            && page.rows == rows[start..end] && (page.hasMore <==> start > 0)
            && page.previous == (if start > 0 then Cursor(order, rows[start]) else None)
            && page.next == (if q.boundary.Some? && end > 0 then Cursor(order, rows[end-1]) else None)
  {
    hide Cursor;
    var page, start := PageOf(order, rows[..end], q), if end >= q.limit then end - q.limit else 0;
    assert page.rows == rows[start..end];
    assert page.rows != [] ==> page.rows[0] == rows[start] && page.rows[|page.rows|-1] == rows[end-1];
  }

  lemma BackwardPage(
    catalog: Catalog, order: seq<OrderKey>, rows: seq<Fields>, limit: nat, boundary: Option<seq<Value>>, k: nat)
    requires Strict(catalog, order, rows) && limit >= 1 && At(order, rows, boundary, k)
    ensures var q := PageRequest(limit, Backward, boundary);
            var page, end := PageOf(order, Eligible(catalog, order, rows, q), q), if boundary.Some? then k else |rows|;
            var start := if end >= limit then end - limit else 0;
            && Comparable(catalog, order, rows, q)
            && page.rows == rows[start..end] && (page.hasMore <==> start > 0)
            && page.previous == (if start > 0 then Cursor(order, rows[start]) else None)
            && page.next == (if boundary.Some? && end > 0 then Cursor(order, rows[end-1]) else None)
  {
    hide CompareBoundary, Cursor, Eligible, PageOf;
    var q := PageRequest(limit, Backward, boundary);
    PlacedComparable(catalog, order, rows, q, k);
    assert rows[..|rows|] == rows;
    if boundary.Some? {
      EligibleFrom(catalog, order, rows, q, k, |rows|);
      BackwardShape(order, rows, q, k);
    } else {
      EligibleAll(catalog, order, rows, q);
      BackwardShape(order, rows, q, |rows|);
    }
  }

  lemma PlacedComparable(catalog: Catalog, order: seq<OrderKey>, rows: seq<Fields>, q: PageRequest, k: nat)
    requires Strict(catalog, order, rows) && At(order, rows, q.boundary, k)
    ensures Comparable(catalog, order, rows, q)
  {
    hide CompareBoundary, Cursor;
    if q.boundary.Some? {
      forall r <- rows ensures CompareBoundary(catalog, order, r, q.boundary.value).Some? {
        var i :| 0 <= i < |rows| && rows[i] == r;
        assert CompareBoundary(catalog, order, rows[i], Cursor(order, rows[k]).value) == Some(CompareInt(i, k));
      }
    }
  }

  /** How many pages a walk over `n` rows takes; an empty result is one empty page. */
  ghost function PageCount(n: nat, limit: nat): nat
    requires limit >= 1
  {
    if n <= limit then 1 else 1 + PageCount(n - limit, limit)
  }

  lemma {:induction false} CountPages(n: nat, limit: nat)
    requires limit >= 1
    ensures PageCount(n, limit) == if n == 0 then 1 else (n + limit - 1) / limit
  {
    if n > limit {
      CountPages(n - limit, limit);
      OneMore(n - 1, limit);
    } else if n > 0 {
      OneMore(n - 1, limit);
      Small(n - 1, limit);
    }
  }

  lemma OneMore(x: nat, d: nat)
    requires d >= 1
    ensures (x + d) / d == x / d + 1
  {
    var q := x / d;
    assert x == q * d + x % d;
    assert (q + 1) * d == q * d + d;
    Quotient(x + d, d, q + 1);
  }

  lemma Quotient(x: nat, d: nat, q: nat)
    requires d >= 1 && q * d <= x < q * d + d
    ensures x / d == q
  {
    MulMono(x / d + 1, q, d);
    MulMono(q + 1, x / d, d);
  }

  lemma MulMono(a: nat, b: nat, d: nat)
    ensures a <= b ==> a * d <= b * d
  {}

  lemma Small(x: nat, d: nat)
    requires x < d
    ensures x / d == 0
  {}

  /** One page of a walk that has visited the first `start` rows. */
  method WalkPage(
    catalog: Catalog, order: seq<OrderKey>, rows: seq<Fields>, limit: nat, boundary: Option<seq<Value>>,
    ghost start: nat) returns (page: Page)
    requires Strict(catalog, order, rows) && limit >= 1 && start <= |rows|
    requires if start == 0 then boundary.None? else boundary.Some? && At(order, rows, boundary, start - 1)
    ensures start + |page.rows| <= |rows| && page.rows == rows[start..start + |page.rows|]
    ensures page.hasMore <==> start + limit < |rows|
    ensures |page.rows| == if page.hasMore then limit else |rows| - start
    ensures page.next.Some? <==> page.hasMore
    ensures page.hasMore ==> At(order, rows, page.next, start + limit - 1)
  {
    hide CompareBoundary, Cursor, Strict, Eligible, PageOf;
    ghost var k := if start == 0 then 0 else start - 1;
    ForwardPage(catalog, order, rows, limit, boundary, k);
    var r := ApplyPage(catalog, order, rows, PageRequest(limit, Forward, boundary));
    return r.value;
  }

  /** Following next from the first page ends, and the pages concatenate to the whole
      result: no row is skipped or repeated. */
  method WalkForward(catalog: Catalog, order: seq<OrderKey>, rows: seq<Fields>, limit: nat)
    returns (pages: seq<Page>, all: seq<Fields>)
    requires Strict(catalog, order, rows) && limit >= 1
    ensures all == rows
    ensures |pages| == if |rows| == 0 then 1 else (|rows| + limit - 1) / limit
    ensures forall i :: 0 <= i < |pages| ==> (pages[i].hasMore <==> i < |pages| - 1)
    ensures forall i :: 0 <= i < |pages| - 1 ==> |pages[i].rows| == limit
  {
    hide Strict, At;
    var boundary: Option<seq<Value>> := None;
    pages, all := [], [];
    var more := true;
    while more
      invariant |all| <= |rows| && all == rows[..|all|]
      invariant more ==> if |all| == 0 then boundary.None? else boundary.Some? && At(order, rows, boundary, |all| - 1)
      invariant more ==> |pages| + PageCount(|rows| - |all|, limit) == PageCount(|rows|, limit)
      invariant !more ==> |pages| == PageCount(|rows|, limit) && all == rows
      invariant more ==> forall i :: 0 <= i < |pages| ==> pages[i].hasMore && |pages[i].rows| == limit
      invariant !more ==> pages != [] && !pages[|pages|-1].hasMore
      invariant !more ==> forall i :: 0 <= i < |pages| - 1 ==> pages[i].hasMore && |pages[i].rows| == limit
      decreases more, |rows| - |all|
    {
      var page := WalkPage(catalog, order, rows, limit, boundary, |all|);
      assert rows[..|all|] + page.rows == rows[..|all| + |page.rows|];
      pages, all := pages + [page], all + page.rows;
      boundary, more := page.next, page.next.Some?;
    }
    CountPages(|rows|, limit);
  }

  /** The page in front of the row at `end`. */
  method PageBefore(
    catalog: Catalog, order: seq<OrderKey>, rows: seq<Fields>, limit: nat, boundary: Option<seq<Value>>,
    ghost end: nat) returns (page: Page)
    requires Strict(catalog, order, rows) && limit >= 1 && limit <= end < |rows|
    requires boundary.Some? && boundary == Cursor(order, rows[end])
    ensures page.rows == rows[end - limit..end] && (page.hasMore <==> end > limit)
    ensures page.next == Cursor(order, rows[end-1])
    ensures page.previous == if end > limit then Cursor(order, rows[end - limit]) else None
  {
    hide CompareBoundary, Cursor, Strict, Eligible, PageOf;
    BackwardPage(catalog, order, rows, limit, boundary, end);
    var r := ApplyPage(catalog, order, rows, PageRequest(limit, Backward, boundary));
    return r.value;
  }

  /** The page behind a boundary with more than `limit` rows behind it. */
  method PageAfter(
    catalog: Catalog, order: seq<OrderKey>, rows: seq<Fields>, limit: nat, boundary: Option<seq<Value>>,
    ghost start: nat) returns (page: Page)
    requires Strict(catalog, order, rows) && limit >= 1 && start < |rows|
    requires if start == 0 then boundary.None? else boundary.Some? && At(order, rows, boundary, start - 1)
    ensures start + limit < |rows| ==> page.hasMore && page.rows == rows[start..start + limit]
    ensures start + limit < |rows| ==> page.next == Cursor(order, rows[start + limit - 1])
    ensures page.previous == if boundary.Some? then Cursor(order, rows[start]) else None
  {
    hide CompareBoundary, Cursor, Strict, Eligible, PageOf;
    ForwardPage(catalog, order, rows, limit, boundary, if start == 0 then 0 else start - 1);
    var r := ApplyPage(catalog, order, rows, PageRequest(limit, Forward, boundary));
    return r.value;
  }

  /** Going to the next page and then to the previous one returns the same page, with the
      same cursors. */
  method NextThenPrevious(
    catalog: Catalog, order: seq<OrderKey>, rows: seq<Fields>, limit: nat, boundary: Option<seq<Value>>,
    ghost start: nat) returns (first: Page, again: Page)
    requires Strict(catalog, order, rows) && limit >= 1 && start + limit < |rows|
    requires if start == 0 then boundary.None? else boundary.Some? && At(order, rows, boundary, start - 1)
    ensures first.rows == rows[start..start + limit] && again.rows == first.rows
    ensures again.next == first.next && again.previous == first.previous
    ensures first.hasMore && (again.hasMore <==> boundary.Some?)
  {
    hide CompareBoundary, Cursor, Eligible, PageOf;
    assert forall i :: 0 <= i < |rows| ==> Cursor(order, rows[i]).Some?;
    hide Strict;
    first := PageAfter(catalog, order, rows, limit, boundary, start);
    var next := PageAfter(catalog, order, rows, limit, first.next, start + limit);
    again := PageBefore(catalog, order, rows, limit, next.previous, start + limit);
  }
}
