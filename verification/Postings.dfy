/** Postings: an index as an ordered map from key to the ascending row IDs filed under
    it, against the plain map from row ID to key. */
module Postings {
  import opened OrderedKey
  import opened Schema

  type Posting = map<Key, seq<RowId>>

  type Filing = map<RowId, Key>

  predicate Ascending(ids: seq<RowId>) {
    forall i, j :: 0 <= i < j < |ids| ==> ids[i] < ids[j]
  }

  predicate Has(p: Posting, k: Key, id: RowId) {
    k in p && id in p[k]
  }

  /** The posting lists, under every key, exactly the rows filed there, each once and in
      ID order, and has no empty entry. */
  ghost predicate Lists(p: Posting, f: Filing) {
    && (forall k <- p :: p[k] != [] && Ascending(p[k]))
    && (forall k, id :: Has(p, k, id) ==> id in f && f[id] == k)
    && (forall id <- f :: Has(p, f[id], id))
  }

  ghost predicate Injective(f: Filing) {
    forall a <- f, b <- f :: f[a] == f[b] ==> a == b
  }

  lemma {:induction false} AscendingUnique(a: seq<RowId>, b: seq<RowId>)
    requires Ascending(a) && Ascending(b) && forall x :: x in a <==> x in b
    ensures a == b
    decreases |a|
  {
    if b != [] { assert b[0] in b; }
    if a != [] {
      assert a[0] in b;
      assert b[0] in b;
      assert a[0] == b[0];
      TailMembers(a);
      TailMembers(b);
      AscendingUnique(a[1..], b[1..]);
      assert a == [a[0]] + a[1..] && b == [b[0]] + b[1..];
    }
  }

  lemma TailMembers(a: seq<RowId>)
    requires a != [] && Ascending(a)
    ensures forall x :: x in a[1..] <==> x in a && x != a[0]
  {
    forall x ensures x in a[1..] <==> x in a && x != a[0] {
      if x in a && x != a[0] {
        var i :| 0 <= i < |a| && a[i] == x;
        assert a[1..][i-1] == x;
      }
    }
  }

  /** A filing has one posting: any two ways of building it agree. */
  lemma ListsUnique(p: Posting, q: Posting, f: Filing)
    requires Lists(p, f) && Lists(q, f)
    ensures p == q
  {
    forall k, id ensures Has(p, k, id) <==> Has(q, k, id) {}
    forall k <- p ensures k in q { assert Has(p, k, p[k][0]); }
    forall k <- q ensures k in p { assert Has(q, k, q[k][0]); }
    forall k <- p ensures p[k] == q[k] {
      forall id ensures id in p[k] <==> id in q[k] { assert Has(p, k, id) <==> Has(q, k, id); }
      AscendingUnique(p[k], q[k]);
    }
  }

  /** Where `id` is, or would be inserted: the number of smaller IDs. */
  function Rank(ids: seq<RowId>, id: RowId): (r: nat)
    requires Ascending(ids)
    ensures r <= |ids|
    ensures forall i :: 0 <= i < r ==> ids[i] < id
    ensures forall i :: r <= i < |ids| ==> id <= ids[i]
  {
    if ids == [] || id <= ids[0] then 0 else 1 + Rank(ids[1..], id)
  }

  lemma RankFinds(ids: seq<RowId>, id: RowId)
    requires Ascending(ids) && id in ids
    ensures Rank(ids, id) < |ids| && ids[Rank(ids, id)] == id
  {
    var i :| 0 <= i < |ids| && ids[i] == id;
    var r := Rank(ids, id);
  }

  lemma {:induction false} RankUnique(ids: seq<RowId>, id: RowId, r: nat)
    requires Ascending(ids) && r <= |ids|
    requires forall i :: 0 <= i < r ==> ids[i] < id
    requires forall i :: r <= i < |ids| ==> id <= ids[i]
    ensures Rank(ids, id) == r
  {
    if ids != [] && ids[0] < id {
      RankUnique(ids[1..], id, r - 1);
    }
  }

  /** Binary search over posting IDs. */
  method Search(ids: seq<RowId>, id: RowId) returns (found: bool, position: nat)
    requires Ascending(ids)
    ensures found <==> id in ids
    ensures position == Rank(ids, id)
    ensures found ==> position < |ids| && ids[position] == id
  {
    var low, high := 0, |ids|;
    while low < high
      invariant 0 <= low <= high <= |ids|
      invariant forall i :: 0 <= i < low ==> ids[i] < id
      invariant forall i :: high <= i < |ids| ==> id <= ids[i]
    {
      var mid := (low + high) / 2;
      if ids[mid] < id { low := mid + 1; } else { high := mid; }
    }
    position := low;
    found := low < |ids| && ids[low] == id;
    RankUnique(ids, id, low);
    if id in ids { RankFinds(ids, id); }
  }

  function WithoutId(ids: seq<RowId>, id: RowId): seq<RowId>
    requires Ascending(ids) && id in ids
  {
    RankFinds(ids, id);
    ids[..Rank(ids, id)] + ids[Rank(ids, id) + 1..]
  }

  function WithId(ids: seq<RowId>, id: RowId): seq<RowId>
    requires Ascending(ids)
  {
    ids[..Rank(ids, id)] + [id] + ids[Rank(ids, id)..]
  }

  lemma WithoutIdMembers(ids: seq<RowId>, id: RowId)
    requires Ascending(ids) && id in ids
    ensures Ascending(WithoutId(ids, id))
    ensures forall x :: x in WithoutId(ids, id) <==> x in ids && x != id
  {
    RankFinds(ids, id);
    var r, left := Rank(ids, id), WithoutId(ids, id);
    assert forall a :: 0 <= a < |left| ==> left[a] == ids[if a < r then a else a + 1];
    forall x ensures x in left <==> x in ids && x != id {
      if x in ids && x != id {
        var j :| 0 <= j < |ids| && ids[j] == x;
        assert left[if j < r then j else j - 1] == x;
      }
    }
  }

  lemma WithIdMembers(ids: seq<RowId>, id: RowId)
    requires Ascending(ids) && id !in ids
    ensures Ascending(WithId(ids, id))
    ensures forall x :: x in WithId(ids, id) <==> x in ids || x == id
  {
    var r := Rank(ids, id);
    forall i | r <= i < |ids| ensures id < ids[i] { assert ids[i] in ids; }
    var left, right := ids[..r], ids[r..];
    assert ids == left + right;
    assert forall x :: x in ids <==> x in left || x in right;
    Squeeze(left, id, right);
  }

  lemma Squeeze(left: seq<RowId>, id: RowId, right: seq<RowId>)
    requires Ascending(left) && Ascending(right)
    requires (forall x <- left :: x < id) && (forall x <- right :: id < x)
    ensures Ascending(left + [id] + right)
    ensures forall x :: x in left + [id] + right <==> x in left || x == id || x in right
  {
    var all, r := left + [id] + right, |left|;
    forall i, j | 0 <= i < j < |all| ensures all[i] < all[j] {
      assert i < r ==> all[i] in left;
      assert j > r ==> all[j] == right[j - r - 1] && all[j] in right;
      assert i > r ==> all[i] == right[i - r - 1];
    }
  }

  /** One posting without the row; a key left empty disappears. */
  function Unlisted(p: Posting, k: Key, id: RowId): Posting
    requires k in p && Ascending(p[k]) && id in p[k]
  {
    var ids := WithoutId(p[k], id);
    if ids == [] then p - {k} else p[k := ids]
  }

  function Listed(p: Posting, k: Key, id: RowId): Posting
    requires k in p ==> Ascending(p[k])
  {
    p[k := WithId(if k in p then p[k] else [], id)]
  }

  lemma UnlistedFiling(p: Posting, f: Filing, id: RowId)
    requires Lists(p, f) && id in f
    ensures f[id] in p && id in p[f[id]] && Lists(Unlisted(p, f[id], id), f - {id})
  {
    hide WithoutId;
    var k := f[id];
    assert Has(p, k, id);
    WithoutIdMembers(p[k], id);
    var q, g := Unlisted(p, k, id), f - {id};
    forall x, y ensures Has(q, x, y) <==> Has(p, x, y) && !(x == k && y == id) {}
    forall y <- g ensures Has(q, g[y], y) { assert Has(p, f[y], y); }
    forall x, y | Has(q, x, y) ensures y in g && g[y] == x { assert Has(p, x, y); }
  }

  lemma ListedFiling(p: Posting, f: Filing, k: Key, id: RowId)
    requires Lists(p, f) && id !in f
    ensures Lists(Listed(p, k, id), f[id := k])
  {
    hide WithId;
    var ids := if k in p then p[k] else [];
    assert id !in ids by { assert !Has(p, k, id); }
    WithIdMembers(ids, id);
    var q, g := Listed(p, k, id), f[id := k];
    forall x, y ensures Has(q, x, y) <==> Has(p, x, y) || (x == k && y == id) {}
    forall y <- g ensures Has(q, g[y], y) { if y != id { assert Has(p, f[y], y); } }
    forall x, y | Has(q, x, y) ensures y in g && g[y] == x { assert y != id ==> Has(p, x, y); }
    assert q[k] != [] by { assert id in q[k]; }
  }
}
