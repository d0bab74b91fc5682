/** Reading an index: the order a scan produces, stopping early, and the agreement of
    index access with a full scan of the table. */
module IndexScan {
  import opened Bytes
  import opened Model
  import opened OrderedKey
  import opened KeyBounds
  import opened Schema
  import opened Postings
  import opened TableStore
  import opened Expressions

  // ---- The ordered map --------------------------------------------------------------------------

  predicate AscendingKeySeq(keys: seq<Key>) {
    forall i, j :: 0 <= i < j < |keys| ==> Compare(keys[i], keys[j]) == Less
  }

  /** The keys of the ordered map, in its iteration order. */
  ghost predicate KeysOf(p: Posting, keys: seq<Key>) {
    AscendingKeySeq(keys) && forall k :: k in keys <==> k in p
  }

  function InRange(keys: seq<Key>, b: Bounds): (r: seq<Key>)
    ensures forall k :: k in r <==> k in keys && Contains(b, k)
  {
    if keys == [] then []
    else (if Contains(b, keys[0]) then [keys[0]] else []) + InRange(keys[1..], b)
  }

  lemma {:induction false} InRangeAscending(keys: seq<Key>, b: Bounds)
    requires AscendingKeySeq(keys)
    ensures AscendingKeySeq(InRange(keys, b))
  {
    if keys != [] {
      InRangeAscending(keys[1..], b);
      var rest := InRange(keys[1..], b);
      forall j | 0 <= j < |rest| ensures Compare(keys[0], rest[j]) == Less {
        assert rest[j] in keys[1..];
        var m :| 0 <= m < |keys[1..]| && keys[1..][m] == rest[j];
        assert keys[m+1] == rest[j];
      }
    }
  }

  function Reversed<T(!new)>(s: seq<T>): (r: seq<T>)
    ensures |r| == |s|
    ensures forall i :: 0 <= i < |s| ==> r[i] == s[|s| - 1 - i]
    ensures forall x :: x in r <==> x in s
  {
    if s == [] then [] else
      assert s == [s[0]] + s[1..];
      Reversed(s[1..]) + [s[0]]
  }

  function Directed(ks: seq<Key>, reverse: bool): seq<Key> {
    if reverse then Reversed(ks) else ks
  }

  function Flatten(p: Posting, ks: seq<Key>): seq<RowId> {
    if ks == [] then [] else (if ks[0] in p then p[ks[0]] else []) + Flatten(p, ks[1..])
  }

  function ScanOrder(p: Posting, keys: seq<Key>, b: Bounds, reverse: bool): seq<RowId> {
    Flatten(p, Directed(InRange(keys, b), reverse))
  }

  function Cut<T>(s: seq<T>, limit: Option<nat>): seq<T> {
    if limit.None? || |s| <= limit.value then s else s[..limit.value]
  }

  lemma CutOfPrefix<T>(a: seq<T>, s: seq<T>, limit: nat)
    requires a <= s && |a| >= limit
    ensures Cut(a, Some(limit)) == Cut(s, Some(limit)) == s[..limit]
  {}

  lemma {:induction false} FlattenSplit(p: Posting, ks: seq<Key>, i: nat)
    requires i <= |ks|
    ensures Flatten(p, ks) == Flatten(p, ks[..i]) + Flatten(p, ks[i..])
  {
    if i == 0 {
      assert ks[..0] == [] && ks[0..] == ks;
    } else {
      FlattenSplit(p, ks[1..], i - 1);
      assert ks[1..][..i-1] == ks[..i][1..] && ks[1..][i-1..] == ks[i..];
    }
  }

  method AppendIds(hits: seq<RowId>, ids: seq<RowId>, limit: Option<nat>) returns (more: seq<RowId>, full: bool)
    requires limit.Some? ==> |hits| < limit.value
    ensures more == Cut(hits + ids, limit)
    ensures full <==> limit.Some? && |hits| + |ids| >= limit.value
  {
    more := hits;
    for j := 0 to |ids|
      invariant more == hits + ids[..j]
      invariant limit.Some? ==> |more| < limit.value
    {
      more := more + [ids[j]];
      if limit.Some? && |more| == limit.value {
        assert more == (hits + ids)[..limit.value];
        return more, true;
      }
    }
    assert ids[..|ids|] == ids;
    full := false;
  }

  lemma FlattenStep(p: Posting, ks: seq<Key>, i: nat)
    requires i < |ks| && ks[i] in p
    ensures Flatten(p, ks[..i+1]) == Flatten(p, ks[..i]) + p[ks[i]]
  {
    FlattenSplit(p, ks[..i+1], i);
    assert ks[..i+1][..i] == ks[..i] && ks[..i+1][i..] == [ks[i]];
    assert Flatten(p, [ks[i]]) == p[ks[i]] + Flatten(p, []);
  }

  /** Read at most `limit` entries of the range, key by key and row ID by row ID. */
  method ScanIndex(p: Posting, keys: seq<Key>, b: Bounds, reverse: bool, limit: Option<nat>) returns (hits: seq<RowId>)
    requires KeysOf(p, keys) && (limit.Some? ==> limit.value >= 1)
    ensures hits == Cut(ScanOrder(p, keys, b, reverse), limit)
  {
    hide Contains, AscendingKeySeq, Flatten, InRange, Directed, Cut;
    var ks := Directed(InRange(keys, b), reverse);
    assert forall k <- ks :: k in p by { DirectedMembers(InRange(keys, b), reverse); }
    hits := [];
    assert Flatten(p, ks[..0]) == [] by { NothingToFlatten(p); }
    for i := 0 to |ks|
      invariant hits == Flatten(p, ks[..i])
      invariant limit.Some? ==> |hits| < limit.value
    {
      assert ks[i] in ks;
      FlattenStep(p, ks, i);
      FlattenSplit(p, ks, i + 1);
      ghost var sofar := Flatten(p, ks[..i+1]);
      var full;
      hits, full := AppendIds(hits, p[ks[i]], limit);
      if full {
        CutOfPrefix(sofar, Flatten(p, ks), limit.value);
        return;
      }
      assert hits == sofar by { CutShort(sofar, limit); }
    }
    assert ks[..|ks|] == ks;
    CutShort(hits, limit);
  }

  lemma CutShort<T>(s: seq<T>, limit: Option<nat>)
    requires limit.Some? ==> |s| < limit.value
    ensures Cut(s, limit) == s
  {}

  lemma DirectedMembers(ks: seq<Key>, reverse: bool)
    ensures forall k :: k in Directed(ks, reverse) <==> k in ks
  {}

  lemma NothingToFlatten(p: Posting)
    ensures Flatten(p, []) == []
  {}

  // ---- The order of a scan ----------------------------------------------------------------------

  /** `x` comes before `y` in a scan: by key, and under one key by row ID. */
  ghost predicate Ahead(f: Filing, x: RowId, y: RowId, o: Ordering) {
    x in f && y in f && (Compare(f[x], f[y]) == o || (f[x] == f[y] && x < y))
  }

  lemma {:induction false} FlattenOrdered(p: Posting, f: Filing, ks: seq<Key>, o: Ordering)
    requires Lists(p, f) && (forall k <- ks :: k in p)
    requires forall i, j :: 0 <= i < j < |ks| ==> Compare(ks[i], ks[j]) == o
    ensures forall id :: id in Flatten(p, ks) <==> id in f && f[id] in ks
    ensures forall i, j :: 0 <= i < j < |Flatten(p, ks)| ==> Ahead(f, Flatten(p, ks)[i], Flatten(p, ks)[j], o)
  {
    hide Compare, Lists;
    if ks != [] {
      var k, rest := ks[0], Flatten(p, ks[1..]);
      FlattenOrdered(p, f, ks[1..], o);
      UnderKey(p, f, k);
      var ids, all := p[k], Flatten(p, ks);
      assert all == ids + rest;
      forall id ensures id in all <==> id in f && f[id] in ks {
        assert id in ids <==> Has(p, k, id);
        assert f.Keys == f.Keys;
        assert forall x :: x in ks <==> x == k || x in ks[1..];
      }
      forall i, j | 0 <= i < j < |all| ensures Ahead(f, all[i], all[j], o) {
        if j < |ids| {
          assert Has(p, k, ids[i]) && Has(p, k, ids[j]);
        } else {
          var y := rest[j - |ids|];
          assert all[j] == y && y in rest;
          if i < |ids| {
            assert Has(p, k, ids[i]);
            var m :| 0 <= m < |ks[1..]| && ks[1..][m] == f[y];
            assert ks[m+1] == f[y];
          } else {
            assert all[i] == rest[i - |ids|];
          }
        }
      }
    }
  }

  /** A scan reads exactly the rows filed in the range, each once, in key order (reversed
      when asked) and row ID order under one key. */
  lemma ScanMeaning(p: Posting, f: Filing, keys: seq<Key>, b: Bounds, reverse: bool)
    requires Lists(p, f) && KeysOf(p, keys)
    ensures forall id :: id in ScanOrder(p, keys, b, reverse) <==> id in f && Contains(b, f[id])
    ensures forall i, j :: 0 <= i < j < |ScanOrder(p, keys, b, reverse)| ==>
              Ahead(f, ScanOrder(p, keys, b, reverse)[i], ScanOrder(p, keys, b, reverse)[j],
                    if reverse then Greater else Less)
  {
    hide Compare, Lists, Contains, Flatten;
    var ks, o := Directed(InRange(keys, b), reverse), if reverse then Greater else Less;
    InRangeAscending(keys, b);
    forall i, j | 0 <= i < j < |ks| ensures Compare(ks[i], ks[j]) == o {
      if reverse { CompareReverse(ks[j], ks[i]); }
    }
    FlattenOrdered(p, f, ks, o);
    FiledKeys(p, f);
  }

  lemma FiledKeys(p: Posting, f: Filing)
    requires Lists(p, f)
    ensures forall id <- f :: f[id] in p
  {
    forall id <- f ensures f[id] in p { assert Has(p, f[id], id); }
  }

  ghost predicate Distinct<T>(s: seq<T>) {
    forall i, j :: 0 <= i < j < |s| ==> s[i] != s[j]
  }

  lemma ScanDistinct(p: Posting, f: Filing, keys: seq<Key>, b: Bounds, reverse: bool)
    requires Lists(p, f) && KeysOf(p, keys)
    ensures Distinct(ScanOrder(p, keys, b, reverse))
  {
    hide ScanOrder, Lists, KeysOf;
    ScanMeaning(p, f, keys, b, reverse);
    var s, o := ScanOrder(p, keys, b, reverse), if reverse then Greater else Less;
    forall i, j | 0 <= i < j < |s| ensures s[i] != s[j] {
      assert Ahead(f, s[i], s[j], o);
      CompareReverse(f[s[i]], f[s[i]]);
    }
  }

  // ---- Candidates -------------------------------------------------------------------------------

  function Eligible(b: Builtins, filters: seq<Condition>, rm: RowMap, hits: seq<RowId>): seq<RowId> {
    if hits == [] then []
    else
      var last := hits[|hits| - 1];
      Eligible(b, filters, rm, hits[..|hits| - 1]) +
      if last in rm && Passes(b, filters, RowResolver(rm[last])) == Some(true) then [last] else []
  }

  lemma NoneEligible(b: Builtins, filters: seq<Condition>, rm: RowMap)
    ensures Eligible(b, filters, rm, []) == []
  {}

  lemma EligiblePush(b: Builtins, filters: seq<Condition>, rm: RowMap, hits: seq<RowId>, last: RowId)
    ensures Eligible(b, filters, rm, hits + [last]) ==
            Eligible(b, filters, rm, hits) +
            if last in rm && Passes(b, filters, RowResolver(rm[last])) == Some(true) then [last] else []
  {
    hide Passes;
    assert (hits + [last])[..|hits|] == hits;
  }

  ghost predicate AllEvaluate(b: Builtins, filters: seq<Condition>, rm: RowMap) {
    forall id <- rm :: Passes(b, filters, RowResolver(rm[id])).Some?
  }

  lemma {:induction false} EligiblePrefix(b: Builtins, filters: seq<Condition>, rm: RowMap, hits: seq<RowId>, i: nat)
    requires i <= |hits|
    ensures |Eligible(b, filters, rm, hits[..i])| <= |Eligible(b, filters, rm, hits)|
    ensures Eligible(b, filters, rm, hits[..i]) <= Eligible(b, filters, rm, hits)
  {
    if i < |hits| {
      var n := |hits| - 1;
      EligiblePrefix(b, filters, rm, hits[..n], i);
      assert hits[..n][..i] == hits[..i];
    } else {
      assert hits[..i] == hits;
    }
  }

  /** The candidate loop: with a bound and filters before the sort, keep only rows that
      pass them and stop once enough are found. A repeated row ID would be a storage
      error; an error-free evaluation never reports one. */
  method SelectHits(b: Builtins, filters: seq<Condition>, rm: RowMap, hits: seq<RowId>, needed: Option<nat>)
    returns (r: Option<seq<RowId>>)
    requires Distinct(hits) && (needed.Some? ==> needed.value >= 1)
    ensures AllEvaluate(b, filters, rm) ==>
              r == Some(if needed.None? || filters == [] then Cut(hits, needed)
                        else Cut(Eligible(b, filters, rm, hits), needed))
  {
    hide Passes, Eligible, Cut;
    var selected: seq<RowId>, seen: set<RowId> := [], {};
    NoneEligible(b, filters, rm);
    var all := needed.None? || filters == [];
    for i := 0 to |hits|
      invariant seen == set id <- hits[..i]
      invariant selected == if all then hits[..i] else Eligible(b, filters, rm, hits[..i])
      invariant needed.Some? ==> |selected| < needed.value
    {
      var id := hits[i];
      assert id !in seen by { assert forall j :: 0 <= j < i ==> hits[j] != id; }
      if id in seen { return None; }
      seen := seen + {id};
      assert hits[..i+1] == hits[..i] + [id];
      EligiblePush(b, filters, rm, hits[..i], id);
      var eligible := all;
      if !all && id in rm {
        var x := Passes(b, filters, RowResolver(rm[id]));
        if x.None? { return None; }
        eligible := x == Some(true);
      }
      if eligible { selected := selected + [id]; }
      if needed.Some? && |selected| == needed.value {
        ghost var whole := if all then hits else Eligible(b, filters, rm, hits);
        EligiblePrefix(b, filters, rm, hits, i + 1);
        CutOfPrefix(selected, whole, needed.value);
        assert selected == whole[..needed.value];
        return Some(selected);
      }
    }
    assert hits[..|hits|] == hits;
    CutShort(selected, needed);
    return Some(selected);
  }
}
