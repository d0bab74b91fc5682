/** Rows selected from a sequence in its order. */
module Selections {
  import opened Schema
  import opened IndexScan

  /** `x` stands before `y` in `s`. */
  ghost predicate Before(s: seq<Row>, x: Row, y: Row) {
    exists i, j :: 0 <= i < j < |s| && s[i] == x && s[j] == y
  }

  ghost predicate InOrderOf(s: seq<Row>, r: seq<Row>) {
    forall i, j :: 0 <= i < j < |r| ==> Before(s, r[i], r[j])
  }

  lemma OwnOrder(s: seq<Row>)
    ensures InOrderOf(s, s)
  {
    forall i, j | 0 <= i < j < |s| ensures Before(s, s[i], s[j]) {}
  }

  lemma NotBefore(s: seq<Row>, x: Row, y: Row)
    requires Distinct(s) && Before(s, x, y)
    ensures x != y && !Before(s, y, x)
  {
    var i, j :| 0 <= i < j < |s| && s[i] == x && s[j] == y;
    forall a, b | 0 <= a < b < |s| ensures !(s[a] == y && s[b] == x) {}
  }

  /** Two selections of the same rows in one order are equal. */
  lemma {:induction false} SameSelection(s: seq<Row>, a: seq<Row>, b: seq<Row>)
    requires Distinct(s) && InOrderOf(s, a) && InOrderOf(s, b) && forall x :: x in a <==> x in b
    ensures a == b
    decreases |a|
  {
    hide Before, Distinct;
    if b != [] { assert b[0] in b; }
    if a != [] {
      assert a[0] in b;
      var k :| 0 <= k < |b| && b[k] == a[0];
      assert b[0] in a;
      var l :| 0 <= l < |a| && a[l] == b[0];
      if k > 0 && l > 0 { NotBefore(s, a[0], b[0]); }
      assert a[0] == b[0];
      SelectionTail(s, a);
      SelectionTail(s, b);
      SameSelection(s, a[1..], b[1..]);
      assert a == [a[0]] + a[1..] && b == [b[0]] + b[1..];
    }
  }

  lemma SelectionTail(s: seq<Row>, a: seq<Row>)
    requires Distinct(s) && InOrderOf(s, a) && a != []
    ensures InOrderOf(s, a[1..]) && forall x :: x in a[1..] <==> x in a && x != a[0]
  {
    hide Before, Distinct;
    forall i, j | 0 <= i < j < |a[1..]| ensures Before(s, a[1..][i], a[1..][j]) {
      assert a[1..][i] == a[i+1] && a[1..][j] == a[j+1];
    }
    forall x ensures x in a[1..] <==> x in a && x != a[0] {
      if x in a[1..] {
        var i :| 0 <= i < |a[1..]| && a[1..][i] == x;
        assert a[i+1] == x;
        NotBefore(s, a[0], a[i+1]);
      }
      if x in a && x != a[0] {
        var i :| 0 <= i < |a| && a[i] == x;
        assert a[1..][i-1] == x;
      }
    }
  }
}
