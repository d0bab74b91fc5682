/** Byte strings: the lexicographic order used by every ordered map of encoded
    keys, fixed-width big-endian integers, and the relation "the two byte strings
    already decide the comparison", which is what makes concatenated key
    components comparable one after the other. */
module Bytes {

  type Byte = b: int | 0 <= b < 256

  datatype Ordering = Less | Equal | Greater {

    function Reverse(): Ordering {
      match this
      case Less => Greater
      case Equal => Equal
      case Greater => Less
    }

    /** Lexicographic continuation. */
    function Then(next: Ordering): Ordering {
      if this == Equal then next else this
    }
  }

  function CompareInt(a: int, b: int): Ordering {
    if a < b then Less else if a == b then Equal else Greater
  }

  function Compare(a: seq<Byte>, b: seq<Byte>): Ordering {
    if a == [] then (if b == [] then Equal else Less)
    else if b == [] then Greater
    else CompareInt(a[0], b[0]).Then(Compare(a[1..], b[1..]))
  }

  lemma Regroup<T>(a: seq<T>, b: seq<T>, c: seq<T>)
    ensures a + b + c == a + (b + c)
  {}

  predicate Precedes(a: seq<Byte>, b: seq<Byte>) {
    Compare(a, b) == Less
  }

  lemma {:induction false} CompareReverse(a: seq<Byte>, b: seq<Byte>)
    ensures Compare(b, a) == Compare(a, b).Reverse()
    ensures Compare(a, b) == Equal <==> a == b
  {
    if a != [] && b != [] {
      CompareReverse(a[1..], b[1..]);
      assert a == [a[0]] + a[1..] && b == [b[0]] + b[1..];
    }
  }

  lemma {:induction false} CompareTransitive(a: seq<Byte>, b: seq<Byte>, c: seq<Byte>)
    requires Compare(a, b) != Greater && Compare(b, c) != Greater
    ensures Compare(a, c) == Compare(a, b).Then(Compare(b, c))
  {
    if a != [] && b != [] && c != [] && a[0] == b[0] == c[0] {
      CompareTransitive(a[1..], b[1..], c[1..]);
    }
  }

  // ---- Deciding a comparison --------------------------------------------------------------------

  ghost predicate BelowAt(a: seq<Byte>, b: seq<Byte>, i: nat) {
    i < |a| && i < |b| && a[..i] == b[..i] && a[i] < b[i]
  }

  ghost predicate Below(a: seq<Byte>, b: seq<Byte>) {
    exists i: nat :: BelowAt(a, b, i)
  }

  /** `a` and `b` are equal, or they differ at a position inside both, so that no
      continuation can change the result. */
  ghost predicate Decides(a: seq<Byte>, b: seq<Byte>, o: Ordering) {
    match o
    case Equal => a == b
    case Less => Below(a, b)
    case Greater => Below(b, a)
  }

  lemma BelowExtends(a: seq<Byte>, b: seq<Byte>, c: seq<Byte>, d: seq<Byte>)
    requires Below(a, b)
    ensures Below(a + c, b + d)
  {
    var i: nat :| BelowAt(a, b, i);
    assert (a + c)[..i] == a[..i] && (b + d)[..i] == b[..i];
    assert BelowAt(a + c, b + d, i);
  }

  lemma BelowAfterPrefix(p: seq<Byte>, c: seq<Byte>, d: seq<Byte>)
    requires Below(c, d)
    ensures Below(p + c, p + d)
  {
    var i: nat :| BelowAt(c, d, i);
    var j := |p| + i;
    assert (p + c)[..j] == p + c[..i] && (p + d)[..j] == p + d[..i];
    assert BelowAt(p + c, p + d, j);
  }

  lemma DecidesConcat(a: seq<Byte>, b: seq<Byte>, o: Ordering, c: seq<Byte>, d: seq<Byte>, p: Ordering)
    requires Decides(a, b, o)
    requires o == Equal ==> Decides(c, d, p)
    ensures Decides(a + c, b + d, o.Then(p))
  {
    match o
    case Less => BelowExtends(a, b, c, d);
    case Greater => BelowExtends(b, a, d, c);
    case Equal =>
      match p
      case Equal =>
      case Less => BelowAfterPrefix(a, c, d);
      case Greater => BelowAfterPrefix(a, d, c);
  }

  lemma {:induction false} BelowIsLess(a: seq<Byte>, b: seq<Byte>, i: nat)
    requires BelowAt(a, b, i)
    ensures Compare(a, b) == Less
  {
    if i > 0 {
      assert a[0] == a[..i][0] == b[..i][0] == b[0];
      assert a[1..][..i-1] == a[..i][1..] && b[1..][..i-1] == b[..i][1..];
      BelowIsLess(a[1..], b[1..], i - 1);
    }
  }

  /** A decided comparison is the byte comparison, and it rules out that one
      string is a proper prefix of the other. */
  lemma DecidesIsCompare(a: seq<Byte>, b: seq<Byte>, o: Ordering)
    requires Decides(a, b, o)
    ensures Compare(a, b) == o
    ensures a <= b ==> a == b
    ensures b <= a ==> a == b
  {
    CompareReverse(a, b);
    match o
    case Equal =>
    case Less => var i: nat :| BelowAt(a, b, i); BelowIsLess(a, b, i);
    case Greater => var i: nat :| BelowAt(b, a, i); BelowIsLess(b, a, i);
  }

  // ---- Complement (descending components) -------------------------------------------------------

  function Complement(a: seq<Byte>): (c: seq<Byte>)
    ensures |c| == |a|
    ensures forall i :: 0 <= i < |a| ==> c[i] == 255 - a[i]
  {
    seq(|a|, i requires 0 <= i < |a| => 255 - a[i])
  }

  lemma ComplementBelow(a: seq<Byte>, b: seq<Byte>)
    requires Below(a, b)
    ensures Below(Complement(b), Complement(a))
  {
    var i: nat :| BelowAt(a, b, i);
    var x, y := Complement(a), Complement(b);
    forall j | 0 <= j < i ensures y[j] == x[j] {
      assert a[j] == a[..i][j] == b[..i][j] == b[j];
    }
    assert y[..i] == x[..i];
    assert BelowAt(y, x, i);
  }

  lemma ComplementReverses(a: seq<Byte>, b: seq<Byte>, o: Ordering)
    requires Decides(a, b, o)
    ensures Decides(Complement(a), Complement(b), o.Reverse())
  {
    match o
    case Equal =>
    case Less => ComplementBelow(a, b);
    case Greater => ComplementBelow(b, a);
  }

  // ---- Big-endian integers ----------------------------------------------------------------------

  function Pow256(k: nat): (p: nat)
    ensures p >= 1
  {
    if k == 0 then 1 else 256 * Pow256(k - 1)
  }

  lemma Pow256Values()
    ensures Pow256(1) == 0x100
    ensures Pow256(2) == 0x1_0000
    ensures Pow256(4) == 0x1_0000_0000
    ensures Pow256(8) == 0x1_0000_0000_0000_0000
    ensures Pow256(16) == 0x1_0000_0000_0000_0000_0000_0000_0000_0000
  {
    assert Pow256(4) == 256 * Pow256(3) == 0x1_0000_0000;
    assert Pow256(6) == 256 * Pow256(5) == 0x1_0000_0000_0000;
    assert Pow256(8) == 256 * Pow256(7) == 0x1_0000_0000_0000_0000;
    assert Pow256(12) == 256 * Pow256(11) && Pow256(11) == 256 * Pow256(10) && Pow256(10) == 256 * Pow256(9);
    assert Pow256(16) == 256 * Pow256(15) && Pow256(15) == 256 * Pow256(14) && Pow256(14) == 256 * Pow256(13);
  }

  function BigEndian(n: nat, width: nat): (b: seq<Byte>)
    ensures |b| == width
  {
    if width == 0 then [] else BigEndian(n / 256, width - 1) + [n % 256]
  }

  function FromBigEndian(b: seq<Byte>): (n: nat)
    ensures n < Pow256(|b|)
  {
    if b == [] then 0 else 256 * FromBigEndian(b[..|b|-1]) + b[|b|-1]
  }

  lemma {:induction false} BigEndianRoundTrip(n: nat, width: nat)
    requires n < Pow256(width)
    ensures FromBigEndian(BigEndian(n, width)) == n
  {
    if width > 0 {
      BigEndianRoundTrip(n / 256, width - 1);
      var b := BigEndian(n, width);
      assert b[..|b|-1] == BigEndian(n / 256, width - 1);
    }
  }

  lemma {:induction false} BigEndianOfRead(b: seq<Byte>)
    ensures BigEndian(FromBigEndian(b), |b|) == b
  {
    if b != [] {
      var front := b[..|b|-1];
      BigEndianOfRead(front);
      var n := FromBigEndian(b);
      assert n / 256 == FromBigEndian(front) && n % 256 == b[|b|-1];
      assert b == front + [b[|b|-1]];
    }
  }

  lemma {:induction false} BigEndianOrder(m: nat, n: nat, width: nat)
    requires m < Pow256(width) && n < Pow256(width)
    ensures Decides(BigEndian(m, width), BigEndian(n, width), CompareInt(m, n))
  {
    if width > 0 {
      BigEndianOrder(m / 256, n / 256, width - 1);
      var o, p := CompareInt(m / 256, n / 256), CompareInt(m % 256, n % 256);
      var x: seq<Byte>, y: seq<Byte> := [m % 256], [n % 256];
      SingleByteOrder(m % 256, n % 256);
      DecidesConcat(BigEndian(m / 256, width - 1), BigEndian(n / 256, width - 1), o, x, y, p);
      assert CompareInt(m, n) == o.Then(p);
    }
  }

  lemma SingleByteOrder(a: Byte, b: Byte)
    ensures Decides([a], [b], CompareInt(a, b))
  {
    var x: seq<Byte>, y: seq<Byte> := [a], [b];
    if a < b {
      assert BelowAt(x, y, 0);
    } else if b < a {
      assert BelowAt(y, x, 0);
    }
  }
}
