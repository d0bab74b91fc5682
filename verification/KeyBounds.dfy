/** Byte ranges over index keys: prefixes, component ranges and page seeks. */
module KeyBounds {
  import opened Bytes
  import opened Model
  import opened OrderedKey

  datatype Bound = Included(key: Key) | Excluded(key: Key) | Unbounded

  datatype Bounds = Bounds(start: Bound, end: Bound)

  predicate AtOrAfter(b: Bound, k: Key) {
    match b
    case Included(x) => Compare(k, x) != Less
    case Excluded(x) => Compare(k, x) == Greater
    case Unbounded => true
  }

  predicate AtOrBefore(b: Bound, k: Key) {
    match b
    case Included(x) => Compare(k, x) != Greater
    case Excluded(x) => Compare(k, x) == Less
    case Unbounded => true
  }

  predicate Contains(b: Bounds, k: Key) {
    AtOrAfter(b.start, k) && AtOrBefore(b.end, k)
  }

  // ---- Prefixes ---------------------------------------------------------------------------------

  /** The least key above every key with this prefix; None when there is none. */
  function PrefixSuccessor(p: Key): Option<Key> {
    if p == [] then None else
    var tail := PrefixSuccessor(p[1..]);
    if tail.Some? then Some([p[0]] + tail.value)
    else if p[0] < 255 then Some([p[0] + 1])
    else None
  }

  lemma {:induction false} SuccessorOfPush(p: Key, b: Byte)
    ensures PrefixSuccessor(p + [b]) == if b == 255 then PrefixSuccessor(p) else Some(p + [b + 1])
  {
    if p == [] {
      assert p + [b] == [b] && [b][1..] == [];
      if b < 255 { assert [] + [b + 1] == [b + 1]; }
    } else {
      SuccessorOfPush(p[1..], b);
      assert (p + [b])[1..] == p[1..] + [b];
      if b < 255 { assert [p[0]] + (p[1..] + [b + 1]) == p + [b + 1]; }
    }
  }

  /** Drop trailing 0xFF bytes, then increment the last byte. */
  method NextAfterPrefix(prefix: Key) returns (r: Option<Key>)
    ensures r == PrefixSuccessor(prefix)
  {
    var next := prefix;
    while next != [] && next[|next| - 1] == 255
      invariant PrefixSuccessor(next) == PrefixSuccessor(prefix)
      decreases |next|
    {
      SuccessorOfPush(next[..|next| - 1], 255);
      assert next == next[..|next| - 1] + [255];
      next := next[..|next| - 1];
    }
    if next == [] { return None; }
    var n := |next| - 1;
    SuccessorOfPush(next[..n], next[n]);
    assert next == next[..n] + [next[n]];
    return Some(next[..n] + [next[n] + 1]);
  }

  /** Keys split into those below the prefix, those with it, and those at or above its
      successor. */
  lemma {:induction false} SuccessorSplits(p: Key, k: Key)
    ensures p <= k ==> Compare(k, p) != Less
    ensures PrefixSuccessor(p).None? ==> (p <= k <==> Compare(k, p) != Less)
    ensures PrefixSuccessor(p).Some? ==>
              (Compare(k, PrefixSuccessor(p).value) != Less <==> Compare(k, p) == Greater && !(p <= k))
  {
    if p != [] && k != [] {
      SuccessorSplits(p[1..], k[1..]);
      assert k == [k[0]] + k[1..] && p == [p[0]] + p[1..];
      assert p <= k <==> p[0] == k[0] && p[1..] <= k[1..];
      var s := PrefixSuccessor(p);
      if s.Some? && PrefixSuccessor(p[1..]).Some? {
        assert s.value[1..] == PrefixSuccessor(p[1..]).value;
      } else if s.Some? {
        assert s.value == [p[0] + 1] && s.value[1..] == [];
        assert Compare(k[1..], []) != Less;
        assert Compare(k[1..], p[1..]) != Less <==> p[1..] <= k[1..];
      }
    }
  }

  function PrefixBounds(prefix: Key): Bounds {
    if prefix == [] then Bounds(Unbounded, Unbounded) else
    var next := PrefixSuccessor(prefix);
    Bounds(Included(prefix), if next.Some? then Excluded(next.value) else Unbounded)
  }

  /** Exactly the keys with the prefix, all-0xFF prefixes included. */
  lemma PrefixBoundsExact(prefix: Key, k: Key)
    ensures Contains(PrefixBounds(prefix), k) <==> prefix <= k
  {
    SuccessorSplits(prefix, k);
    CompareReverse(k, prefix);
  }

  // ---- Page seeks -------------------------------------------------------------------------------

  function StricterLower(current: Bound, candidate: Bound): Bound {
    if current.Unbounded? then candidate
    else if candidate.Unbounded? then current
    else match Compare(current.key, candidate.key)
      case Less => candidate
      case Greater => current
      case Equal => if current.Excluded? then current else candidate
  }

  function StricterUpper(current: Bound, candidate: Bound): Bound {
    if current.Unbounded? then candidate
    else if candidate.Unbounded? then current
    else match Compare(current.key, candidate.key)
      case Less => current
      case Greater => candidate
      case Equal => if current.Excluded? then current else candidate
  }

  predicate BoundsHaveValues(start: Bound, end: Bound) {
    if start.Unbounded? || end.Unbounded? then true
    else match Compare(start.key, end.key)
      case Less => true
      case Greater => false
      case Equal => start.Included? && end.Included?
  }

  function PageSeekBounds(start: Bound, end: Bound, boundary: Key, greater: bool): Option<Bounds> {
    var next := PrefixSuccessor(boundary);
    if greater && next.None? then None else
    var start', end' := if greater then StricterLower(start, Included(next.value)) else start,
                        if greater then end else StricterUpper(end, Excluded(boundary));
    if BoundsHaveValues(start', end') then Some(Bounds(start', end')) else None
  }

  lemma CompareChain(a: Key, b: Key, c: Key)
    ensures Compare(a, b) != Greater && Compare(b, c) != Greater ==> Compare(a, c) == Compare(a, b).Then(Compare(b, c))
    ensures Compare(a, b) != Less && Compare(b, c) != Less ==> Compare(a, c) == Compare(a, b).Then(Compare(b, c))
  {
    CompareReverse(a, b);
    CompareReverse(b, c);
    CompareReverse(a, c);
    if Compare(a, b) != Greater && Compare(b, c) != Greater { CompareTransitive(a, b, c); }
    if Compare(a, b) != Less && Compare(b, c) != Less { CompareTransitive(c, b, a); }
  }

  lemma StricterExact(current: Bound, candidate: Bound, k: Key)
    ensures AtOrAfter(StricterLower(current, candidate), k) <==> AtOrAfter(current, k) && AtOrAfter(candidate, k)
    ensures AtOrBefore(StricterUpper(current, candidate), k) <==> AtOrBefore(current, k) && AtOrBefore(candidate, k)
  {
    if !current.Unbounded? && !candidate.Unbounded? {
      hide Compare;
      CompareReverse(current.key, candidate.key);
      CompareReverse(current.key, k);
      CompareReverse(candidate.key, k);
      CompareChain(k, current.key, candidate.key);
      CompareChain(k, candidate.key, current.key);
    }
  }

  lemma NoValues(start: Bound, end: Bound, k: Key)
    requires !BoundsHaveValues(start, end)
    ensures !Contains(Bounds(start, end), k)
  {
    hide Compare;
    CompareReverse(start.key, end.key);
    CompareReverse(k, start.key);
    CompareReverse(k, end.key);
    CompareChain(start.key, k, end.key);
  }

  /** Exactly the keys of the range strictly after (or before) every key that starts
      with the boundary. */
  lemma PageSeekExact(start: Bound, end: Bound, boundary: Key, greater: bool, k: Key)
    ensures var r := PageSeekBounds(start, end, boundary, greater);
            (r.Some? && Contains(r.value, k)) <==>
            Contains(Bounds(start, end), k) &&
            (if greater then Compare(k, boundary) == Greater && !(boundary <= k) else Compare(k, boundary) == Less)
  {
    hide Compare;
    SuccessorSplits(boundary, k);
    CompareReverse(k, boundary);
    var next := PrefixSuccessor(boundary);
    if !(greater && next.None?) {
      var lower := if greater then Included(next.value) else Unbounded;
      StricterExact(start, lower, k);
      StricterExact(end, Excluded(boundary), k);
      var start', end' := if greater then StricterLower(start, lower) else start,
                          if greater then end else StricterUpper(end, Excluded(boundary));
      if !BoundsHaveValues(start', end') { NoValues(start', end', k); }
    }
  }

  // ---- Component ranges -------------------------------------------------------------------------

  datatype RangeLimit = RangeLimit(value: Value, inclusive: bool)

  /** A planned scan: an encoding error, nothing to read, or a byte range. */
  datatype Scan = Failed | Nothing | Range(bounds: Bounds)

  function LimitKey(catalog: Catalog, prefix: Key, c: Component, limit: RangeLimit): Option<Key> {
    Concat(Some(prefix), EncodeComponent(catalog, c, limit.value))
  }

  function LogicalLower(key: Key, inclusive: bool): Option<Bound> {
    if inclusive then Some(Included(key)) else
    var next := PrefixSuccessor(key);
    if next.Some? then Some(Included(next.value)) else None
  }

  function LogicalUpper(key: Key, inclusive: bool): Bound {
    if !inclusive then Excluded(key) else
    var next := PrefixSuccessor(key);
    if next.Some? then Excluded(next.value) else Unbounded
  }

  function IndexRangeBounds(
    catalog: Catalog, prefix: Key, c: Component, lower: Option<RangeLimit>, upper: Option<RangeLimit>): Scan {
    if c.descending then KeyBoundsOf(catalog, prefix, c, upper, lower)
    else KeyBoundsOf(catalog, prefix, c, lower, upper)
  }

  /** The byte range between two limits in key order. */
  function KeyBoundsOf(
    catalog: Catalog, prefix: Key, c: Component, low: Option<RangeLimit>, high: Option<RangeLimit>): Scan {
    var whole := PrefixBounds(prefix);
    var lowKey := if low.Some? then LimitKey(catalog, prefix, c, low.value) else Some([]);
    var highKey := if high.Some? then LimitKey(catalog, prefix, c, high.value) else Some([]);
    if lowKey.None? || highKey.None? then Failed else
    var start := if low.Some? then LogicalLower(lowKey.value, low.value.inclusive) else Some(whole.start);
    var end := if high.Some? then LogicalUpper(highKey.value, high.value.inclusive) else whole.end;
    if start.None? then Nothing else Range(Bounds(start.value, end))
  }

  predicate AboveLimit(catalog: Catalog, c: Component, v: Value, limit: Option<RangeLimit>) {
    limit.None? ||
    var o := CompareTyped(catalog, c.ty, v, limit.value.value, 0);
    o == Some(Greater) || (limit.value.inclusive && o == Some(Equal))
  }

  predicate BelowLimit(catalog: Catalog, c: Component, v: Value, limit: Option<RangeLimit>) {
    limit.None? ||
    var o := CompareTyped(catalog, c.ty, v, limit.value.value, 0);
    o == Some(Less) || (limit.value.inclusive && o == Some(Equal))
  }

  /** A key whose component is decided against the limit lies on the matching side. */
  lemma LimitSides(catalog: Catalog, prefix: Key, c: Component, v: Value, rest: Key, limit: RangeLimit)
    requires EncodeComponent(catalog, c, v).Some? && EncodeComponent(catalog, c, limit.value).Some?
    ensures CompareComponent(catalog, c, v, limit.value).Some?
    ensures var k, x := prefix + EncodeComponent(catalog, c, v).value + rest, LimitKey(catalog, prefix, c, limit).value;
            var o := CompareComponent(catalog, c, v, limit.value).value;
            && (x <= k <==> o == Equal)
            && (Compare(k, x) == Less <==> o == Less)
            && (Compare(k, x) == Greater && !(x <= k) <==> o == Greater)
  {
    hide EncodeComponent, CompareComponent;
    var e, f := EncodeComponent(catalog, c, v).value, EncodeComponent(catalog, c, limit.value).value;
    ComponentOrder(catalog, c, v, limit.value);
    var o := CompareComponent(catalog, c, v, limit.value).value;
    var k, x := prefix + e + rest, prefix + f;
    DecidesConcat(prefix, prefix, Equal, e, f, o);
    if o == Equal {
      assert x <= k && k == x + rest;
      SuccessorSplits(x, k);
    } else {
      DecidesConcat(prefix + e, x, o, rest, [], Equal);
      assert x + [] == x;
      DecidesIsCompare(k, x, o);
      CompareReverse(k, x);
    }
  }

  lemma LowerSide(catalog: Catalog, prefix: Key, c: Component, v: Value, rest: Key, limit: RangeLimit)
    requires EncodeComponent(catalog, c, v).Some? && EncodeComponent(catalog, c, limit.value).Some?
    ensures CompareComponent(catalog, c, v, limit.value).Some?
    ensures var s := LogicalLower(LimitKey(catalog, prefix, c, limit).value, limit.inclusive);
            var o := CompareComponent(catalog, c, v, limit.value).value;
            (s.Some? && AtOrAfter(s.value, prefix + EncodeComponent(catalog, c, v).value + rest)) <==>
            o == Greater || (limit.inclusive && o == Equal)
  {
    hide EncodeComponent, CompareComponent, Compare, PrefixSuccessor;
    var k, x := prefix + EncodeComponent(catalog, c, v).value + rest, LimitKey(catalog, prefix, c, limit).value;
    LimitSides(catalog, prefix, c, v, rest, limit);
    SuccessorSplits(x, k);
    CompareReverse(k, x);
  }

  lemma UpperSide(catalog: Catalog, prefix: Key, c: Component, v: Value, rest: Key, limit: RangeLimit)
    requires EncodeComponent(catalog, c, v).Some? && EncodeComponent(catalog, c, limit.value).Some?
    ensures CompareComponent(catalog, c, v, limit.value).Some?
    ensures var e := LogicalUpper(LimitKey(catalog, prefix, c, limit).value, limit.inclusive);
            var o := CompareComponent(catalog, c, v, limit.value).value;
            AtOrBefore(e, prefix + EncodeComponent(catalog, c, v).value + rest) <==>
            o == Less || (limit.inclusive && o == Equal)
  {
    hide EncodeComponent, CompareComponent, Compare, PrefixSuccessor;
    var k, x := prefix + EncodeComponent(catalog, c, v).value + rest, LimitKey(catalog, prefix, c, limit).value;
    LimitSides(catalog, prefix, c, v, rest, limit);
    SuccessorSplits(x, k);
    CompareReverse(k, x);
  }

  predicate Encodable(catalog: Catalog, c: Component, limit: Option<RangeLimit>) {
    limit.Some? ==> EncodeComponent(catalog, c, limit.value.value).Some?
  }

  predicate PastLow(catalog: Catalog, c: Component, v: Value, limit: Option<RangeLimit>) {
    limit.None? ||
    var o := CompareComponent(catalog, c, v, limit.value.value);
    o == Some(Greater) || (limit.value.inclusive && o == Some(Equal))
  }

  predicate ShortOfHigh(catalog: Catalog, c: Component, v: Value, limit: Option<RangeLimit>) {
    limit.None? ||
    var o := CompareComponent(catalog, c, v, limit.value.value);
    o == Some(Less) || (limit.value.inclusive && o == Some(Equal))
  }

  lemma KeyOrderRange(
    catalog: Catalog, prefix: Key, c: Component, low: Option<RangeLimit>, high: Option<RangeLimit>, v: Value, rest: Key)
    requires EncodeComponent(catalog, c, v).Some? && Encodable(catalog, c, low) && Encodable(catalog, c, high)
    ensures var scan := KeyBoundsOf(catalog, prefix, c, low, high);
            && !scan.Failed?
            && ((scan.Range? && Contains(scan.bounds, prefix + EncodeComponent(catalog, c, v).value + rest)) <==>
                PastLow(catalog, c, v, low) && ShortOfHigh(catalog, c, v, high))
  {
    hide EncodeComponent, CompareComponent, AtOrAfter, AtOrBefore, LogicalLower, LogicalUpper, PrefixBounds,
      Compare, PrefixSuccessor;
    var k := prefix + EncodeComponent(catalog, c, v).value + rest;
    PrefixBoundsExact(prefix, k);
    assert prefix <= k;
    if low.Some? { LowerSide(catalog, prefix, c, v, rest, low.value); }
    if high.Some? { UpperSide(catalog, prefix, c, v, rest, high.value); }
  }

  /** The byte range holds exactly the keys whose component lies in the logical range,
      ascending or descending. */
  lemma IndexRangeExact(
    catalog: Catalog, prefix: Key, c: Component, lower: Option<RangeLimit>, upper: Option<RangeLimit>, v: Value,
    rest: Key)
    requires EncodeComponent(catalog, c, v).Some? && Encodable(catalog, c, lower) && Encodable(catalog, c, upper)
    ensures var scan := IndexRangeBounds(catalog, prefix, c, lower, upper);
            && !scan.Failed?
            && ((scan.Range? && Contains(scan.bounds, prefix + EncodeComponent(catalog, c, v).value + rest)) <==>
                AboveLimit(catalog, c, v, lower) && BelowLimit(catalog, c, v, upper))
  {
    hide EncodeComponent, CompareTyped, KeyBoundsOf, Contains;
    if c.descending {
      KeyOrderRange(catalog, prefix, c, upper, lower, v, rest);
    } else {
      KeyOrderRange(catalog, prefix, c, lower, upper, v, rest);
    }
  }

  /** Every key of a component range starts with the equality prefix. */
  lemma IndexRangeKeepsPrefix(
    catalog: Catalog, prefix: Key, c: Component, lower: Option<RangeLimit>, upper: Option<RangeLimit>, k: Key)
    requires IndexRangeBounds(catalog, prefix, c, lower, upper).Range?
    requires Contains(IndexRangeBounds(catalog, prefix, c, lower, upper).bounds, k)
    ensures prefix <= k
  {
    hide EncodeComponent, Compare, PrefixSuccessor;
    var low, high := if c.descending then upper else lower, if c.descending then lower else upper;
    CompareReverse(k, prefix);
    SuccessorSplits(prefix, k);
    assert Compare(k, prefix) != Less by {
      if low.Some? {
        var x := LimitKey(catalog, prefix, c, low.value).value;
        AfterPrefix(prefix, x, k);
      }
    }
    if high.Some? {
      var x := LimitKey(catalog, prefix, c, high.value).value;
      BeforeInPrefix(prefix, x, k);
    }
  }

  lemma AfterPrefix(prefix: Key, x: Key, k: Key)
    requires prefix <= x
    ensures Compare(k, x) != Less ==> Compare(k, prefix) != Less
    ensures PrefixSuccessor(x).Some? && Compare(k, PrefixSuccessor(x).value) != Less ==> Compare(k, prefix) != Less
  {
    hide Compare, PrefixSuccessor;
    SuccessorSplits(prefix, x);
    SuccessorSplits(x, k);
    CompareChain(k, x, prefix);
  }

  lemma BeforeInPrefix(prefix: Key, x: Key, k: Key)
    requires prefix <= x && Compare(k, prefix) != Less
    ensures Compare(k, x) == Less ==> prefix <= k
    ensures (PrefixSuccessor(x).Some? ==> Compare(k, PrefixSuccessor(x).value) == Less) ==> prefix <= k
  {
    hide Compare, PrefixSuccessor;
    SuccessorSplits(prefix, k);
    SuccessorSplits(prefix, x);
    SuccessorSplits(x, k);
    CompareReverse(k, x);
    CompareReverse(k, prefix);
    if !(prefix <= k) && Compare(k, x) == Less {
      var s := PrefixSuccessor(prefix).value;
      CompareReverse(x, s);
      CompareReverse(k, s);
      CompareChain(k, x, s);
    }
  }

  /** A range is inverted when its start lies above its end. */
  predicate Inverted(b: Bounds) {
    !b.start.Unbounded? && !b.end.Unbounded? && Compare(b.start.key, b.end.key) == Greater
  }

  function RangeIsEmpty(
    catalog: Catalog, c: Component, lower: Option<RangeLimit>, upper: Option<RangeLimit>): Option<bool> {
    if lower.None? || upper.None? then Some(false) else
    var o := CompareTyped(catalog, c.ty, lower.value.value, upper.value.value, 0);
    if o.None? then None
    else Some(o.value == Greater || (o.value == Equal && !(lower.value.inclusive && upper.value.inclusive)))
  }

  /** A logical range that passes the emptiness test is never encoded inverted. */
  lemma IndexRangeNotInverted(
    catalog: Catalog, prefix: Key, c: Component, lower: Option<RangeLimit>, upper: Option<RangeLimit>)
    requires Encodable(catalog, c, lower) && Encodable(catalog, c, upper)
    requires RangeIsEmpty(catalog, c, lower, upper) == Some(false)
    ensures var scan := IndexRangeBounds(catalog, prefix, c, lower, upper);
            scan.Range? ==> !Inverted(scan.bounds)
  {
    hide EncodeComponent, CompareTyped, Compare, PrefixSuccessor;
    var low, high := if c.descending then upper else lower, if c.descending then lower else upper;
    if low.Some? && high.Some? {
      var x, y := LimitKey(catalog, prefix, c, low.value).value, LimitKey(catalog, prefix, c, high.value).value;
      LimitSides(catalog, prefix, c, high.value.value, [], low.value);
      assert prefix + EncodeComponent(catalog, c, high.value.value).value + [] == y;
      FlipComponent(catalog, c, low.value.value, high.value.value);
      var o := CompareComponent(catalog, c, high.value.value, low.value.value).value;
      assert o == Greater || (o == Equal && low.value.inclusive && high.value.inclusive);
      CompareReverse(x, y);
      OrderedLimits(x, y);
    } else if high.Some? {
      OrderedLimits(prefix, LimitKey(catalog, prefix, c, high.value).value);
    } else if low.Some? && PrefixSuccessor(prefix).Some? {
      WithinPrefix(prefix, LimitKey(catalog, prefix, c, low.value).value);
    } else if low.None? {
      OrderedLimits(prefix, prefix);
    }
  }

  lemma FlipComponent(catalog: Catalog, c: Component, a: Value, b: Value)
    requires EncodeComponent(catalog, c, a).Some? && EncodeComponent(catalog, c, b).Some?
    ensures CompareComponent(catalog, c, a, b).Some?
    ensures CompareComponent(catalog, c, b, a) == Some(CompareComponent(catalog, c, a, b).value.Reverse())
  {
    hide EncodeComponent, CompareComponent, Compare;
    ComponentOrder(catalog, c, a, b);
    ComponentOrder(catalog, c, b, a);
    var x, y := EncodeComponent(catalog, c, a).value, EncodeComponent(catalog, c, b).value;
    DecidesIsCompare(x, y, CompareComponent(catalog, c, a, b).value);
    DecidesIsCompare(y, x, CompareComponent(catalog, c, b, a).value);
    CompareReverse(x, y);
  }

  lemma OrderedLimits(x: Key, y: Key)
    ensures x <= y ==> Compare(x, y) != Greater
    ensures PrefixSuccessor(y).Some? ==> Compare(y, PrefixSuccessor(y).value) == Less
    ensures PrefixSuccessor(y).Some? && Compare(x, y) != Greater ==> Compare(x, PrefixSuccessor(y).value) != Greater
    ensures PrefixSuccessor(x).Some? && Compare(y, x) == Greater && !(x <= y) ==>
              Compare(PrefixSuccessor(x).value, y) != Greater
    ensures PrefixSuccessor(x).Some? && PrefixSuccessor(y).Some? && Compare(y, x) == Greater && !(x <= y) ==>
              Compare(PrefixSuccessor(x).value, PrefixSuccessor(y).value) != Greater
  {
    hide Compare, PrefixSuccessor;
    SuccessorSplits(x, y);
    SuccessorSplits(y, y);
    CompareReverse(x, y);
    if PrefixSuccessor(y).Some? {
      CompareChain(x, y, PrefixSuccessor(y).value);
      if PrefixSuccessor(x).Some? { CompareChain(PrefixSuccessor(x).value, y, PrefixSuccessor(y).value); }
    }
    if PrefixSuccessor(x).Some? { CompareReverse(PrefixSuccessor(x).value, y); }
  }

  lemma WithinPrefix(prefix: Key, x: Key)
    requires prefix <= x && PrefixSuccessor(prefix).Some?
    ensures Compare(x, PrefixSuccessor(prefix).value) != Greater
    ensures PrefixSuccessor(x).Some? ==> Compare(PrefixSuccessor(x).value, PrefixSuccessor(prefix).value) != Greater
  {
    hide Compare, PrefixSuccessor;
    var s := PrefixSuccessor(prefix).value;
    SuccessorSplits(prefix, x);
    CompareReverse(x, s);
    SuccessorSplits(x, s);
    SuccessorSplits(prefix, s);
    CompareReverse(s, s);
    if PrefixSuccessor(x).Some? {
      CompareReverse(PrefixSuccessor(x).value, s);
      if x <= s { PrefixOfPrefix(prefix, x, s); }
    }
  }

  lemma PrefixOfPrefix(a: Key, b: Key, c: Key)
    requires a <= b && b <= c
    ensures a <= c
  {}
}
