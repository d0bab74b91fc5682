/** Scalar domains: integer widths, UTF-8 text, calendar ranges, decimals, and
    finite IEEE 754 doubles with the order of the numbers they denote. */
module Scalars {
  import opened Bytes

  const TWO_63: int := 0x8000_0000_0000_0000
  const TWO_64: int := 0x1_0000_0000_0000_0000
  const TWO_52: int := 0x10_0000_0000_0000
  const TWO_127: int := 0x8000_0000_0000_0000_0000_0000_0000_0000
  const TWO_128: int := 0x1_0000_0000_0000_0000_0000_0000_0000_0000

  type U8 = n: int | 0 <= n < 256
  type U64 = n: int | 0 <= n < TWO_64
  type I64 = n: int | -TWO_63 <= n < TWO_63
  type I128 = n: int | -TWO_127 <= n < TWO_127

  const MIN_DAYS: int := -719_162
  const MAX_DAYS: int := 2_932_896
  const DAY_MICROS: int := 86_400_000_000
  const MAX_BYTES: int := 16 * 1024 * 1024

  predicate IsDate(days: int) {
    MIN_DAYS <= days <= MAX_DAYS
  }

  predicate IsTimestamp(micros: int) {
    MIN_DAYS <= micros / DAY_MICROS <= MAX_DAYS
  }

  type Days = d: int | IsDate(d)
  type Micros = t: int | IsTimestamp(t)
  type Uuid = s: seq<Byte> | |s| == 16 witness seq(16, _ => 0)
  type Blob = s: seq<Byte> | |s| <= MAX_BYTES

  // ---- UTF-8 ------------------------------------------------------------------------------------

  predicate Continuation(s: seq<Byte>, i: nat) {
    i < |s| && 0x80 <= s[i] <= 0xBF
  }

  /** The length of the well-formed sequence at the front of `s`, or 0. */
  function ScalarLength(s: seq<Byte>): (n: nat)
    requires s != []
    ensures n <= |s|
  {
    var b := s[0];
    if b <= 0x7F then 1
    else if 0xC2 <= b <= 0xDF && Continuation(s, 1) then 2
    else if 0xE0 <= b <= 0xEF && Continuation(s, 1) && Continuation(s, 2)
         && (b == 0xE0 ==> s[1] >= 0xA0) && (b == 0xED ==> s[1] <= 0x9F) then 3
    else if 0xF0 <= b <= 0xF4 && Continuation(s, 1) && Continuation(s, 2) && Continuation(s, 3)
         && (b == 0xF0 ==> s[1] >= 0x90) && (b == 0xF4 ==> s[1] <= 0x8F) then 4
    else 0
  }

  predicate IsUtf8(s: seq<Byte>)
    decreases |s|
  {
    s == [] || (var n := ScalarLength(s); n > 0 && IsUtf8(s[n..]))
  }

  type Text = s: seq<Byte> | IsUtf8(s)

  // ---- Decimals ---------------------------------------------------------------------------------

  function Pow10(k: nat): (p: nat)
    ensures p >= 1
  {
    if k == 0 then 1 else 10 * Pow10(k - 1)
  }

  predicate ValidDecimalType(precision: int, scale: int) {
    1 <= precision <= 38 && scale <= precision
  }

  predicate FitsDecimal(coefficient: int, precision: int, scale: int) {
    && ValidDecimalType(precision, scale)
    && 0 - Pow10(precision) < coefficient < Pow10(precision)
  }

  // ---- Two's complement -------------------------------------------------------------------------

  /** The unsigned word holding `i` in a word of `modulus` values. */
  function ToWord(i: int, modulus: int): (w: int) {
    if i >= 0 then i else i + modulus
  }

  function FromWord(w: int, modulus: int): (i: int) {
    if w < modulus / 2 then w else w - modulus
  }

  // ---- Doubles ----------------------------------------------------------------------------------

  function Pow2(k: nat): (p: nat)
    ensures p >= 1
  {
    if k == 0 then 1 else 2 * Pow2(k - 1)
  }

  predicate IsFinite(bits: U64) {
    (bits / TWO_52) % 2048 != 2047
  }

  predicate IsNan(bits: U64) {
    !IsFinite(bits) && bits % TWO_52 != 0
  }

  predicate IsZero(bits: U64) {
    bits == 0 || bits == TWO_63
  }

  /** The two encodings of zero share the positive one. */
  function NormalFloat(bits: U64): U64 {
    if IsZero(bits) then 0 else bits
  }

  /** The magnitude denoted by exponent and fraction bits, in units of 2^-1074. */
  function Magnitude(m: nat): nat {
    var e, f := m / TWO_52, m % TWO_52;
    if e == 0 then f else (TWO_52 + f) * Pow2(e - 1)
  }

  /** The number denoted by a finite double, in units of 2^-1074. */
  function FloatNumber(bits: U64): int {
    if bits < TWO_63 then Magnitude(bits) else 0 - Magnitude(bits - TWO_63)
  }

  function CompareFloat(a: U64, b: U64): Ordering {
    CompareInt(FloatNumber(a), FloatNumber(b))
  }

  lemma {:induction false} Pow2Monotone(j: nat, k: nat)
    requires j <= k
    ensures Pow2(j) <= Pow2(k)
  {
    if j < k { Pow2Monotone(j, k - 1); }
  }

  lemma MagnitudeMonotone(m: nat, n: nat)
    requires m < n
    ensures Magnitude(m) < Magnitude(n)
  {
    var e, f := m / TWO_52, m % TWO_52;
    var e', f' := n / TWO_52, n % TWO_52;
    assert m == e * TWO_52 + f && n == e' * TWO_52 + f';
    if e == e' {
      if e > 0 { MulStrict(TWO_52 + f, TWO_52 + f', Pow2(e - 1)); }
    } else {
      assert e' >= e + 1;
      Pow2Monotone(e, e' - 1);
      assert Pow2(e) <= Pow2(e' - 1);
      MulBound(TWO_52, TWO_52 + f', Pow2(e), Pow2(e' - 1));
      if e == 0 {
        assert Magnitude(m) < TWO_52 * Pow2(0);
      } else {
        MulStrict(TWO_52 + f, 2 * TWO_52, Pow2(e - 1));
        assert 2 * TWO_52 * Pow2(e - 1) == TWO_52 * Pow2(e);
      }
    }
  }

  lemma MulStrict(a: nat, b: nat, c: nat)
    requires a < b && c >= 1
    ensures a * c < b * c
  {}

  lemma MulBound(a: nat, b: nat, c: nat, d: nat)
    requires a <= b && c <= d
    ensures a * c <= b * d
  {
    calc { a * c; <= { assert a * c <= b * c by { assert (b - a) * c >= 0; } } b * c;
          <= { assert b * (d - c) >= 0; } b * d; }
  }
}
