/**
  The order-preserving ("sortable") key encoding of RowChunk: the sign flip
  of signed integers, the monotone transforms of float and double bit
  patterns, the bytes each EncodeData specialisation writes, the type
  dispatch of SerializeVectorSortable and the validity prefix byte.

  Values are compared through the numbers their bits denote: an unsigned
  word by the number its big-endian bytes denote, a signed word in two's
  complement, a float or double (other than NaN) by its sign and magnitude.
 */
module KeyEncoding {
  import opened Types
  import opened ByteOrder

  // ---------------------------------------------------------------------------
  // Sign flip of the leading key byte

  function FlipSign(b: bv8): (r: bv8)
    ensures r ^ 0x80 == b
  {
    b ^ 128
  }

  /** `data[0] = FlipSign(data[0])` applied to the bytes just written. */
  function FlipFirst(s: seq<bv8>): (r: seq<bv8>)
    requires |s| > 0
    ensures |r| == |s| && r[1..] == s[1..] && r[0] == FlipSign(s[0])
  {
    [FlipSign(s[0])] + s[1..]
  }

  // ---------------------------------------------------------------------------
  // Two's complement values

  function Signed8(x: bv8): int {
    ByteValue(x) - if x & 0x80 != 0 then 0x100 else 0
  }

  function Signed16(x: bv16): int {
    Unsigned16(x) - if x & 0x8000 != 0 then 0x1_0000 else 0
  }

  function Signed32(x: bv32): int {
    Unsigned32(x) - if x & 0x8000_0000 != 0 then 0x1_0000_0000 else 0
  }

  function Signed64(x: bv64): int {
    Unsigned64(x) - if x & 0x8000_0000_0000_0000 != 0 then 0x1_0000_0000_0000_0000 else 0
  }

  /** Flipping the top bit of the leading byte moves the number a key denotes by half its range. */
  lemma FlipFirstValueOne(s: seq<bv8>)
    requires |s| == 1
    ensures BigEndianValue(FlipFirst(s)) == BigEndianValue(s) - (if s[0] & 0x80 != 0 then 0x100 else 0) + 0x80
  {
    ByteValueFlipTop(s[0]);
    HornerOne(ByteValue(s[0]));
    HornerOne(ByteValue(FlipFirst(s)[0]));
    assert Values(s) == [ByteValue(s[0])];
    assert Values(FlipFirst(s)) == [ByteValue(FlipFirst(s)[0])];
  }

  lemma HornerOne(d: nat)
    ensures Horner(0, [d]) == d
  {
    assert [d][1..] == [];
  }

  lemma FlipFirstValueTwo(s: seq<bv8>)
    requires |s| == 2
    ensures BigEndianValue(FlipFirst(s)) == BigEndianValue(s) - (if s[0] & 0x80 != 0 then 0x1_0000 else 0) + 0x8000
  {
    BigEndianValueTwo(s);
    BigEndianValueTwo(FlipFirst(s));
    ByteValueFlipTop(s[0]);
  }

  lemma FlipFirstValueFour(s: seq<bv8>)
    requires |s| == 4
    ensures BigEndianValue(FlipFirst(s)) ==
            BigEndianValue(s) - (if s[0] & 0x80 != 0 then 0x1_0000_0000 else 0) + 0x8000_0000
  {
    BigEndianValueFour(s);
    BigEndianValueFour(FlipFirst(s));
    ByteValueFlipTop(s[0]);
  }

  lemma FlipFirstValueEight(s: seq<bv8>)
    requires |s| == 8
    ensures BigEndianValue(FlipFirst(s)) ==
            BigEndianValue(s) - (if s[0] & 0x80 != 0 then 0x1_0000_0000_0000_0000 else 0) + 0x8000_0000_0000_0000
  {
    BigEndianValueEight(s);
    BigEndianValueEight(FlipFirst(s));
    ByteValueFlipTop(s[0]);
  }

  /** The sign bit of a word is the top bit of its leading big-endian byte. */
  lemma SignBits(x16: bv16, x32: bv32, x64: bv64)
    ensures x16 & 0x8000 != 0 <==> BigEndian16(x16)[0] & 0x80 != 0
    ensures x32 & 0x8000_0000 != 0 <==> BigEndian32(x32)[0] & 0x80 != 0
    ensures x64 & 0x8000_0000_0000_0000 != 0 <==> BigEndian64(x64)[0] & 0x80 != 0
  {}

  // ---------------------------------------------------------------------------
  // IEEE-754 bit patterns

  const FLOAT_SIGN: bv32 := 0x8000_0000
  const FLOAT_POSITIVE_INFINITY: bv32 := 0x7f80_0000
  const FLOAT_NEGATIVE_INFINITY: bv32 := 0xff80_0000
  const DOUBLE_SIGN: bv64 := 0x8000_0000_0000_0000
  const DOUBLE_POSITIVE_INFINITY: bv64 := 0x7ff0_0000_0000_0000
  const DOUBLE_NEGATIVE_INFINITY: bv64 := 0xfff0_0000_0000_0000

  /** `x == 0` holds for +0 and -0. */
  predicate FloatIsZero(bits: bv32) { bits & 0x7fff_ffff == 0 }
  predicate DoubleIsZero(bits: bv64) { bits & 0x7fff_ffff_ffff_ffff == 0 }

  /** All exponent bits set and a non-zero mantissa. */
  predicate FloatIsNaN(bits: bv32) {
    bits & 0x7f80_0000 == 0x7f80_0000 && bits & 0x007f_ffff != 0
  }

  predicate DoubleIsNaN(bits: bv64) {
    bits & 0x7ff0_0000_0000_0000 == 0x7ff0_0000_0000_0000 && bits & 0x000f_ffff_ffff_ffff != 0
  }

  predicate FloatNegative(bits: bv32) { bits & FLOAT_SIGN != 0 }
  predicate DoubleNegative(bits: bv64) { bits & DOUBLE_SIGN != 0 }

  function FloatMagnitude(bits: bv32): nat { Unsigned32(bits & 0x7fff_ffff) }
  function DoubleMagnitude(bits: bv64): nat { Unsigned64(bits & 0x7fff_ffff_ffff_ffff) }

  /**
    The position of a non-NaN pattern in IEEE-754 order: its magnitude with
    its sign. The two zeros get the same rank; the infinities are the
    extremes, because their magnitude is the largest a non-NaN pattern has.
   */
  function FloatRank(bits: bv32): int {
    if FloatNegative(bits) then -(FloatMagnitude(bits) as int) else FloatMagnitude(bits)
  }

  function DoubleRank(bits: bv64): int {
    if DoubleNegative(bits) then -(DoubleMagnitude(bits) as int) else DoubleMagnitude(bits)
  }

  /**
    EncodeFloat on the bit pattern of x. The source keeps the pattern in a
    64-bit buffer and returns it as uint32_t: the complement is taken on 64
    bits and truncated by the return.
   */
  function EncodeFloat(bits: bv32): bv32 {
    if FloatIsZero(bits) then
      ((0 as bv64) | (1 << 31)) as bv32
    else if bits == FLOAT_POSITIVE_INFINITY then
      0xffff_ffff
    else if bits == FLOAT_NEGATIVE_INFINITY then
      0
    else
      var buff: bv64 := bits as bv64;
      if buff & (1 << 31) == 0 then (buff | (1 << 31)) as bv32 else ((!buff) & 0xffff_ffff) as bv32
  }

  /** EncodeDouble on the bit pattern of x. */
  function EncodeDouble(bits: bv64): bv64 {
    if DoubleIsZero(bits) then
      0 + (1 << 63)
    else if bits == DOUBLE_POSITIVE_INFINITY then
      0xffff_ffff_ffff_ffff
    else if bits == DOUBLE_NEGATIVE_INFINITY then
      0
    else
      var buff := bits;
      if buff < (1 << 63) then buff + (1 << 63) else !buff
  }

  lemma FloatBufferFacts(x: bv32)
    ensures (x as bv64) & (1 << 31) == 0 <==> !FloatNegative(x)
    ensures ((x as bv64) | (1 << 31)) as bv32 == x | FLOAT_SIGN
    ensures ((!(x as bv64)) & 0xffff_ffff) as bv32 == !x
  {}

  lemma DoubleBufferFacts(x: bv64)
    ensures x < (1 << 63) <==> !DoubleNegative(x)
    ensures !DoubleNegative(x) ==> x + (1 << 63) == x | DOUBLE_SIGN
  {}

  /**
    The cases of EncodeFloat: both zeros map to 1<<31, +inf to all ones, -inf
    to 0; other patterns get the sign bit set when it is clear and are
    complemented when it is set.
   */
  lemma EncodeFloatCases(bits: bv32)
    ensures FloatIsZero(bits) ==> EncodeFloat(bits) == 0x8000_0000
    ensures bits == FLOAT_POSITIVE_INFINITY ==> EncodeFloat(bits) == 0xffff_ffff
    ensures bits == FLOAT_NEGATIVE_INFINITY ==> EncodeFloat(bits) == 0
    ensures !FloatIsZero(bits) && bits != FLOAT_POSITIVE_INFINITY && bits != FLOAT_NEGATIVE_INFINITY ==>
              EncodeFloat(bits) == if FloatNegative(bits) then !bits else bits | FLOAT_SIGN
  {
    FloatBufferFacts(bits);
  }

  /** The same cases for EncodeDouble, with 1<<63. */
  lemma EncodeDoubleCases(bits: bv64)
    ensures DoubleIsZero(bits) ==> EncodeDouble(bits) == 0x8000_0000_0000_0000
    ensures bits == DOUBLE_POSITIVE_INFINITY ==> EncodeDouble(bits) == 0xffff_ffff_ffff_ffff
    ensures bits == DOUBLE_NEGATIVE_INFINITY ==> EncodeDouble(bits) == 0
    ensures !DoubleIsZero(bits) && bits != DOUBLE_POSITIVE_INFINITY && bits != DOUBLE_NEGATIVE_INFINITY ==>
              EncodeDouble(bits) == if DoubleNegative(bits) then !bits else bits | DOUBLE_SIGN
  {
    DoubleBufferFacts(bits);
  }

  // Images of the sign-cleared, sign-set and complemented patterns.

  lemma FloatClearedImage(x: bv32)
    ensures BigEndian32(x & 0x7fff_ffff) == ClearTop(BigEndian32(x))
  {}

  lemma FloatSignedImage(x: bv32)
    ensures BigEndian32(x | FLOAT_SIGN) == SetTop(BigEndian32(x))
  {}

  lemma FloatComplementImage(x: bv32)
    ensures var s := BigEndian32(x); BigEndian32(!x) == [!s[0], !s[1], !s[2], !s[3]]
  {}

  lemma DoubleClearedImage(x: bv64)
    ensures BigEndian64(x & 0x7fff_ffff_ffff_ffff) == ClearTop(BigEndian64(x))
  {}

  /** Two eight-byte sequences that agree at every position are equal. */
  lemma EightBytesEqual(a: seq<bv8>, b: seq<bv8>)
    requires |a| == 8 && |b| == 8
    requires a[0] == b[0] && a[1] == b[1] && a[2] == b[2] && a[3] == b[3]
    requires a[4] == b[4] && a[5] == b[5] && a[6] == b[6] && a[7] == b[7]
    ensures a == b
  {
    forall k | 0 <= k < 8
      ensures a[k] == b[k]
    {
      if k < 4 {
      } else {
      }
    }
  }

  lemma DoubleSignedImage(x: bv64)
    ensures BigEndian64(x | DOUBLE_SIGN) == SetTop(BigEndian64(x))
  {
    var y := x | DOUBLE_SIGN;
    var s, r := BigEndian64(x), BigEndian64(y);
    var u := SetTop(s);
    assert r[0] == u[0];
    assert r[1] == u[1] && r[2] == u[2] && r[3] == u[3];
    assert r[4] == u[4] && r[5] == u[5] && r[6] == u[6] && r[7] == u[7];
    EightBytesEqual(r, u);
  }

  lemma DoubleComplementImage(x: bv64)
    ensures var s := BigEndian64(x);
      BigEndian64(!x) == [!s[0], !s[1], !s[2], !s[3], !s[4], !s[5], !s[6], !s[7]]
  {}

  // The classes of a float or double pattern, read off its big-endian bytes.

  lemma FloatSignByte(x: bv32)
    ensures FloatNegative(x) <==> BigEndian32(x)[0] & 0x80 != 0
  {}

  lemma FloatZeroBytes(x: bv32)
    ensures var s := BigEndian32(x); FloatIsZero(x) <==> s[0] & 0x7f == 0 && s[1] == 0 && s[2] == 0 && s[3] == 0
  {}

  lemma FloatInfinityBytes(x: bv32)
    ensures var s := BigEndian32(x);
      (x == FLOAT_POSITIVE_INFINITY <==> s[0] == 0x7f && s[1] == 0x80 && s[2] == 0 && s[3] == 0) &&
      (x == FLOAT_NEGATIVE_INFINITY <==> s[0] == 0xff && s[1] == 0x80 && s[2] == 0 && s[3] == 0)
  {}

  lemma FloatNaNBytes(x: bv32)
    ensures var s := BigEndian32(x);
      FloatIsNaN(x) <==> s[0] & 0x7f == 0x7f && s[1] & 0x80 != 0 && (s[1] & 0x7f != 0 || s[2] != 0 || s[3] != 0)
  {}

  // Byte-level shapes of the double classes (on the big-endian image).

  predicate DoubleZeroShape(s: seq<bv8>)
    requires |s| == 8
  {
    s[0] & 0x7f == 0 && s[1] == 0 && s[2] == 0 && s[3] == 0 && s[4] == 0 && s[5] == 0 && s[6] == 0 && s[7] == 0
  }

  predicate DoubleInfiniteShape(s: seq<bv8>)
    requires |s| == 8
  {
    s[0] & 0x7f == 0x7f && s[1] == 0xf0 && s[2] == 0 && s[3] == 0 && s[4] == 0 && s[5] == 0 && s[6] == 0 && s[7] == 0
  }

  predicate DoubleNaNShape(s: seq<bv8>)
    requires |s| == 8
  {
    s[0] & 0x7f == 0x7f && s[1] & 0xf0 == 0xf0 &&
    (s[1] & 0x0f != 0 || s[2] != 0 || s[3] != 0 || s[4] != 0 || s[5] != 0 || s[6] != 0 || s[7] != 0)
  }

  lemma DoubleSignByte(x: bv64)
    ensures DoubleNegative(x) <==> BigEndian64(x)[0] & 0x80 != 0
  {}

  lemma DoubleZeroBytes(x: bv64)
    ensures DoubleIsZero(x) <==> DoubleZeroShape(BigEndian64(x))
  {}

  lemma DoubleInfinityBytes(x: bv64)
    ensures x == DOUBLE_POSITIVE_INFINITY <==> DoubleInfiniteShape(BigEndian64(x)) && BigEndian64(x)[0] & 0x80 == 0
    ensures x == DOUBLE_NEGATIVE_INFINITY <==> DoubleInfiniteShape(BigEndian64(x)) && BigEndian64(x)[0] & 0x80 != 0
  {}

  lemma DoubleNaNBytes(x: bv64)
    ensures DoubleIsNaN(x) <==> DoubleNaNShape(BigEndian64(x))
  {}

  // Byte facts the class boundaries need.

  lemma ByteIsZero(b: bv8)
    ensures ByteValue(b) == 0 <==> b == 0
  {}

  lemma ByteLowSeven(a: bv8)
    ensures ByteValue(a & 0x7f) < 0x80
    ensures ByteValue(a & 0x7f) == 0 <==> a & 0x7f == 0
    ensures ByteValue(a & 0x7f) == 0x7f <==> a & 0x7f == 0x7f
  {}

  lemma ByteTopBit(b: bv8)
    ensures b & 0x80 != 0 <==> ByteValue(b) >= 0x80
    ensures b & 0x80 != 0 && b & 0x7f != 0 <==> ByteValue(b) > 0x80
    ensures b == 0x80 <==> ByteValue(b) == 0x80
  {}

  lemma ByteTopNibble(b: bv8)
    ensures b & 0xf0 == 0xf0 <==> ByteValue(b) >= 0xf0
    ensures b & 0xf0 == 0xf0 && b & 0x0f != 0 <==> ByteValue(b) > 0xf0
    ensures b == 0xf0 <==> ByteValue(b) == 0xf0
  {}

  /** Base-256 digits with a leading digit below 128: where the float class boundaries fall. */
  lemma FourDigitBoundaries(a: int, b: int, c: int, d: int)
    requires 0 <= a < 0x80 && 0 <= b < 0x100 && 0 <= c < 0x100 && 0 <= d < 0x100
    ensures a * 0x100_0000 + b * 0x1_0000 + c * 0x100 + d == 0 <==> a == 0 && b == 0 && c == 0 && d == 0
    ensures a * 0x100_0000 + b * 0x1_0000 + c * 0x100 + d == FLOAT_INFINITE_MAGNITUDE <==>
            a == 0x7f && b == 0x80 && c == 0 && d == 0
    ensures a * 0x100_0000 + b * 0x1_0000 + c * 0x100 + d > FLOAT_INFINITE_MAGNITUDE <==>
            a == 0x7f && b >= 0x80 && (b > 0x80 || c != 0 || d != 0)
  {}

  /** The same boundaries for eight digits, where the double classes fall. */
  lemma EightDigitBoundaries(a: int, b: int, c: int, d: int, e: int, f: int, g: int, h: int)
    requires 0 <= a < 0x80 && 0 <= b < 0x100 && 0 <= c < 0x100 && 0 <= d < 0x100
    requires 0 <= e < 0x100 && 0 <= f < 0x100 && 0 <= g < 0x100 && 0 <= h < 0x100
    ensures var v := a * 0x100_0000_0000_0000 + b * 0x1_0000_0000_0000 + c * 0x100_0000_0000 + d * 0x1_0000_0000
                   + e * 0x100_0000 + f * 0x1_0000 + g * 0x100 + h;
      (v == 0 <==> a == 0 && b == 0 && c == 0 && d == 0 && e == 0 && f == 0 && g == 0 && h == 0) &&
      (v == DOUBLE_INFINITE_MAGNITUDE <==>
         a == 0x7f && b == 0xf0 && c == 0 && d == 0 && e == 0 && f == 0 && g == 0 && h == 0) &&
      (v > DOUBLE_INFINITE_MAGNITUDE <==>
         a == 0x7f && b >= 0xf0 && (b > 0xf0 || c != 0 || d != 0 || e != 0 || f != 0 || g != 0 || h != 0))
  {}

  // Numbers denoted by four-byte images: sign split, complement, sign set and class boundaries.

  lemma ByteSignSplit(a: bv8)
    ensures ByteValue(a) == ByteValue(a & 0x7f) + (if a & 0x80 != 0 then 0x80 else 0)
  {}

  /** The images with the leading bit cleared or set, and with every bit complemented. */
  function ClearTop(s: seq<bv8>): (r: seq<bv8>)
    requires |s| > 0
    ensures |r| == |s| && r[0] == s[0] & 0x7f && forall k :: 1 <= k < |s| ==> r[k] == s[k]
  {
    [s[0] & 0x7f] + s[1..]
  }

  function SetTop(s: seq<bv8>): (r: seq<bv8>)
    requires |s| > 0
    ensures |r| == |s| && r[0] == s[0] | 0x80 && forall k :: 1 <= k < |s| ==> r[k] == s[k]
  {
    [s[0] | 0x80] + s[1..]
  }

  function Complement(s: seq<bv8>): (r: seq<bv8>)
    ensures |r| == |s| && forall i :: 0 <= i < |s| ==> r[i] == !s[i]
  {
    seq(|s|, i requires 0 <= i < |s| => !s[i])
  }

  lemma ComplementOfFour(s: seq<bv8>)
    requires |s| == 4
    ensures Complement(s) == [!s[0], !s[1], !s[2], !s[3]]
  {}

  lemma ComplementOfEight(s: seq<bv8>)
    requires |s| == 8
    ensures Complement(s) == [!s[0], !s[1], !s[2], !s[3], !s[4], !s[5], !s[6], !s[7]]
  {}

  lemma {:induction false} FourClearTopValue(s: seq<bv8>)
    requires |s| == 4
    ensures BigEndianValue(s) == BigEndianValue(ClearTop(s)) + (if s[0] & 0x80 != 0 then 0x8000_0000 else 0)
  {
    BigEndianValueFour(s);
    BigEndianValueFour(ClearTop(s));
    ByteSignSplit(s[0]);
  }

  lemma {:induction false} FourSetTopValue(s: seq<bv8>)
    requires |s| == 4
    ensures s[0] & 0x80 == 0 ==> BigEndianValue(SetTop(s)) == BigEndianValue(s) + 0x8000_0000
  {
    BigEndianValueFour(s);
    BigEndianValueFour(SetTop(s));
    ByteValueFlipTop(s[0]);
  }

  lemma {:induction false} FourComplementValue(s: seq<bv8>)
    requires |s| == 4
    ensures BigEndianValue(Complement(s)) == 0xffff_ffff - BigEndianValue(s)
  {
    BigEndianValueFour(s);
    BigEndianValueFour(Complement(s));
    ByteValueComplement(s[0]);
    ByteValueComplement(s[1]);
    ByteValueComplement(s[2]);
    ByteValueComplement(s[3]);
  }

  // Zero, infinite and NaN magnitudes of a four-byte image with the sign bit cleared.

  lemma {:induction false} FourMagnitudeZero(s: seq<bv8>)
    requires |s| == 4
    ensures BigEndianValue(ClearTop(s)) == 0 <==> s[0] & 0x7f == 0 && s[1] == 0 && s[2] == 0 && s[3] == 0
  {
    BigEndianValueFour(ClearTop(s));
    FourDigitBoundaries(ByteValue(s[0] & 0x7f), ByteValue(s[1]), ByteValue(s[2]), ByteValue(s[3]));
    ByteLowSeven(s[0]);
    ByteTopBit(s[1]);
    ByteIsZero(s[1]);
    ByteIsZero(s[2]);
    ByteIsZero(s[3]);
  }

  lemma {:induction false} FourMagnitudeInfinite(s: seq<bv8>)
    requires |s| == 4
    ensures BigEndianValue(ClearTop(s)) == FLOAT_INFINITE_MAGNITUDE <==>
            s[0] & 0x7f == 0x7f && s[1] == 0x80 && s[2] == 0 && s[3] == 0
  {
    BigEndianValueFour(ClearTop(s));
    FourDigitBoundaries(ByteValue(s[0] & 0x7f), ByteValue(s[1]), ByteValue(s[2]), ByteValue(s[3]));
    ByteLowSeven(s[0]);
    ByteTopBit(s[1]);
    ByteIsZero(s[1]);
    ByteIsZero(s[2]);
    ByteIsZero(s[3]);
  }

  lemma {:induction false} FourMagnitudeNaN(s: seq<bv8>)
    requires |s| == 4
    ensures BigEndianValue(ClearTop(s)) > FLOAT_INFINITE_MAGNITUDE <==>
            s[0] & 0x7f == 0x7f && s[1] & 0x80 != 0 && (s[1] & 0x7f != 0 || s[2] != 0 || s[3] != 0)
  {
    BigEndianValueFour(ClearTop(s));
    FourDigitBoundaries(ByteValue(s[0] & 0x7f), ByteValue(s[1]), ByteValue(s[2]), ByteValue(s[3]));
    ByteLowSeven(s[0]);
    ByteTopBit(s[1]);
    ByteIsZero(s[1]);
    ByteIsZero(s[2]);
    ByteIsZero(s[3]);
  }

  lemma {:induction false} EightClearTopValue(s: seq<bv8>)
    requires |s| == 8
    ensures BigEndianValue(s) ==
            BigEndianValue(ClearTop(s)) + (if s[0] & 0x80 != 0 then 0x8000_0000_0000_0000 else 0)
  {
    BigEndianValueEight(s);
    BigEndianValueEight(ClearTop(s));
    ByteSignSplit(s[0]);
  }

  lemma {:induction false} EightSetTopValue(s: seq<bv8>)
    requires |s| == 8
    ensures s[0] & 0x80 == 0 ==> BigEndianValue(SetTop(s)) == BigEndianValue(s) + 0x8000_0000_0000_0000
  {
    BigEndianValueEight(s);
    BigEndianValueEight(SetTop(s));
    ByteValueFlipTop(s[0]);
  }

  lemma {:induction false} EightComplementValue(s: seq<bv8>)
    requires |s| == 8
    ensures BigEndianValue(Complement(s)) == 0xffff_ffff_ffff_ffff - BigEndianValue(s)
  {
    BigEndianValueEight(s);
    BigEndianValueEight(Complement(s));
    forall i | 0 <= i < 8 {
      ByteValueComplement(s[i]);
    }
  }

  lemma {:induction false} EightMagnitudeZero(s: seq<bv8>)
    requires |s| == 8
    ensures BigEndianValue(ClearTop(s)) == 0 <==> DoubleZeroShape(s)
  {
    var c := ClearTop(s);
    BigEndianValueEight(c);
    EightDigitBoundaries(ByteValue(c[0]), ByteValue(c[1]), ByteValue(c[2]), ByteValue(c[3]),
                         ByteValue(c[4]), ByteValue(c[5]), ByteValue(c[6]), ByteValue(c[7]));
    ByteLowSeven(s[0]);
    ByteTopNibble(s[1]);
    forall i | 1 <= i < 8 {
      ByteIsZero(s[i]);
    }
  }

  lemma {:induction false} EightMagnitudeInfinite(s: seq<bv8>)
    requires |s| == 8
    ensures BigEndianValue(ClearTop(s)) == DOUBLE_INFINITE_MAGNITUDE <==> DoubleInfiniteShape(s)
  {
    var c := ClearTop(s);
    BigEndianValueEight(c);
    EightDigitBoundaries(ByteValue(c[0]), ByteValue(c[1]), ByteValue(c[2]), ByteValue(c[3]),
                         ByteValue(c[4]), ByteValue(c[5]), ByteValue(c[6]), ByteValue(c[7]));
    ByteLowSeven(s[0]);
    ByteTopNibble(s[1]);
    forall i | 1 <= i < 8 {
      ByteIsZero(s[i]);
    }
  }

  lemma {:induction false} EightMagnitudeNaN(s: seq<bv8>)
    requires |s| == 8
    ensures BigEndianValue(ClearTop(s)) > DOUBLE_INFINITE_MAGNITUDE <==> DoubleNaNShape(s)
  {
    var c := ClearTop(s);
    BigEndianValueEight(c);
    var d0, d1, d2, d3 := ByteValue(c[0]), ByteValue(c[1]), ByteValue(c[2]), ByteValue(c[3]);
    var d4, d5, d6, d7 := ByteValue(c[4]), ByteValue(c[5]), ByteValue(c[6]), ByteValue(c[7]);
    ByteLowSeven(s[0]);
    assert d0 == 0x7f <==> s[0] & 0x7f == 0x7f;
    ByteTopNibble(s[1]);
    assert d1 >= 0xf0 <==> s[1] & 0xf0 == 0xf0;
    assert d1 > 0xf0 <==> s[1] & 0xf0 == 0xf0 && s[1] & 0x0f != 0;
    forall i | 2 <= i < 8 {
      ByteIsZero(s[i]);
    }
    assert d2 != 0 || d3 != 0 || d4 != 0 || d5 != 0 || d6 != 0 || d7 != 0 <==>
           s[2] != 0 || s[3] != 0 || s[4] != 0 || s[5] != 0 || s[6] != 0 || s[7] != 0;
    EightDigitBoundaries(d0, d1, d2, d3, d4, d5, d6, d7);
  }

  const FLOAT_INFINITE_MAGNITUDE: int := 0x7f80_0000
  const DOUBLE_INFINITE_MAGNITUDE: int := 0x7ff0_0000_0000_0000

  // Facts about one float pattern, each in its own lemma.

  lemma FloatUnsignedSplit(x: bv32)
    ensures Unsigned32(x) == FloatMagnitude(x) + (if FloatNegative(x) then 0x8000_0000 else 0)
  {
    var s := BigEndian32(x);
    FloatClearedImage(x);
    FloatSignByte(x);
    FourClearTopValue(s);
  }

  lemma FloatComplementValue(x: bv32)
    ensures Unsigned32(!x) == 0xffff_ffff - Unsigned32(x)
  {
    var s := BigEndian32(x);
    FloatComplementImage(x);
    ComplementOfFour(s);
    FourComplementValue(s);
  }

  lemma FloatSetSignValue(x: bv32)
    ensures !FloatNegative(x) ==> Unsigned32(x | FLOAT_SIGN) == Unsigned32(x) + 0x8000_0000
  {
    var s := BigEndian32(x);
    FloatSignedImage(x);
    FloatSignByte(x);
    FourSetTopValue(s);
  }

  lemma FloatZeroMagnitude(x: bv32)
    ensures FloatIsZero(x) <==> FloatMagnitude(x) == 0
  {
    var s := BigEndian32(x);
    FloatClearedImage(x);
    FloatZeroBytes(x);
    FourMagnitudeZero(s);
  }

  lemma ByteSevenOnes(b: bv8)
    ensures b & 0x80 == 0 && b & 0x7f == 0x7f <==> b == 0x7f
    ensures b & 0x80 != 0 && b & 0x7f == 0x7f <==> b == 0xff
  {}

  lemma FloatPositiveInfiniteMagnitude(x: bv32)
    ensures x == FLOAT_POSITIVE_INFINITY <==> !FloatNegative(x) && FloatMagnitude(x) == FLOAT_INFINITE_MAGNITUDE
  {
    var s := BigEndian32(x);
    FloatClearedImage(x);
    FloatSignByte(x);
    FloatInfinityBytes(x);
    FourMagnitudeInfinite(s);
    ByteSevenOnes(s[0]);
    var bytes := s[0] == 0x7f && s[1] == 0x80 && s[2] == 0 && s[3] == 0;
    assert x == FLOAT_POSITIVE_INFINITY <==> bytes;
    assert !FloatNegative(x) && FloatMagnitude(x) == FLOAT_INFINITE_MAGNITUDE <==> bytes;
  }

  lemma FloatNegativeInfiniteMagnitude(x: bv32)
    ensures x == FLOAT_NEGATIVE_INFINITY <==> FloatNegative(x) && FloatMagnitude(x) == FLOAT_INFINITE_MAGNITUDE
  {
    var s := BigEndian32(x);
    FloatClearedImage(x);
    FloatSignByte(x);
    FloatInfinityBytes(x);
    FourMagnitudeInfinite(s);
    ByteSevenOnes(s[0]);
  }

  lemma FloatNaNMagnitude(x: bv32)
    ensures FloatIsNaN(x) <==> FloatMagnitude(x) > FLOAT_INFINITE_MAGNITUDE
  {
    var s := BigEndian32(x);
    FloatClearedImage(x);
    FloatNaNBytes(x);
    FourMagnitudeNaN(s);
  }

  lemma FloatConstantValues()
    ensures Unsigned32(0) == 0
    ensures Unsigned32(0x8000_0000) == 0x8000_0000
    ensures Unsigned32(0xffff_ffff) == 0xffff_ffff
  {
    BigEndianValueFour(BigEndian32(0));
    BigEndianValueFour(BigEndian32(0x8000_0000));
    BigEndianValueFour(BigEndian32(0xffff_ffff));
  }

  /**
    The unsigned value EncodeFloat gives a non-NaN pattern of rank r: 2^31
    for the zeros, the extremes for the infinities, 2^31 + r above zero and
    2^31 - 1 + r below it.
   */
  function FloatKeyOfRank(r: int): int {
    if r == 0 then 0x8000_0000
    else if r >= FLOAT_INFINITE_MAGNITUDE then 0xffff_ffff
    else if r <= -FLOAT_INFINITE_MAGNITUDE then 0
    else if r > 0 then 0x8000_0000 + r
    else 0x7fff_ffff + r
  }

  lemma FloatKeyOfRankMonotone(r: int, q: int)
    requires -FLOAT_INFINITE_MAGNITUDE <= r <= FLOAT_INFINITE_MAGNITUDE
    requires -FLOAT_INFINITE_MAGNITUDE <= q <= FLOAT_INFINITE_MAGNITUDE
    ensures r < q <==> FloatKeyOfRank(r) < FloatKeyOfRank(q)
  {
    if r < q {
      assert FloatKeyOfRank(r) < FloatKeyOfRank(q);
    } else if q < r {
      assert FloatKeyOfRank(q) < FloatKeyOfRank(r);
    }
  }

  /** A pattern that is not NaN has a rank between the two infinities. */
  lemma FloatRankBound(bits: bv32)
    requires !FloatIsNaN(bits)
    ensures -FLOAT_INFINITE_MAGNITUDE <= FloatRank(bits) <= FLOAT_INFINITE_MAGNITUDE
  {
    FloatNaNMagnitude(bits);
  }

  lemma FloatKeyOfZero(bits: bv32)
    requires FloatIsZero(bits)
    ensures Unsigned32(EncodeFloat(bits)) == FloatKeyOfRank(FloatRank(bits))
  {
    EncodeFloatCases(bits);
    FloatConstantValues();
    FloatZeroMagnitude(bits);
  }

  lemma FloatKeyOfPositiveInfinity(bits: bv32)
    requires bits == FLOAT_POSITIVE_INFINITY
    ensures Unsigned32(EncodeFloat(bits)) == FloatKeyOfRank(FloatRank(bits))
  {
    EncodeFloatCases(bits);
    FloatConstantValues();
    FloatPositiveInfiniteMagnitude(bits);
  }

  lemma FloatKeyOfNegativeInfinity(bits: bv32)
    requires bits == FLOAT_NEGATIVE_INFINITY
    ensures Unsigned32(EncodeFloat(bits)) == FloatKeyOfRank(FloatRank(bits))
  {
    EncodeFloatCases(bits);
    FloatConstantValues();
    FloatNegativeInfiniteMagnitude(bits);
  }

  lemma FloatKeyOfFinite(bits: bv32)
    requires !FloatIsNaN(bits) && !FloatIsZero(bits)
    requires bits != FLOAT_POSITIVE_INFINITY && bits != FLOAT_NEGATIVE_INFINITY
    ensures Unsigned32(EncodeFloat(bits)) == FloatKeyOfRank(FloatRank(bits))
  {
    EncodeFloatCases(bits);
    FloatZeroMagnitude(bits);
    FloatNaNMagnitude(bits);
    FloatPositiveInfiniteMagnitude(bits);
    FloatNegativeInfiniteMagnitude(bits);
    FloatUnsignedSplit(bits);
    if FloatNegative(bits) {
      FloatComplementValue(bits);
    } else {
      FloatSetSignValue(bits);
    }
  }

  /** The unsigned value of EncodeFloat on a non-NaN pattern is a function of its rank. */
  lemma FloatKeyValue(bits: bv32)
    requires !FloatIsNaN(bits)
    ensures Unsigned32(EncodeFloat(bits)) == FloatKeyOfRank(FloatRank(bits))
  {
    if FloatIsZero(bits) {
      FloatKeyOfZero(bits);
    } else if bits == FLOAT_POSITIVE_INFINITY {
      FloatKeyOfPositiveInfinity(bits);
    } else if bits == FLOAT_NEGATIVE_INFINITY {
      FloatKeyOfNegativeInfinity(bits);
    } else {
      FloatKeyOfFinite(bits);
    }
  }

  /**
    The property the float key exists for: on patterns that are not NaN,
    comparing the big-endian bytes of the encodings with memcmp orders them
    as IEEE-754 orders the floats (by signed magnitude, the zeros equal).
   */
  lemma FloatKeyOrder(a: bv32, b: bv32)
    requires !FloatIsNaN(a) && !FloatIsNaN(b)
    ensures MemcmpLess(BigEndian32(EncodeFloat(a)), BigEndian32(EncodeFloat(b))) <==> FloatRank(a) < FloatRank(b)
  {
    MemcmpLessValue(BigEndian32(EncodeFloat(a)), BigEndian32(EncodeFloat(b)));
    FloatKeyValue(a);
    FloatKeyValue(b);
    FloatRankBound(a);
    FloatRankBound(b);
    FloatKeyOfRankMonotone(FloatRank(a), FloatRank(b));
  }

  /** Two non-NaN patterns of equal rank (in particular +0.0 and -0.0) encode to the same word. */
  lemma FloatKeyEqual(a: bv32, b: bv32)
    requires !FloatIsNaN(a) && !FloatIsNaN(b)
    ensures EncodeFloat(a) == EncodeFloat(b) <==> FloatRank(a) == FloatRank(b)
  {
    var ea, eb := EncodeFloat(a), EncodeFloat(b);
    FloatKeyValue(a);
    FloatKeyValue(b);
    FloatRankBound(a);
    FloatRankBound(b);
    FloatKeyOfRankMonotone(FloatRank(a), FloatRank(b));
    FloatKeyOfRankMonotone(FloatRank(b), FloatRank(a));
    Unsigned32Injective(ea, eb);
    assert Unsigned32(ea) == Unsigned32(eb) <==> FloatRank(a) == FloatRank(b);
  }

  // Facts about one double pattern, each in its own lemma.

  lemma DoubleUnsignedSplit(x: bv64)
    ensures Unsigned64(x) == DoubleMagnitude(x) + (if DoubleNegative(x) then 0x8000_0000_0000_0000 else 0)
  {
    var s := BigEndian64(x);
    DoubleClearedImage(x);
    DoubleSignByte(x);
    EightClearTopValue(s);
  }

  lemma DoubleComplementValue(x: bv64)
    ensures Unsigned64(!x) == 0xffff_ffff_ffff_ffff - Unsigned64(x)
  {
    var s := BigEndian64(x);
    DoubleComplementImage(x);
    ComplementOfEight(s);
    EightComplementValue(s);
  }

  lemma DoubleSetSignValue(x: bv64)
    ensures !DoubleNegative(x) ==> Unsigned64(x | DOUBLE_SIGN) == Unsigned64(x) + 0x8000_0000_0000_0000
  {
    var s := BigEndian64(x);
    DoubleSignedImage(x);
    DoubleSignByte(x);
    EightSetTopValue(s);
  }

  lemma DoubleZeroMagnitude(x: bv64)
    ensures DoubleIsZero(x) <==> DoubleMagnitude(x) == 0
  {
    var s := BigEndian64(x);
    DoubleClearedImage(x);
    DoubleZeroBytes(x);
    EightMagnitudeZero(s);
  }

  lemma DoublePositiveInfiniteMagnitude(x: bv64)
    ensures x == DOUBLE_POSITIVE_INFINITY <==> !DoubleNegative(x) && DoubleMagnitude(x) == DOUBLE_INFINITE_MAGNITUDE
  {
    var s := BigEndian64(x);
    DoubleClearedImage(x);
    assert DoubleMagnitude(x) == BigEndianValue(ClearTop(s));
    DoubleSignByte(x);
    DoubleInfinityBytes(x);
    EightMagnitudeInfinite(s);
  }


  lemma DoubleNegativeInfiniteMagnitude(x: bv64)
    ensures x == DOUBLE_NEGATIVE_INFINITY <==> DoubleNegative(x) && DoubleMagnitude(x) == DOUBLE_INFINITE_MAGNITUDE
  {
    var s := BigEndian64(x);
    DoubleClearedImage(x);
    assert DoubleMagnitude(x) == BigEndianValue(ClearTop(s));
    DoubleSignByte(x);
    DoubleInfinityBytes(x);
    EightMagnitudeInfinite(s);
  }


  lemma DoubleNaNMagnitude(x: bv64)
    ensures DoubleIsNaN(x) <==> DoubleMagnitude(x) > DOUBLE_INFINITE_MAGNITUDE
  {
    var s := BigEndian64(x);
    DoubleClearedImage(x);
    assert DoubleMagnitude(x) == BigEndianValue(ClearTop(s));
    DoubleNaNBytes(x);
    EightMagnitudeNaN(s);
  }

  lemma DoubleZeroValue()
    ensures Unsigned64(0) == 0
  {
    assert BigEndian64(0) == [0, 0, 0, 0, 0, 0, 0, 0];
    BigEndianValueEight(BigEndian64(0));
  }

  lemma DoubleSignValue()
    ensures Unsigned64(0x8000_0000_0000_0000) == 0x8000_0000_0000_0000
  {
    assert BigEndian64(0x8000_0000_0000_0000) == [0x80, 0, 0, 0, 0, 0, 0, 0];
    BigEndianValueEight(BigEndian64(0x8000_0000_0000_0000));
  }

  lemma DoubleAllOnesValue()
    ensures Unsigned64(0xffff_ffff_ffff_ffff) == 0xffff_ffff_ffff_ffff
  {
    assert BigEndian64(0xffff_ffff_ffff_ffff) == [0xff, 0xff, 0xff, 0xff, 0xff, 0xff, 0xff, 0xff];
    BigEndianValueEight(BigEndian64(0xffff_ffff_ffff_ffff));
  }

  /** The unsigned value EncodeDouble gives a non-NaN pattern of rank r (as for floats, with 2^63). */
  function DoubleKeyOfRank(r: int): int {
    if r == 0 then 0x8000_0000_0000_0000
    else if r >= DOUBLE_INFINITE_MAGNITUDE then 0xffff_ffff_ffff_ffff
    else if r <= -DOUBLE_INFINITE_MAGNITUDE then 0
    else if r > 0 then 0x8000_0000_0000_0000 + r
    else 0x7fff_ffff_ffff_ffff + r
  }

  lemma DoubleKeyOfRankMonotone(r: int, q: int)
    requires -DOUBLE_INFINITE_MAGNITUDE <= r <= DOUBLE_INFINITE_MAGNITUDE
    requires -DOUBLE_INFINITE_MAGNITUDE <= q <= DOUBLE_INFINITE_MAGNITUDE
    ensures r < q <==> DoubleKeyOfRank(r) < DoubleKeyOfRank(q)
  {
    if r < q {
      assert DoubleKeyOfRank(r) < DoubleKeyOfRank(q);
    } else if q < r {
      assert DoubleKeyOfRank(q) < DoubleKeyOfRank(r);
    }
  }

  lemma DoubleRankBound(bits: bv64)
    requires !DoubleIsNaN(bits)
    ensures -DOUBLE_INFINITE_MAGNITUDE <= DoubleRank(bits) <= DOUBLE_INFINITE_MAGNITUDE
  {
    DoubleNaNMagnitude(bits);
  }

  lemma DoubleKeyOfZero(bits: bv64)
    requires DoubleIsZero(bits)
    ensures Unsigned64(EncodeDouble(bits)) == DoubleKeyOfRank(DoubleRank(bits))
  {
    EncodeDoubleCases(bits);
    DoubleSignValue();
    DoubleZeroMagnitude(bits);
  }

  lemma DoubleKeyOfPositiveInfinity(bits: bv64)
    requires bits == DOUBLE_POSITIVE_INFINITY
    ensures Unsigned64(EncodeDouble(bits)) == DoubleKeyOfRank(DoubleRank(bits))
  {
    EncodeDoubleCases(bits);
    DoubleAllOnesValue();
    DoublePositiveInfiniteMagnitude(bits);
  }

  lemma DoubleKeyOfNegativeInfinity(bits: bv64)
    requires bits == DOUBLE_NEGATIVE_INFINITY
    ensures Unsigned64(EncodeDouble(bits)) == DoubleKeyOfRank(DoubleRank(bits))
  {
    EncodeDoubleCases(bits);
    DoubleZeroValue();
    DoubleNegativeInfiniteMagnitude(bits);
  }

  lemma DoubleKeyOfFinite(bits: bv64)
    requires !DoubleIsNaN(bits) && !DoubleIsZero(bits)
    requires bits != DOUBLE_POSITIVE_INFINITY && bits != DOUBLE_NEGATIVE_INFINITY
    ensures Unsigned64(EncodeDouble(bits)) == DoubleKeyOfRank(DoubleRank(bits))
  {
    EncodeDoubleCases(bits);
    DoubleZeroMagnitude(bits);
    DoubleNaNMagnitude(bits);
    DoublePositiveInfiniteMagnitude(bits);
    DoubleNegativeInfiniteMagnitude(bits);
    DoubleUnsignedSplit(bits);
    if DoubleNegative(bits) {
      DoubleComplementValue(bits);
    } else {
      DoubleSetSignValue(bits);
    }
  }

  lemma DoubleKeyValue(bits: bv64)
    requires !DoubleIsNaN(bits)
    ensures Unsigned64(EncodeDouble(bits)) == DoubleKeyOfRank(DoubleRank(bits))
  {
    if DoubleIsZero(bits) {
      DoubleKeyOfZero(bits);
    } else if bits == DOUBLE_POSITIVE_INFINITY {
      DoubleKeyOfPositiveInfinity(bits);
    } else if bits == DOUBLE_NEGATIVE_INFINITY {
      DoubleKeyOfNegativeInfinity(bits);
    } else {
      DoubleKeyOfFinite(bits);
    }
  }

  /** memcmp on the big-endian bytes of EncodeDouble orders non-NaN doubles as IEEE-754 does. */
  lemma DoubleKeyOrder(a: bv64, b: bv64)
    requires !DoubleIsNaN(a) && !DoubleIsNaN(b)
    ensures MemcmpLess(BigEndian64(EncodeDouble(a)), BigEndian64(EncodeDouble(b))) <==> DoubleRank(a) < DoubleRank(b)
  {
    MemcmpLessValue(BigEndian64(EncodeDouble(a)), BigEndian64(EncodeDouble(b)));
    DoubleKeyValue(a);
    DoubleKeyValue(b);
    DoubleRankBound(a);
    DoubleRankBound(b);
    DoubleKeyOfRankMonotone(DoubleRank(a), DoubleRank(b));
  }

  lemma DoubleKeyEqual(a: bv64, b: bv64)
    requires !DoubleIsNaN(a) && !DoubleIsNaN(b)
    ensures EncodeDouble(a) == EncodeDouble(b) <==> DoubleRank(a) == DoubleRank(b)
  {
    DoubleKeyValue(a);
    DoubleKeyValue(b);
    DoubleRankBound(a);
    DoubleRankBound(b);
    KeyEqualIffRankEqual(EncodeDouble(a), EncodeDouble(b), DoubleRank(a), DoubleRank(b));
  }

  /** Two keys that denote the key numbers of two ranks in range are equal exactly when the ranks are. */
  lemma KeyEqualIffRankEqual(ka: bv64, kb: bv64, r: int, q: int)
    requires -DOUBLE_INFINITE_MAGNITUDE <= r <= DOUBLE_INFINITE_MAGNITUDE
    requires -DOUBLE_INFINITE_MAGNITUDE <= q <= DOUBLE_INFINITE_MAGNITUDE
    requires Unsigned64(ka) == DoubleKeyOfRank(r) && Unsigned64(kb) == DoubleKeyOfRank(q)
    ensures ka == kb <==> r == q
  {
    DoubleKeyOfRankInjective(r, q);
    Unsigned64Injective(ka, kb);
  }

  /** Distinct ranks in range have distinct keys. */
  lemma DoubleKeyOfRankInjective(r: int, q: int)
    requires -DOUBLE_INFINITE_MAGNITUDE <= r <= DOUBLE_INFINITE_MAGNITUDE
    requires -DOUBLE_INFINITE_MAGNITUDE <= q <= DOUBLE_INFINITE_MAGNITUDE
    ensures DoubleKeyOfRank(r) == DoubleKeyOfRank(q) <==> r == q
  {
    DoubleKeyOfRankMonotone(r, q);
    DoubleKeyOfRankMonotone(q, r);
  }

  // ---------------------------------------------------------------------------
  // Signed and unsigned integers: memcmp order of the key is numeric order

  /** The number an int8 key denotes is the value shifted up by 2^7. */
  lemma SignedKeyValue8(x: bv8)
    ensures BigEndianValue(FlipFirst([x])) == Signed8(x) + 0x80
  {
    FlipFirstValueOne([x]);
    HornerOne(ByteValue(x));
    assert Values([x]) == [ByteValue(x)];
  }

  lemma SignedKeyValue16(x: bv16)
    ensures BigEndianValue(FlipFirst(BigEndian16(x))) == Signed16(x) + 0x8000
  {
    FlipFirstValueTwo(BigEndian16(x));
    SignBits(x, 0, 0);
  }

  lemma SignedKeyValue32(x: bv32)
    ensures BigEndianValue(FlipFirst(BigEndian32(x))) == Signed32(x) + 0x8000_0000
  {
    FlipFirstValueFour(BigEndian32(x));
    SignBits(0, x, 0);
  }

  lemma SignedKeyValue64(x: bv64)
    ensures BigEndianValue(FlipFirst(BigEndian64(x))) == Signed64(x) + 0x8000_0000_0000_0000
  {
    FlipFirstValueEight(BigEndian64(x));
    SignBits(0, 0, x);
  }

  /** Byte-wise order of sign-flipped big-endian keys is two's complement order, for each width. */
  lemma SignedKeyOrder8(x: bv8, y: bv8)
    ensures MemcmpLess(FlipFirst([x]), FlipFirst([y])) <==> Signed8(x) < Signed8(y)
  {
    MemcmpLessValue(FlipFirst([x]), FlipFirst([y]));
    SignedKeyValue8(x);
    SignedKeyValue8(y);
  }

  lemma SignedKeyOrder16(x: bv16, y: bv16)
    ensures MemcmpLess(FlipFirst(BigEndian16(x)), FlipFirst(BigEndian16(y))) <==> Signed16(x) < Signed16(y)
  {
    MemcmpLessValue(FlipFirst(BigEndian16(x)), FlipFirst(BigEndian16(y)));
    SignedKeyValue16(x);
    SignedKeyValue16(y);
  }

  lemma SignedKeyOrder32(x: bv32, y: bv32)
    ensures MemcmpLess(FlipFirst(BigEndian32(x)), FlipFirst(BigEndian32(y))) <==> Signed32(x) < Signed32(y)
  {
    MemcmpLessValue(FlipFirst(BigEndian32(x)), FlipFirst(BigEndian32(y)));
    SignedKeyValue32(x);
    SignedKeyValue32(y);
  }

  lemma SignedKeyOrder64(x: bv64, y: bv64)
    ensures MemcmpLess(FlipFirst(BigEndian64(x)), FlipFirst(BigEndian64(y))) <==> Signed64(x) < Signed64(y)
  {
    MemcmpLessValue(FlipFirst(BigEndian64(x)), FlipFirst(BigEndian64(y)));
    SignedKeyValue64(x);
    SignedKeyValue64(y);
  }

  /** Byte-wise order of big-endian images is the machine's unsigned order, for each width. */
  lemma UnsignedKeyOrder8(x: bv8, y: bv8)
    ensures MemcmpLess([x], [y]) <==> ByteValue(x) < ByteValue(y)
    ensures MemcmpLess([x], [y]) <==> x < y
  {
    MemcmpLessValue([x], [y]);
    HornerOne(ByteValue(x));
    HornerOne(ByteValue(y));
    assert Values([x]) == [ByteValue(x)] && Values([y]) == [ByteValue(y)];
    ByteValueOrder(x, y);
  }

  lemma UnsignedKeyOrder16(x: bv16, y: bv16)
    ensures MemcmpLess(BigEndian16(x), BigEndian16(y)) <==> Unsigned16(x) < Unsigned16(y)
    ensures MemcmpLess(BigEndian16(x), BigEndian16(y)) <==> x < y
  {
    MemcmpLessValue(BigEndian16(x), BigEndian16(y));
    Unsigned16Order(x, y);
  }

  lemma UnsignedKeyOrder32(x: bv32, y: bv32)
    ensures MemcmpLess(BigEndian32(x), BigEndian32(y)) <==> Unsigned32(x) < Unsigned32(y)
    ensures MemcmpLess(BigEndian32(x), BigEndian32(y)) <==> x < y
  {
    MemcmpLessValue(BigEndian32(x), BigEndian32(y));
    Unsigned32Order(x, y);
  }

  lemma UnsignedKeyOrder64(x: bv64, y: bv64)
    ensures MemcmpLess(BigEndian64(x), BigEndian64(y)) <==> Unsigned64(x) < Unsigned64(y)
    ensures MemcmpLess(BigEndian64(x), BigEndian64(y)) <==> x < y
  {
    MemcmpLessValue(BigEndian64(x), BigEndian64(y));
    Unsigned64Order(x, y);
  }

  // ---------------------------------------------------------------------------
  // EncodeData<T>: the key bytes written for one value

  /** The C++ types the templates are instantiated with (hash_t is uint64_t). */
  datatype CType =
    | BoolT | Int8T | Int16T | Int32T | Int64T | UInt8T | UInt16T | UInt32T | UInt64T
    | HugeintT | FloatT | DoubleT | IntervalT | StringT

  /** sizeof(T). */
  function SizeOf(c: CType): (size: nat)
    ensures size in {1, 2, 4, 8, 16}
  {
    match c
    case BoolT | Int8T | UInt8T => 1
    case Int16T | UInt16T => 2
    case Int32T | UInt32T | FloatT => 4
    case Int64T | UInt64T | DoubleT => 8
    case HugeintT | IntervalT | StringT => 16
  }

  /** `v` is a value of C++ type `c`. */
  predicate Fits(c: CType, v: Value) {
    match c
    case BoolT | Int8T | UInt8T => v.Byte?
    case Int16T | UInt16T => v.Half?
    case Int32T | UInt32T | FloatT => v.Word?
    case Int64T | UInt64T | DoubleT => v.Long?
    case HugeintT | IntervalT => v.Opaque16? && |v.raw| == 16
    case StringT => v.Str? && |v.chars| < UINT32_RANGE
  }

  /** The template SerializeVectorSortable instantiates for a physical type (BOOL takes the int8_t path). */
  function SortableTemplate(t: PhysicalType): Result<CType> {
    match t
    case BOOL | INT8 => Ok(Int8T)
    case INT16 => Ok(Int16T)
    case INT32 => Ok(Int32T)
    case INT64 => Ok(Int64T)
    case UINT8 => Ok(UInt8T)
    case UINT16 => Ok(UInt16T)
    case UINT32 => Ok(UInt32T)
    case UINT64 | HASH => Ok(UInt64T)
    case INT128 => Ok(HugeintT)
    case FLOAT => Ok(FloatT)
    case DOUBLE => Ok(DoubleT)
    case INTERVAL => Ok(IntervalT)
    case VARCHAR | LIST | STRUCT => Err(NotImplemented("FIXME: unimplemented deserialize"))
  }

  /**
    The sortable dispatch accepts exactly the constant-size types, each with
    a template of the type's own size, whose parameter type holds the
    vector's values; every other type throws NotImplemented.
   */
  lemma SortableTemplateSound(t: PhysicalType, v: Value)
    ensures SortableTemplate(t).Ok? <==> TypeIsConstantSize(t)
    ensures SortableTemplate(t).Ok? ==> SizeOf(SortableTemplate(t).value) == TypeIdSize(t)
    ensures SortableTemplate(t).Ok? && HasType(v, t) ==> Fits(SortableTemplate(t).value, v)
    ensures SortableTemplate(t).Err? ==> SortableTemplate(t).error == NotImplemented("FIXME: unimplemented deserialize")
  {
    match t
    case BOOL | INT8 | INT16 | INT32 | INT64 | UINT8 | UINT16 | UINT32 | UINT64 | HASH => {}
    case INT128 | FLOAT | DOUBLE | INTERVAL => {}
    case VARCHAR | LIST | STRUCT => {}
  }

  /** The value a store of `x` through a uintN_t pointer holds: byte-swapped on a little-endian host. */
  function Swap16If(x: bv16, littleEndian: bool): bv16 { if littleEndian then BSwap16(x) else x }
  function Swap32If(x: bv32, littleEndian: bool): bv32 { if littleEndian then BSwap32(x) else x }
  function Swap64If(x: bv64, littleEndian: bool): bv64 { if littleEndian then BSwap64(x) else x }

  /**
    The bytes EncodeData<T> writes for `v` on a host of the given byte
    order; hugeint_t throws. The interval_t instantiation has no
    specialisation in the modelled file.
   */
  function EncodeData(c: CType, v: Value, littleEndian: bool): (r: Result<seq<bv8>>)
    requires Fits(c, v)
    ensures r.Err? <==> c == HugeintT || c == IntervalT
    ensures r.Ok? && c != StringT ==> |r.value| == SizeOf(c)
    ensures r.Ok? && c == StringT ==> r.value == v.chars + [0]
  {
    match c
    case BoolT => Ok([if v.b != 0 then 1 else 0])
    case Int8T => Ok(FlipFirst([v.b]))
    case Int16T => Ok(FlipFirst(Host16(Swap16If(v.h, littleEndian), littleEndian)))
    case Int32T => Ok(FlipFirst(Host32(Swap32If(v.w, littleEndian), littleEndian)))
    case Int64T => Ok(FlipFirst(Host64(Swap64If(v.l, littleEndian), littleEndian)))
    case UInt8T => Ok([v.b])
    case UInt16T => Ok(Host16(Swap16If(v.h, littleEndian), littleEndian))
    case UInt32T => Ok(Host32(Swap32If(v.w, littleEndian), littleEndian))
    case UInt64T => Ok(Host64(Swap64If(v.l, littleEndian), littleEndian))
    case HugeintT => Err(NotImplemented("hugeint_t encoding not implemented"))
    case FloatT => Ok(Host32(Swap32If(EncodeFloat(v.w), littleEndian), littleEndian))
    case DoubleT => Ok(Host64(Swap64If(EncodeDouble(v.l), littleEndian), littleEndian))
    case IntervalT => Err(NotModelled("EncodeData<interval_t> is not part of this model"))
    case StringT => Ok(v.chars + [0])
  }

  /** Types whose key is meant to order values. */
  predicate Orderable(c: CType) {
    !(c == HugeintT || c == IntervalT || c == StringT)
  }

  /** The key of a value, most significant byte first, independent of the host. */
  function SortKey(c: CType, v: Value): (key: seq<bv8>)
    requires Orderable(c) && Fits(c, v)
    ensures |key| == SizeOf(c)
  {
    match c
    case BoolT => [if v.b != 0 then 1 else 0]
    case Int8T => FlipFirst([v.b])
    case Int16T => FlipFirst(BigEndian16(v.h))
    case Int32T => FlipFirst(BigEndian32(v.w))
    case Int64T => FlipFirst(BigEndian64(v.l))
    case UInt8T => [v.b]
    case UInt16T => BigEndian16(v.h)
    case UInt32T => BigEndian32(v.w)
    case UInt64T => BigEndian64(v.l)
    case FloatT => BigEndian32(EncodeFloat(v.w))
    case DoubleT => BigEndian64(EncodeDouble(v.l))
  }

  /** On either host, EncodeData writes the big-endian key: the swap undoes the host's byte order. */
  lemma EncodeDataIsSortKey(c: CType, v: Value, littleEndian: bool)
    requires Orderable(c) && Fits(c, v)
    ensures EncodeData(c, v, littleEndian) == Ok(SortKey(c, v))
  {
    match c
    case BoolT | Int8T | UInt8T => {}
    case Int16T => SwappedStore16(v.h, littleEndian);
    case UInt16T => SwappedStore16(v.h, littleEndian);
    case Int32T => SwappedStore32(v.w, littleEndian);
    case UInt32T => SwappedStore32(v.w, littleEndian);
    case FloatT => SwappedStore32(EncodeFloat(v.w), littleEndian);
    case Int64T => SwappedStore64(v.l, littleEndian);
    case UInt64T => SwappedStore64(v.l, littleEndian);
    case DoubleT => SwappedStore64(EncodeDouble(v.l), littleEndian);
  }

  /** NaN has no place in the order the float keys follow. */
  predicate NotNaN(c: CType, v: Value)
    requires Fits(c, v)
  {
    match c
    case FloatT => !FloatIsNaN(v.w)
    case DoubleT => !DoubleIsNaN(v.l)
    case _ => true
  }

  /**
    The order of values of a C++ type: false before true, numeric order,
    IEEE-754 order. The unsigned cases compare digit values, which order
    words as the machine's unsigned comparison does (Unsigned16Order and the
    wider ones).
   */
  predicate ValueLess(c: CType, a: Value, b: Value)
    requires Orderable(c) && Fits(c, a) && Fits(c, b)
  {
    match c
    case BoolT => a.b == 0 && b.b != 0
    case Int8T => Signed8(a.b) < Signed8(b.b)
    case Int16T => Signed16(a.h) < Signed16(b.h)
    case Int32T => Signed32(a.w) < Signed32(b.w)
    case Int64T => Signed64(a.l) < Signed64(b.l)
    case UInt8T => ByteValue(a.b) < ByteValue(b.b)
    case UInt16T => Unsigned16(a.h) < Unsigned16(b.h)
    case UInt32T => Unsigned32(a.w) < Unsigned32(b.w)
    case UInt64T => Unsigned64(a.l) < Unsigned64(b.l)
    case FloatT => FloatRank(a.w) < FloatRank(b.w)
    case DoubleT => DoubleRank(a.l) < DoubleRank(b.l)
  }

  lemma BoolKeyOrder(a: bv8, b: bv8)
    ensures MemcmpLess([if a != 0 then 1 else 0], [if b != 0 then 1 else 0]) <==> a == 0 && b != 0
  {
    UnsignedKeyOrder8(if a != 0 then 1 else 0, if b != 0 then 1 else 0);
  }

  lemma SignedSortKeyOrder(c: CType, a: Value, b: Value)
    requires c == Int8T || c == Int16T || c == Int32T || c == Int64T
    requires Fits(c, a) && Fits(c, b)
    ensures MemcmpLess(SortKey(c, a), SortKey(c, b)) <==> ValueLess(c, a, b)
  {
    match c
    case Int8T => SignedKeyOrder8(a.b, b.b);
    case Int16T => SignedKeyOrder16(a.h, b.h);
    case Int32T => SignedKeyOrder32(a.w, b.w);
    case Int64T => SignedKeyOrder64(a.l, b.l);
  }

  lemma UnsignedSortKeyOrder(c: CType, a: Value, b: Value)
    requires c == BoolT || c == UInt8T || c == UInt16T || c == UInt32T || c == UInt64T
    requires Fits(c, a) && Fits(c, b)
    ensures MemcmpLess(SortKey(c, a), SortKey(c, b)) <==> ValueLess(c, a, b)
  {
    match c
    case BoolT => BoolKeyOrder(a.b, b.b);
    case UInt8T => UnsignedKeyOrder8(a.b, b.b);
    case UInt16T => UnsignedKeyOrder16(a.h, b.h);
    case UInt32T => UnsignedKeyOrder32(a.w, b.w);
    case UInt64T => UnsignedKeyOrder64(a.l, b.l);
  }

  lemma FloatingSortKeyOrder(c: CType, a: Value, b: Value)
    requires c == FloatT || c == DoubleT
    requires Fits(c, a) && Fits(c, b) && NotNaN(c, a) && NotNaN(c, b)
    ensures MemcmpLess(SortKey(c, a), SortKey(c, b)) <==> ValueLess(c, a, b)
  {
    match c
    case FloatT => FloatKeyOrder(a.w, b.w);
    case DoubleT => DoubleKeyOrder(a.l, b.l);
  }

  /** memcmp order of big-endian keys is value order, NaN aside. */
  lemma SortKeyOrderBigEndian(c: CType, a: Value, b: Value)
    requires Orderable(c) && Fits(c, a) && Fits(c, b) && NotNaN(c, a) && NotNaN(c, b)
    ensures MemcmpLess(SortKey(c, a), SortKey(c, b)) <==> ValueLess(c, a, b)
  {
    if c == Int8T || c == Int16T || c == Int32T || c == Int64T {
      SignedSortKeyOrder(c, a, b);
    } else if c == FloatT || c == DoubleT {
      FloatingSortKeyOrder(c, a, b);
    } else {
      UnsignedSortKeyOrder(c, a, b);
    }
  }

  /**
    The order-preserving property of the sortable encoding: on either host,
    memcmp of the bytes EncodeData writes for two values (NaN aside) orders
    them as the values are ordered.
   */
  lemma SortKeyOrder(c: CType, a: Value, b: Value, littleEndian: bool)
    requires Orderable(c) && Fits(c, a) && Fits(c, b) && NotNaN(c, a) && NotNaN(c, b)
    ensures MemcmpLess(EncodeData(c, a, littleEndian).value, EncodeData(c, b, littleEndian).value) <==> ValueLess(c, a, b)
  {
    EncodeDataIsSortKey(c, a, littleEndian);
    EncodeDataIsSortKey(c, b, littleEndian);
    SortKeyOrderBigEndian(c, a, b);
  }

  // ---------------------------------------------------------------------------
  // Validity prefix, BOOL via int8_t, and worked keys

  /**
    The byte written before a key when the column has NULLs. The source sets
    both the valid and the invalid constant to `invert ? 0 : 1`.
   */
  function ValidityByte(valid: bool, invert: bool): (r: bv8)
    ensures r == (if invert then 0 else 1)
  {
    var validByte: bv8 := if invert then 0 else 1;
    var invalidByte: bv8 := if invert then 0 else 1;
    if valid then validByte else invalidByte
  }

  /** A NULL row and a valid row get the same prefix, so the prefix does not separate NULLs. */
  lemma ValidityByteIgnoresValidity(invert: bool)
    ensures ValidityByte(true, invert) == ValidityByte(false, invert)
  {}

  /**
    The bytes one row contributes to a sortable key: the optional validity
    prefix and the encoded value. Their length is sizeof(T), plus one when
    the column has NULLs.
   */
  function SortableRowBytes(c: CType, v: Value, hasNull: bool, valid: bool, invert: bool, littleEndian: bool)
    : (r: Result<seq<bv8>>)
    requires Fits(c, v) && c != StringT
    ensures r.Err? <==> c == HugeintT || c == IntervalT
    ensures r.Ok? ==> |r.value| == SizeOf(c) + (if hasNull then 1 else 0)
    ensures r.Ok? && hasNull ==> r.value[0] == (if invert then 0 else 1)
  {
    var prefix := if hasNull then [ValidityByte(valid, invert)] else [];
    match EncodeData(c, v, littleEndian)
    case Ok(key) => Ok(prefix + key)
    case Err(e) => Err(e)
  }

  /**
    BOOL columns take the int8_t template, not the bool specialisation:
    true (1) becomes 0x81 and false (0) becomes 0x80, where the bool
    encoder would write 1 and 0. The two keys still order false first.
   */
  lemma BoolTakesInt8Path(littleEndian: bool)
    ensures SortableTemplate(BOOL) == Ok(Int8T)
    ensures EncodeData(Int8T, Byte(1), littleEndian) == Ok([0x81])
    ensures EncodeData(Int8T, Byte(0), littleEndian) == Ok([0x80])
    ensures EncodeData(BoolT, Byte(1), littleEndian) == Ok([1])
    ensures MemcmpLess([0x80], [0x81])
  {
    assert FlipFirst([1]) == [0x81];
    assert FlipFirst([0]) == [0x80];
  }

  /** Keys of three int32 values: enc(-5) < enc(0) < enc(5) in memcmp order, on either host. */
  lemma Int32KeyExample(littleEndian: bool)
    ensures Signed32(0xffff_fffb) == -5 && Signed32(0) == 0 && Signed32(5) == 5
    ensures MemcmpLess(EncodeData(Int32T, Word(0xffff_fffb), littleEndian).value, EncodeData(Int32T, Word(0), littleEndian).value)
    ensures MemcmpLess(EncodeData(Int32T, Word(0), littleEndian).value, EncodeData(Int32T, Word(5), littleEndian).value)
  {
    BigEndianValueFour(BigEndian32(0xffff_fffb));
    BigEndianValueFour(BigEndian32(0));
    BigEndianValueFour(BigEndian32(5));
    SortKeyOrder(Int32T, Word(0xffff_fffb), Word(0), littleEndian);
    SortKeyOrder(Int32T, Word(0), Word(5), littleEndian);
  }

  /** Keys of -1.0, -0.0, +0.0 and 1.0 as doubles: the zeros coincide and the order is kept. */
  lemma DoubleKeyExample()
    ensures EncodeDouble(0xbff0_0000_0000_0000) == 0x400f_ffff_ffff_ffff
    ensures EncodeDouble(0x8000_0000_0000_0000) == 0x8000_0000_0000_0000
    ensures EncodeDouble(0) == 0x8000_0000_0000_0000
    ensures EncodeDouble(0x3ff0_0000_0000_0000) == 0xbff0_0000_0000_0000
    ensures MemcmpLess(BigEndian64(0x400f_ffff_ffff_ffff), BigEndian64(0x8000_0000_0000_0000))
    ensures MemcmpLess(BigEndian64(0x8000_0000_0000_0000), BigEndian64(0xbff0_0000_0000_0000))
  {
    EncodeDoubleCases(0xbff0_0000_0000_0000);
    EncodeDoubleCases(0x8000_0000_0000_0000);
    EncodeDoubleCases(0);
    EncodeDoubleCases(0x3ff0_0000_0000_0000);
  }
}
