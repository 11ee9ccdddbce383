/**
  The byte swaps BSWAP16/32/64 of row_chunk.cpp, the bytes a store of a word
  leaves in memory on a little- or big-endian host, the loads that read them
  back, and memcmp order on byte strings.
 */
module ByteOrder {

  // ---------------------------------------------------------------------------
  // Byte swaps, exactly as the macros mask and shift

  function BSwap16(x: bv16): bv16 {
    ((x & 0xff00) >> 8) | ((x & 0x00ff) << 8)
  }

  function BSwap32(x: bv32): bv32 {
    ((x & 0xff000000) >> 24) | ((x & 0x00ff0000) >> 8) |
    ((x & 0x0000ff00) << 8) | ((x & 0x000000ff) << 24)
  }

  function BSwap64(x: bv64): bv64 {
    ((x & 0xff00000000000000) >> 56) | ((x & 0x00ff000000000000) >> 40) |
    ((x & 0x0000ff0000000000) >> 24) | ((x & 0x000000ff00000000) >> 8) |
    ((x & 0x00000000ff000000) << 8) | ((x & 0x0000000000ff0000) << 24) |
    ((x & 0x000000000000ff00) << 40) | ((x & 0x00000000000000ff) << 56)
  }

  lemma BSwap16Involutive(x: bv16)
    ensures BSwap16(BSwap16(x)) == x
  {}

  lemma BSwap32Involutive(x: bv32)
    ensures BSwap32(BSwap32(x)) == x
  {}

  lemma BSwap64Involutive(x: bv64)
    ensures BSwap64(BSwap64(x)) == x
  {}

  // ---------------------------------------------------------------------------
  // Memory images of words: most significant byte first, or least significant first

  function BigEndian16(x: bv16): (r: seq<bv8>)
    ensures |r| == 2
  {
    [(x >> 8) as bv8, (x & 0xff) as bv8]
  }

  function BigEndian32(x: bv32): (r: seq<bv8>)
    ensures |r| == 4
  {
    [(x >> 24) as bv8, ((x >> 16) & 0xff) as bv8, ((x >> 8) & 0xff) as bv8, (x & 0xff) as bv8]
  }

  function BigEndian64(x: bv64): (r: seq<bv8>)
    ensures |r| == 8
  {
    [(x >> 56) as bv8, ((x >> 48) & 0xff) as bv8, ((x >> 40) & 0xff) as bv8, ((x >> 32) & 0xff) as bv8,
     ((x >> 24) & 0xff) as bv8, ((x >> 16) & 0xff) as bv8, ((x >> 8) & 0xff) as bv8, (x & 0xff) as bv8]
  }

  function LittleEndian16(x: bv16): (r: seq<bv8>)
    ensures |r| == 2
  {
    [(x & 0xff) as bv8, (x >> 8) as bv8]
  }

  function LittleEndian32(x: bv32): (r: seq<bv8>)
    ensures |r| == 4
  {
    [(x & 0xff) as bv8, ((x >> 8) & 0xff) as bv8, ((x >> 16) & 0xff) as bv8, (x >> 24) as bv8]
  }

  function LittleEndian64(x: bv64): (r: seq<bv8>)
    ensures |r| == 8
  {
    [(x & 0xff) as bv8, ((x >> 8) & 0xff) as bv8, ((x >> 16) & 0xff) as bv8, ((x >> 24) & 0xff) as bv8,
     ((x >> 32) & 0xff) as bv8, ((x >> 40) & 0xff) as bv8, ((x >> 48) & 0xff) as bv8, (x >> 56) as bv8]
  }

  /** The bytes a native store of `x` leaves in memory (Store<T>, or a write through a uintN_t pointer). */
  function Host16(x: bv16, littleEndian: bool): (r: seq<bv8>)
    ensures |r| == 2
  {
    if littleEndian then LittleEndian16(x) else BigEndian16(x)
  }

  function Host32(x: bv32, littleEndian: bool): (r: seq<bv8>)
    ensures |r| == 4
  {
    if littleEndian then LittleEndian32(x) else BigEndian32(x)
  }

  function Host64(x: bv64, littleEndian: bool): (r: seq<bv8>)
    ensures |r| == 8
  {
    if littleEndian then LittleEndian64(x) else BigEndian64(x)
  }

  // ---------------------------------------------------------------------------
  // Native loads (Load<T>)

  function LoadBigEndian16(b: seq<bv8>): bv16
    requires |b| == 2
  {
    ((b[0] as bv16) << 8) | (b[1] as bv16)
  }

  function LoadBigEndian32(b: seq<bv8>): bv32
    requires |b| == 4
  {
    ((b[0] as bv32) << 24) | ((b[1] as bv32) << 16) | ((b[2] as bv32) << 8) | (b[3] as bv32)
  }

  function LoadBigEndian64(b: seq<bv8>): bv64
    requires |b| == 8
  {
    ((b[0] as bv64) << 56) | ((b[1] as bv64) << 48) | ((b[2] as bv64) << 40) | ((b[3] as bv64) << 32) |
    ((b[4] as bv64) << 24) | ((b[5] as bv64) << 16) | ((b[6] as bv64) << 8) | (b[7] as bv64)
  }

  function LoadLittleEndian16(b: seq<bv8>): bv16
    requires |b| == 2
  {
    ((b[1] as bv16) << 8) | (b[0] as bv16)
  }

  function LoadLittleEndian32(b: seq<bv8>): bv32
    requires |b| == 4
  {
    ((b[3] as bv32) << 24) | ((b[2] as bv32) << 16) | ((b[1] as bv32) << 8) | (b[0] as bv32)
  }

  function LoadLittleEndian64(b: seq<bv8>): bv64
    requires |b| == 8
  {
    ((b[7] as bv64) << 56) | ((b[6] as bv64) << 48) | ((b[5] as bv64) << 40) | ((b[4] as bv64) << 32) |
    ((b[3] as bv64) << 24) | ((b[2] as bv64) << 16) | ((b[1] as bv64) << 8) | (b[0] as bv64)
  }

  function LoadHost16(b: seq<bv8>, littleEndian: bool): bv16
    requires |b| == 2
  {
    if littleEndian then LoadLittleEndian16(b) else LoadBigEndian16(b)
  }

  function LoadHost32(b: seq<bv8>, littleEndian: bool): bv32
    requires |b| == 4
  {
    if littleEndian then LoadLittleEndian32(b) else LoadBigEndian32(b)
  }

  function LoadHost64(b: seq<bv8>, littleEndian: bool): bv64
    requires |b| == 8
  {
    if littleEndian then LoadLittleEndian64(b) else LoadBigEndian64(b)
  }

  /** A native load reads back what a native store of the same width wrote. */
  lemma LoadHost16Store(x: bv16, littleEndian: bool)
    ensures LoadHost16(Host16(x, littleEndian), littleEndian) == x
  {}

  lemma LoadHost32Store(x: bv32, littleEndian: bool)
    ensures LoadHost32(Host32(x, littleEndian), littleEndian) == x
  {}

  lemma LoadHost64Store(x: bv64, littleEndian: bool)
    ensures LoadHost64(Host64(x, littleEndian), littleEndian) == x
  {}

  // ---------------------------------------------------------------------------
  // Storing `is_little_endian ? BSWAPn(x) : x` leaves the big-endian image of x
  // on either host: the key bytes do not depend on the machine.

  lemma SwappedStore16(x: bv16, littleEndian: bool)
    ensures Host16(if littleEndian then BSwap16(x) else x, littleEndian) == BigEndian16(x)
  {}

  lemma SwappedStore32(x: bv32, littleEndian: bool)
    ensures Host32(if littleEndian then BSwap32(x) else x, littleEndian) == BigEndian32(x)
  {}

  lemma SwappedStore64(x: bv64, littleEndian: bool)
    ensures Host64(if littleEndian then BSwap64(x) else x, littleEndian) == BigEndian64(x)
  {}

  // ---------------------------------------------------------------------------
  // memcmp order

  /** memcmp(a, b, n) < 0 for byte strings of one length n: the first differing byte decides, unsigned. */
  predicate MemcmpLess(a: seq<bv8>, b: seq<bv8>)
    decreases |a|
  {
    |a| > 0 && |b| > 0 && (a[0] < b[0] || (a[0] == b[0] && MemcmpLess(a[1..], b[1..])))
  }

  /** Comparing two concatenations of equal-length heads: the heads decide unless they are equal. */
  lemma {:induction false} MemcmpLessConcat(a: seq<bv8>, b: seq<bv8>, c: seq<bv8>, d: seq<bv8>)
    requires |a| == |c|
    ensures MemcmpLess(a + b, c + d) <==> MemcmpLess(a, c) || (a == c && MemcmpLess(b, d))
    decreases |a|
  {
    if |a| == 0 {
      assert a + b == b && c + d == d;
    } else {
      assert (a + b)[0] == a[0] && (c + d)[0] == c[0];
      assert (a + b)[1..] == a[1..] + b && (c + d)[1..] == c[1..] + d;
      MemcmpLessConcat(a[1..], b, c[1..], d);
      assert a == c <==> a[0] == c[0] && a[1..] == c[1..] by {
        if a[0] == c[0] && a[1..] == c[1..] {
          assert a == [a[0]] + a[1..] && c == [c[0]] + c[1..];
        }
      }
    }
  }

  /** A string is never memcmp-less than itself. */
  lemma {:induction false} MemcmpLessIrreflexive(a: seq<bv8>)
    ensures !MemcmpLess(a, a)
    decreases |a|
  {
    if |a| > 0 {
      MemcmpLessIrreflexive(a[1..]);
    }
  }

  /** Two byte strings of one length are memcmp-ordered one way or the other, or equal. */
  lemma {:induction false} MemcmpTrichotomy(a: seq<bv8>, b: seq<bv8>)
    requires |a| == |b|
    ensures MemcmpLess(a, b) || a == b || MemcmpLess(b, a)
    decreases |a|
  {
    if |a| > 0 {
      MemcmpTrichotomy(a[1..], b[1..]);
      if a[0] == b[0] && a[1..] == b[1..] {
        assert a == [a[0]] + a[1..] && b == [b[0]] + b[1..];
      }
    }
  }

  /** A key with a common leading byte compares like the rest of the key. */
  lemma MemcmpLessCommonPrefix(p: seq<bv8>, a: seq<bv8>, b: seq<bv8>)
    ensures MemcmpLess(p + a, p + b) <==> MemcmpLess(a, b)
  {
    MemcmpLessConcat(p, a, p, b);
    MemcmpLessIrreflexive(p);
  }

  // ---------------------------------------------------------------------------
  // The number a byte string denotes, most significant byte first

  function BitWeight(b: bv8, mask: bv8, weight: nat): nat {
    if b & mask != 0 then weight else 0
  }

  /** The unsigned value of a byte, as the sum of the weights of its set bits. */
  function ByteValue(b: bv8): (v: nat)
    ensures v < 256
  {
    BitWeight(b, 0x80, 128) + BitWeight(b, 0x40, 64) + BitWeight(b, 0x20, 32) + BitWeight(b, 0x10, 16) +
    BitWeight(b, 0x08, 8) + BitWeight(b, 0x04, 4) + BitWeight(b, 0x02, 2) + BitWeight(b, 0x01, 1)
  }

  lemma ByteValueIsNumeric(b: bv8)
    ensures ByteValue(b) == b as int
  {}

  lemma ByteValueOrder(a: bv8, b: bv8)
    ensures a < b <==> ByteValue(a) < ByteValue(b)
    ensures ByteValue(a) == ByteValue(b) ==> a == b
  {
    ByteValueIsNumeric(a);
    ByteValueIsNumeric(b);
  }

  /** Flipping the top bit moves a byte half-way round the 256 values. */
  lemma ByteValueFlipTop(b: bv8)
    ensures b & 0x80 != 0 <==> ByteValue(b) >= 128
    ensures ByteValue(b ^ 0x80) == if ByteValue(b) >= 128 then ByteValue(b) - 128 else ByteValue(b) + 128
    ensures ByteValue(b | 0x80) == if ByteValue(b) >= 128 then ByteValue(b) else ByteValue(b) + 128
    ensures ByteValue(b & 0x7f) == if ByteValue(b) >= 128 then ByteValue(b) - 128 else ByteValue(b)
  {
    ByteValueIsNumeric(b);
    ByteValueIsNumeric(b ^ 0x80);
    ByteValueIsNumeric(b | 0x80);
    ByteValueIsNumeric(b & 0x7f);
    TopBitNumeric(b);
  }

  lemma TopBitNumeric(b: bv8)
    ensures b & 0x80 != 0 <==> b as int >= 128
    ensures (b ^ 0x80) as int == if b as int >= 128 then b as int - 128 else b as int + 128
    ensures (b | 0x80) as int == if b as int >= 128 then b as int else b as int + 128
    ensures (b & 0x7f) as int == if b as int >= 128 then b as int - 128 else b as int
  {}

  lemma ByteValueComplement(b: bv8)
    ensures ByteValue(!b) == 255 - ByteValue(b)
  {}

  /** The digits of a byte string. */
  function Values(s: seq<bv8>): (d: seq<nat>)
    ensures |d| == |s| && forall i :: 0 <= i < |s| ==> d[i] == ByteValue(s[i])
  {
    if |s| == 0 then [] else [ByteValue(s[0])] + Values(s[1..])
  }

  predicate AreDigits(d: seq<nat>) {
    forall i :: 0 <= i < |d| ==> d[i] < 256
  }

  /** Horner evaluation of base-256 digits, most significant first, after the prefix value `acc`. */
  function Horner(acc: nat, d: seq<nat>): nat
    decreases |d|
  {
    if |d| == 0 then acc else Horner(acc * 256 + d[0], d[1..])
  }

  /** The unsigned number a byte string denotes in big-endian order. */
  function BigEndianValue(s: seq<bv8>): nat {
    Horner(0, Values(s))
  }

  /** Lexicographic order on digit strings. */
  predicate LexLess(d: seq<nat>, e: seq<nat>)
    decreases |d|
  {
    |d| > 0 && |e| > 0 && (d[0] < e[0] || (d[0] == e[0] && LexLess(d[1..], e[1..])))
  }

  lemma {:induction false} MemcmpLessLex(a: seq<bv8>, b: seq<bv8>)
    ensures MemcmpLess(a, b) <==> LexLess(Values(a), Values(b))
    decreases |a|
  {
    if |a| > 0 && |b| > 0 {
      assert Values(a)[1..] == Values(a[1..]);
      assert Values(b)[1..] == Values(b[1..]);
      ByteValueOrder(a[0], b[0]);
      MemcmpLessLex(a[1..], b[1..]);
    }
  }

  /** A smaller prefix value stays smaller whatever digits follow. */
  lemma {:induction false} HornerPrefixLess(x: nat, y: nat, d: seq<nat>, e: seq<nat>)
    requires |d| == |e| && x < y && AreDigits(d)
    ensures Horner(x, d) < Horner(y, e)
    decreases |d|
  {
    if |d| > 0 {
      HornerPrefixLess(x * 256 + d[0], y * 256 + e[0], d[1..], e[1..]);
    }
  }

  lemma {:induction false} LexLessHorner(x: nat, d: seq<nat>, e: seq<nat>)
    requires |d| == |e| && AreDigits(d) && AreDigits(e)
    ensures LexLess(d, e) <==> Horner(x, d) < Horner(x, e)
    decreases |d|
  {
    if |d| > 0 {
      if d[0] < e[0] {
        HornerPrefixLess(x * 256 + d[0], x * 256 + e[0], d[1..], e[1..]);
      } else if e[0] < d[0] {
        HornerPrefixLess(x * 256 + e[0], x * 256 + d[0], e[1..], d[1..]);
      } else {
        LexLessHorner(x * 256 + d[0], d[1..], e[1..]);
      }
    }
  }

  /** memcmp order on byte strings of one length is the order of the numbers they denote. */
  lemma MemcmpLessValue(a: seq<bv8>, b: seq<bv8>)
    requires |a| == |b|
    ensures MemcmpLess(a, b) <==> BigEndianValue(a) < BigEndianValue(b)
  {
    MemcmpLessLex(a, b);
    LexLessHorner(0, Values(a), Values(b));
  }

  lemma HornerTwo(a: nat, b: nat)
    ensures Horner(0, [a, b]) == a * 0x100 + b
  {
    assert [a, b][1..] == [b];
    assert Horner(0, [a, b]) == Horner(a, [b]);
    assert [b][1..] == [];
  }

  lemma HornerFour(a: nat, b: nat, c: nat, d: nat)
    ensures Horner(0, [a, b, c, d]) == a * 0x100_0000 + b * 0x1_0000 + c * 0x100 + d
  {
    assert [a, b, c, d][1..] == [b, c, d];
    assert Horner(0, [a, b, c, d]) == Horner(a, [b, c, d]);
    assert [b, c, d][1..] == [c, d];
    assert Horner(a, [b, c, d]) == Horner(a * 256 + b, [c, d]);
    assert [c, d][1..] == [d];
    assert Horner(a * 256 + b, [c, d]) == Horner((a * 256 + b) * 256 + c, [d]);
    assert [d][1..] == [];
  }

  lemma HornerEight(a: nat, b: nat, c: nat, d: nat, e: nat, f: nat, g: nat, h: nat)
    ensures Horner(0, [a, b, c, d, e, f, g, h]) ==
            a * 0x100_0000_0000_0000 + b * 0x1_0000_0000_0000 + c * 0x100_0000_0000 + d * 0x1_0000_0000 +
            e * 0x100_0000 + f * 0x1_0000 + g * 0x100 + h
  {
    var s := [a, b, c, d, e, f, g, h];
    assert s[1..] == [b, c, d, e, f, g, h];
    assert Horner(0, s) == Horner(a, [b, c, d, e, f, g, h]);
    assert [b, c, d, e, f, g, h][1..] == [c, d, e, f, g, h];
    assert Horner(a, [b, c, d, e, f, g, h]) == Horner(a * 256 + b, [c, d, e, f, g, h]);
    var ab := a * 256 + b;
    assert [c, d, e, f, g, h][1..] == [d, e, f, g, h];
    assert Horner(ab, [c, d, e, f, g, h]) == Horner(ab * 256 + c, [d, e, f, g, h]);
    var abc := ab * 256 + c;
    assert [d, e, f, g, h][1..] == [e, f, g, h];
    assert Horner(abc, [d, e, f, g, h]) == Horner(abc * 256 + d, [e, f, g, h]);
    var abcd := abc * 256 + d;
    assert [e, f, g, h][1..] == [f, g, h];
    assert Horner(abcd, [e, f, g, h]) == Horner(abcd * 256 + e, [f, g, h]);
    var abcde := abcd * 256 + e;
    assert [f, g, h][1..] == [g, h];
    assert Horner(abcde, [f, g, h]) == Horner(abcde * 256 + f, [g, h]);
    var abcdef := abcde * 256 + f;
    assert [g, h][1..] == [h];
    assert Horner(abcdef, [g, h]) == Horner(abcdef * 256 + g, [h]);
    assert [h][1..] == [];
  }

  /** Values of two-, four- and eight-byte strings, digit by digit. */
  lemma BigEndianValueTwo(s: seq<bv8>)
    requires |s| == 2
    ensures BigEndianValue(s) == ByteValue(s[0]) * 0x100 + ByteValue(s[1])
  {
    assert Values(s) == [ByteValue(s[0]), ByteValue(s[1])];
    HornerTwo(ByteValue(s[0]), ByteValue(s[1]));
  }

  lemma BigEndianValueFour(s: seq<bv8>)
    requires |s| == 4
    ensures BigEndianValue(s) ==
            ByteValue(s[0]) * 0x100_0000 + ByteValue(s[1]) * 0x1_0000 + ByteValue(s[2]) * 0x100 + ByteValue(s[3])
  {
    assert Values(s) == [ByteValue(s[0]), ByteValue(s[1]), ByteValue(s[2]), ByteValue(s[3])];
    HornerFour(ByteValue(s[0]), ByteValue(s[1]), ByteValue(s[2]), ByteValue(s[3]));
  }

  lemma BigEndianValueEight(s: seq<bv8>)
    requires |s| == 8
    ensures BigEndianValue(s) ==
            ByteValue(s[0]) * 0x100_0000_0000_0000 + ByteValue(s[1]) * 0x1_0000_0000_0000 +
            ByteValue(s[2]) * 0x100_0000_0000 + ByteValue(s[3]) * 0x1_0000_0000 +
            ByteValue(s[4]) * 0x100_0000 + ByteValue(s[5]) * 0x1_0000 + ByteValue(s[6]) * 0x100 + ByteValue(s[7])
  {
    assert Values(s) == [ByteValue(s[0]), ByteValue(s[1]), ByteValue(s[2]), ByteValue(s[3]),
                         ByteValue(s[4]), ByteValue(s[5]), ByteValue(s[6]), ByteValue(s[7])];
    HornerEight(ByteValue(s[0]), ByteValue(s[1]), ByteValue(s[2]), ByteValue(s[3]),
                ByteValue(s[4]), ByteValue(s[5]), ByteValue(s[6]), ByteValue(s[7]));
  }

  /** Distinct byte strings of one length denote distinct numbers. */
  lemma BigEndianValueInjective(a: seq<bv8>, b: seq<bv8>)
    requires |a| == |b|
    ensures BigEndianValue(a) == BigEndianValue(b) ==> a == b
  {
    MemcmpTrichotomy(a, b);
    MemcmpLessValue(a, b);
    MemcmpLessValue(b, a);
  }

  // ---------------------------------------------------------------------------
  // Unsigned values of words: the number their big-endian image denotes

  function Unsigned16(x: bv16): nat { BigEndianValue(BigEndian16(x)) }
  function Unsigned32(x: bv32): nat { BigEndianValue(BigEndian32(x)) }
  function Unsigned64(x: bv64): nat { BigEndianValue(BigEndian64(x)) }

  /** For 16-bit words the digit value agrees with the word's own numeric value. */
  lemma Unsigned16IsNumeric(x: bv16)
    ensures Unsigned16(x) == x as int
  {
    BigEndianValueTwo(BigEndian16(x));
    ByteValueIsNumeric((x >> 8) as bv8);
    ByteValueIsNumeric((x & 0xff) as bv8);
  }

  lemma Unsigned32Injective(x: bv32, y: bv32)
    ensures Unsigned32(x) == Unsigned32(y) ==> x == y
  {
    BigEndianValueInjective(BigEndian32(x), BigEndian32(y));
    BigEndian32Injective(x, y);
  }

  lemma Unsigned64Injective(x: bv64, y: bv64)
    ensures Unsigned64(x) == Unsigned64(y) ==> x == y
  {
    BigEndianValueInjective(BigEndian64(x), BigEndian64(y));
    BigEndian64Injective(x, y);
  }

  lemma Unsigned32Bound(x: bv32)
    ensures Unsigned32(x) < 0x1_0000_0000
  {
    BigEndianValueFour(BigEndian32(x));
  }

  lemma Unsigned64Bound(x: bv64)
    ensures Unsigned64(x) < 0x1_0000_0000_0000_0000
  {
    BigEndianValueEight(BigEndian64(x));
  }

  lemma BigEndian16Injective(x: bv16, y: bv16)
    ensures BigEndian16(x) == BigEndian16(y) <==> x == y
  {
    LoadHost16Store(x, false);
    LoadHost16Store(y, false);
  }

  lemma BigEndian32Injective(x: bv32, y: bv32)
    ensures BigEndian32(x) == BigEndian32(y) <==> x == y
  {
    LoadHost32Store(x, false);
    LoadHost32Store(y, false);
  }

  lemma BigEndian64Injective(x: bv64, y: bv64)
    ensures BigEndian64(x) == BigEndian64(y) <==> x == y
  {
    LoadHost64Store(x, false);
    LoadHost64Store(y, false);
  }

  // ---------------------------------------------------------------------------
  // The digit value orders words as the machine's unsigned comparison does

  /** The halves of a word, most significant first. */
  function HighByte(x: bv16): bv8 { (x >> 8) as bv8 }
  function LowByte(x: bv16): bv8 { (x & 0xff) as bv8 }
  function High16(x: bv32): bv16 { (x >> 16) as bv16 }
  function Low16(x: bv32): bv16 { (x & 0xffff) as bv16 }
  function High32(x: bv64): bv32 { (x >> 32) as bv32 }
  function Low32(x: bv64): bv32 { (x & 0xffff_ffff) as bv32 }

  /** Two-digit numbers in base `base` compare as their digit pairs, high digit first. */
  lemma DigitPairLess(h1: int, l1: int, h2: int, l2: int, base: int)
    requires 0 <= l1 < base && 0 <= l2 < base
    ensures h1 * base + l1 < h2 * base + l2 <==> h1 < h2 || (h1 == h2 && l1 < l2)
  {
    if h1 < h2 {
      calc {
        h1 * base + l1;
      < (h1 + 1) * base;
      <= h2 * base;
      <= h2 * base + l2;
      }
    } else if h2 < h1 {
      calc {
        h2 * base + l2;
      < (h2 + 1) * base;
      <= h1 * base;
      <= h1 * base + l1;
      }
    }
  }

  /** Unsigned comparison of a word decided by its high half, or by its low half when the high halves agree. */
  lemma HighLess16(x: bv16, y: bv16)
    requires HighByte(x) < HighByte(y)
    ensures x < y
  {}

  lemma LowLess16(x: bv16, y: bv16)
    requires HighByte(x) == HighByte(y) && LowByte(x) < LowByte(y)
    ensures x < y
  {}

  lemma HighLess32(x: bv32, y: bv32)
    requires High16(x) < High16(y)
    ensures x < y
  {}

  lemma LowLess32(x: bv32, y: bv32)
    requires High16(x) == High16(y) && Low16(x) < Low16(y)
    ensures x < y
  {}

  lemma HighLess64(x: bv64, y: bv64)
    requires High32(x) < High32(y)
    ensures x < y
  {}

  lemma LowLess64(x: bv64, y: bv64)
    requires High32(x) == High32(y) && Low32(x) < Low32(y)
    ensures x < y
  {}

  lemma Asymmetric16(x: bv16, y: bv16) ensures y < x ==> !(x < y) {}
  lemma Asymmetric32(x: bv32, y: bv32) ensures y < x ==> !(x < y) {}
  lemma Asymmetric64(x: bv64, y: bv64) ensures y < x ==> !(x < y) {}

  /** The big-endian image of a word is the images of its halves, high half first. */
  lemma ByteOf32(x: bv32, k: bv32)
    requires k < 4
    ensures ((x >> (8 * k)) & 0xff) as bv8 ==
            if k < 2 then ((Low16(x) >> (8 * k) as bv16) & 0xff) as bv8
            else ((High16(x) >> (8 * (k - 2)) as bv16) & 0xff) as bv8
  {}

  lemma BigEndian32Halves(x: bv32)
    ensures BigEndian32(x) == BigEndian16(High16(x)) + BigEndian16(Low16(x))
  {
    ByteOf32(x, 0); ByteOf32(x, 1); ByteOf32(x, 2); ByteOf32(x, 3);
  }

  lemma ByteOf64(x: bv64, k: bv64)
    requires k < 8
    ensures ((x >> (8 * k)) & 0xff) as bv8 ==
            if k < 4 then ((Low32(x) >> (8 * k) as bv32) & 0xff) as bv8
            else ((High32(x) >> (8 * (k - 4)) as bv32) & 0xff) as bv8
  {}

  lemma BigEndian64Halves(x: bv64)
    ensures BigEndian64(x) == BigEndian32(High32(x)) + BigEndian32(Low32(x))
  {
    ByteOf64(x, 0); ByteOf64(x, 1); ByteOf64(x, 2); ByteOf64(x, 3);
    ByteOf64(x, 4); ByteOf64(x, 5); ByteOf64(x, 6); ByteOf64(x, 7);
  }

  /** The digit value of a word from the digit values of its halves. */
  lemma Unsigned16Digits(x: bv16)
    ensures Unsigned16(x) == ByteValue(HighByte(x)) * 0x100 + ByteValue(LowByte(x))
  {
    BigEndianValueTwo(BigEndian16(x));
  }

  lemma Unsigned32Halves(x: bv32)
    ensures Unsigned32(x) == Unsigned16(High16(x)) * 0x1_0000 + Unsigned16(Low16(x))
  {
    BigEndian32Halves(x);
    BigEndianValueFour(BigEndian32(x));
    BigEndianValueTwo(BigEndian16(High16(x)));
    BigEndianValueTwo(BigEndian16(Low16(x)));
  }

  lemma Unsigned64Halves(x: bv64)
    ensures Unsigned64(x) == Unsigned32(High32(x)) * 0x1_0000_0000 + Unsigned32(Low32(x))
  {
    BigEndian64Halves(x);
    BigEndianValueEight(BigEndian64(x));
    BigEndianValueFour(BigEndian32(High32(x)));
    BigEndianValueFour(BigEndian32(Low32(x)));
  }

  lemma Unsigned16Injective(x: bv16, y: bv16)
    ensures Unsigned16(x) == Unsigned16(y) ==> x == y
  {
    BigEndianValueInjective(BigEndian16(x), BigEndian16(y));
    BigEndian16Injective(x, y);
  }

  /** A smaller high digit, or equal high digits and a smaller low one, mean a smaller word. */
  lemma HighDigitLess16(x: bv16, y: bv16)
    requires ByteValue(HighByte(x)) < ByteValue(HighByte(y))
    ensures x < y
  {
    ByteValueOrder(HighByte(x), HighByte(y));
    HighLess16(x, y);
  }

  lemma LowDigitLess16(x: bv16, y: bv16)
    requires ByteValue(HighByte(x)) == ByteValue(HighByte(y)) && ByteValue(LowByte(x)) < ByteValue(LowByte(y))
    ensures x < y
  {
    ByteValueOrder(HighByte(x), HighByte(y));
    ByteValueOrder(LowByte(x), LowByte(y));
    LowLess16(x, y);
  }

  lemma HighDigitLess32(x: bv32, y: bv32)
    requires Unsigned16(High16(x)) < Unsigned16(High16(y))
    ensures x < y
  {
    Unsigned16LessIsLess(High16(x), High16(y));
    HighLess32(x, y);
  }

  lemma LowDigitLess32(x: bv32, y: bv32)
    requires Unsigned16(High16(x)) == Unsigned16(High16(y)) && Unsigned16(Low16(x)) < Unsigned16(Low16(y))
    ensures x < y
  {
    Unsigned16Injective(High16(x), High16(y));
    Unsigned16LessIsLess(Low16(x), Low16(y));
    LowLess32(x, y);
  }

  lemma HighDigitLess64(x: bv64, y: bv64)
    requires Unsigned32(High32(x)) < Unsigned32(High32(y))
    ensures x < y
  {
    Unsigned32LessIsLess(High32(x), High32(y));
    HighLess64(x, y);
  }

  lemma LowDigitLess64(x: bv64, y: bv64)
    requires Unsigned32(High32(x)) == Unsigned32(High32(y)) && Unsigned32(Low32(x)) < Unsigned32(Low32(y))
    ensures x < y
  {
    Unsigned32Injective(High32(x), High32(y));
    Unsigned32LessIsLess(Low32(x), Low32(y));
    LowLess64(x, y);
  }

  /** A smaller digit value means a smaller word, width by width. */
  lemma Unsigned16LessIsLess(x: bv16, y: bv16)
    requires Unsigned16(x) < Unsigned16(y)
    ensures x < y
  {
    Unsigned16Digits(x);
    Unsigned16Digits(y);
    DigitPairLess(ByteValue(HighByte(x)), ByteValue(LowByte(x)), ByteValue(HighByte(y)), ByteValue(LowByte(y)), 0x100);
    if ByteValue(HighByte(x)) < ByteValue(HighByte(y)) {
      HighDigitLess16(x, y);
    } else {
      LowDigitLess16(x, y);
    }
  }

  lemma Unsigned32LessIsLess(x: bv32, y: bv32)
    requires Unsigned32(x) < Unsigned32(y)
    ensures x < y
  {
    Unsigned32Halves(x);
    Unsigned32Halves(y);
    Unsigned16IsNumeric(Low16(x));
    Unsigned16IsNumeric(Low16(y));
    DigitPairLess(Unsigned16(High16(x)), Unsigned16(Low16(x)), Unsigned16(High16(y)), Unsigned16(Low16(y)), 0x1_0000);
    if Unsigned16(High16(x)) < Unsigned16(High16(y)) {
      HighDigitLess32(x, y);
    } else {
      LowDigitLess32(x, y);
    }
  }

  lemma Unsigned64LessIsLess(x: bv64, y: bv64)
    requires Unsigned64(x) < Unsigned64(y)
    ensures x < y
  {
    Unsigned64Halves(x);
    Unsigned64Halves(y);
    Unsigned32Bound(Low32(x));
    Unsigned32Bound(Low32(y));
    DigitPairLess(Unsigned32(High32(x)), Unsigned32(Low32(x)), Unsigned32(High32(y)), Unsigned32(Low32(y)), 0x1_0000_0000);
    if Unsigned32(High32(x)) < Unsigned32(High32(y)) {
      HighDigitLess64(x, y);
    } else {
      LowDigitLess64(x, y);
    }
  }

  /**
    The digit value orders words exactly as the machine's unsigned
    comparison (`<` on the bit-vector) does.
   */
  lemma Unsigned16Order(x: bv16, y: bv16)
    ensures Unsigned16(x) < Unsigned16(y) <==> x < y
  {
    if Unsigned16(x) < Unsigned16(y) {
      Unsigned16LessIsLess(x, y);
    } else if Unsigned16(y) < Unsigned16(x) {
      Unsigned16LessIsLess(y, x);
      Asymmetric16(x, y);
    } else {
      Unsigned16Injective(x, y);
    }
  }

  lemma Unsigned32Order(x: bv32, y: bv32)
    ensures Unsigned32(x) < Unsigned32(y) <==> x < y
  {
    if Unsigned32(x) < Unsigned32(y) {
      Unsigned32LessIsLess(x, y);
    } else if Unsigned32(y) < Unsigned32(x) {
      Unsigned32LessIsLess(y, x);
      Asymmetric32(x, y);
    } else {
      Unsigned32Injective(x, y);
    }
  }

  lemma Unsigned64Order(x: bv64, y: bv64)
    ensures Unsigned64(x) < Unsigned64(y) <==> x < y
  {
    if Unsigned64(x) < Unsigned64(y) {
      Unsigned64LessIsLess(x, y);
    } else if Unsigned64(y) < Unsigned64(x) {
      Unsigned64LessIsLess(y, x);
      Asymmetric64(x, y);
    } else {
      Unsigned64Injective(x, y);
    }
  }
}
