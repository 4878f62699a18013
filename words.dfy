/** Multi-byte reads of a byte buffer in its configured byte order
    (ByteBuffer.getInt / getLong / putLong), and the bit counts of
    Long.numberOfLeadingZeros and Long.numberOfTrailingZeros, with the fact
    the match extender relies on: in the XOR of two 64-bit words read in the
    buffer's order, the zero-bit count divided by 8 is the index of the first
    byte at which the two 8-byte windows differ. */
module Words {

  /** The byte order a buffer was configured with (ByteBuffer.order()). */
  datatype ByteOrder = BigEndian | LittleEndian

  // ---------------------------------------------------------------------
  // Reading and writing words
  // ---------------------------------------------------------------------

  function IntOfBE(s: seq<bv8>): bv32
    requires |s| == 4
  {
    (s[0] as bv32 << 24) | (s[1] as bv32 << 16) | (s[2] as bv32 << 8) | (s[3] as bv32)
  }

  function IntOfLE(s: seq<bv8>): bv32
    requires |s| == 4
  {
    (s[0] as bv32) | (s[1] as bv32 << 8) | (s[2] as bv32 << 16) | (s[3] as bv32 << 24)
  }

  /** The 32-bit value of four bytes read in the given order (ByteBuffer.getInt). */
  function IntOf(s: seq<bv8>, order: ByteOrder): bv32
    requires |s| == 4
  {
    if order == BigEndian then IntOfBE(s) else IntOfLE(s)
  }

  function LongOfBE(s: seq<bv8>): bv64
    requires |s| == 8
  {
    (s[0] as bv64 << 56) | (s[1] as bv64 << 48) | (s[2] as bv64 << 40) | (s[3] as bv64 << 32) |
    (s[4] as bv64 << 24) | (s[5] as bv64 << 16) | (s[6] as bv64 << 8) | (s[7] as bv64)
  }

  function LongOfLE(s: seq<bv8>): bv64
    requires |s| == 8
  {
    (s[0] as bv64) | (s[1] as bv64 << 8) | (s[2] as bv64 << 16) | (s[3] as bv64 << 24) |
    (s[4] as bv64 << 32) | (s[5] as bv64 << 40) | (s[6] as bv64 << 48) | (s[7] as bv64 << 56)
  }

  /** The 64-bit value of eight bytes read in the given order (ByteBuffer.getLong). */
  function LongOf(s: seq<bv8>, order: ByteOrder): bv64
    requires |s| == 8
  {
    if order == BigEndian then LongOfBE(s) else LongOfLE(s)
  }

  function LongBytesBE(w: bv64): seq<bv8>
  {
    [((w >> 56) & 0xFF) as bv8, ((w >> 48) & 0xFF) as bv8, ((w >> 40) & 0xFF) as bv8, ((w >> 32) & 0xFF) as bv8,
     ((w >> 24) & 0xFF) as bv8, ((w >> 16) & 0xFF) as bv8, ((w >> 8) & 0xFF) as bv8, (w & 0xFF) as bv8]
  }

  function LongBytesLE(w: bv64): seq<bv8>
  {
    [(w & 0xFF) as bv8, ((w >> 8) & 0xFF) as bv8, ((w >> 16) & 0xFF) as bv8, ((w >> 24) & 0xFF) as bv8,
     ((w >> 32) & 0xFF) as bv8, ((w >> 40) & 0xFF) as bv8, ((w >> 48) & 0xFF) as bv8, ((w >> 56) & 0xFF) as bv8]
  }

  /** The eight bytes ByteBuffer.putLong stores for `w`, in memory order;
      reading them back in the same order gives `w`. */
  function LongBytes(w: bv64, order: ByteOrder): (s: seq<bv8>)
    ensures |s| == 8
    ensures LongOf(s, order) == w
  {
    if order == BigEndian then LongBytesBE(w) else LongBytesLE(w)
  }

  lemma LongBytesOfLongBE(s: seq<bv8>, t: seq<bv8>)
    requires |s| == 8 && t == LongBytesBE(LongOfBE(s))
    ensures forall i :: 0 <= i < 8 ==> t[i] == s[i]
  {
  }

  lemma LongBytesOfLongLE(s: seq<bv8>, t: seq<bv8>)
    requires |s| == 8 && t == LongBytesLE(LongOfLE(s))
    ensures forall i :: 0 <= i < 8 ==> t[i] == s[i]
  {
  }

  /** Storing the word read from eight bytes stores those same bytes, so
      putLong(i, getLong(j)) on one buffer moves bytes verbatim in either order. */
  lemma LongBytesOfLong(s: seq<bv8>, order: ByteOrder)
    requires |s| == 8
    ensures LongBytes(LongOf(s, order), order) == s
  {
    var t := LongBytes(LongOf(s, order), order);
    if order == BigEndian {
      LongBytesOfLongBE(s, t);
    } else {
      LongBytesOfLongLE(s, t);
    }
  }

  /** Two 8-byte windows read as equal words exactly when they hold the same bytes. */
  lemma LongOfInjective(a: seq<bv8>, b: seq<bv8>, order: ByteOrder)
    requires |a| == 8 && |b| == 8
    ensures LongOf(a, order) == LongOf(b, order) <==> a == b
  {
    if LongOf(a, order) == LongOf(b, order) {
      LongBytesOfLong(a, order);
      LongBytesOfLong(b, order);
    }
  }

  lemma IntOfInjectiveBE(a: seq<bv8>, b: seq<bv8>)
    requires |a| == 4 && |b| == 4 && IntOfBE(a) == IntOfBE(b)
    ensures forall i :: 0 <= i < 4 ==> a[i] == b[i]
  {
  }

  lemma IntOfInjectiveLE(a: seq<bv8>, b: seq<bv8>)
    requires |a| == 4 && |b| == 4 && IntOfLE(a) == IntOfLE(b)
    ensures forall i :: 0 <= i < 4 ==> a[i] == b[i]
  {
  }

  /** Two 4-byte windows read as equal ints exactly when they hold the same bytes. */
  lemma IntOfInjective(a: seq<bv8>, b: seq<bv8>, order: ByteOrder)
    requires |a| == 4 && |b| == 4
    ensures IntOf(a, order) == IntOf(b, order) <==> a == b
  {
    if IntOf(a, order) == IntOf(b, order) {
      if order == BigEndian {
        IntOfInjectiveBE(a, b);
      } else {
        IntOfInjectiveLE(a, b);
      }
    }
  }

  function IntBytesBE(w: bv32): seq<bv8>
  {
    [((w >> 24) & 0xFF) as bv8, ((w >> 16) & 0xFF) as bv8, ((w >> 8) & 0xFF) as bv8, (w & 0xFF) as bv8]
  }

  function IntBytesLE(w: bv32): seq<bv8>
  {
    [(w & 0xFF) as bv8, ((w >> 8) & 0xFF) as bv8, ((w >> 16) & 0xFF) as bv8, ((w >> 24) & 0xFF) as bv8]
  }

  /** The four bytes of `w` in memory order: most significant first for
      big-endian, least significant first for little-endian. */
  function IntBytes(w: bv32, order: ByteOrder): seq<bv8>
  {
    if order == BigEndian then IntBytesBE(w) else IntBytesLE(w)
  }

  lemma IntBytesOfIntBE(s: seq<bv8>, t: seq<bv8>)
    requires |s| == 4 && t == IntBytesBE(IntOfBE(s))
    ensures forall i :: 0 <= i < 4 ==> t[i] == s[i]
  {
  }

  lemma IntBytesOfIntLE(s: seq<bv8>, t: seq<bv8>)
    requires |s| == 4 && t == IntBytesLE(IntOfLE(s))
    ensures forall i :: 0 <= i < 4 ==> t[i] == s[i]
  {
  }

  /** Splitting the int read from four bytes gives back those bytes. */
  lemma IntBytesOfInt(s: seq<bv8>, order: ByteOrder)
    requires |s| == 4
    ensures IntBytes(IntOf(s, order), order) == s
  {
    var t := IntBytes(IntOf(s, order), order);
    if order == BigEndian {
      IntBytesOfIntBE(s, t);
    } else {
      IntBytesOfIntLE(s, t);
    }
  }

  /** ByteBuffer.getInt(i) on a buffer of the given order. */
  function ReadInt(buf: array<bv8>, i: int, order: ByteOrder): (w: bv32)
    reads buf
    requires 0 <= i && i + 4 <= buf.Length
    ensures IntBytes(w, order) == buf[i..i + 4]
  {
    IntBytesOfInt(buf[i..i + 4], order);
    IntOf(buf[i..i + 4], order)
  }

  /** ByteBuffer.getLong(i) (and readLong) on a buffer of the given order. */
  function ReadLong(buf: array<bv8>, i: int, order: ByteOrder): (w: bv64)
    reads buf
    requires 0 <= i && i + 8 <= buf.Length
    ensures LongBytes(w, order) == buf[i..i + 8]
  {
    LongBytesOfLong(buf[i..i + 8], order);
    LongOf(buf[i..i + 8], order)
  }

  /** ByteBuffer.putLong(i, w) on a buffer of the given order: only the eight
      bytes at `i` change, and they become the bytes of `w` in that order. */
  method PutLong(buf: array<bv8>, i: int, w: bv64, order: ByteOrder)
    requires 0 <= i && i + 8 <= buf.Length
    modifies buf
    ensures buf[..] == old(buf[..i]) + LongBytes(w, order) + old(buf[i + 8..])
  {
    var bytes := LongBytes(w, order);
    forall k | 0 <= k < 8 {
      buf[i + k] := bytes[k];
    }
    assert buf[..] == old(buf[..i]) + bytes + old(buf[i + 8..]);
  }

  // ---------------------------------------------------------------------
  // Long.numberOfLeadingZeros and Long.numberOfTrailingZeros
  // ---------------------------------------------------------------------

  const TOP_BIT: bv64 := 0x8000_0000_0000_0000
  const HIGH_BYTE: bv64 := 0xFF00_0000_0000_0000
  const LOW_BYTE: bv64 := 0xFF

  /** Leading zero bits of `x`, after `n` of them have already been shifted out. */
  function LeadingZerosFrom(x: bv64, n: nat): (r: nat)
    requires n <= 64
    ensures n <= r <= 64
    decreases 64 - n
  {
    if n == 64 || x & TOP_BIT != 0 then n else LeadingZerosFrom(x << 1, n + 1)
  }

  /** Trailing zero bits of `x`, after `n` of them have already been shifted out. */
  function TrailingZerosFrom(x: bv64, n: nat): (r: nat)
    requires n <= 64
    ensures n <= r <= 64
    decreases 64 - n
  {
    if n == 64 || x & 1 != 0 then n else TrailingZerosFrom(x >> 1, n + 1)
  }

  /** A zero word has no one bit left to stop either count. */
  lemma {:induction false} ZerosOfZero(n: nat)
    requires n <= 64
    ensures LeadingZerosFrom(0, n) == 64 && TrailingZerosFrom(0, n) == 64
    decreases 64 - n
  {
    if n < 64 {
      ZerosOfZero(n + 1);
    }
  }

  /** Long.numberOfLeadingZeros: the zero bits above the highest one bit (64 for zero). */
  function NumberOfLeadingZeros(x: bv64): (r: nat)
    ensures r <= 64
    ensures x == 0 ==> r == 64
    ensures x & TOP_BIT != 0 ==> r == 0
  {
    ZerosOfZero(0);
    LeadingZerosFrom(x, 0)
  }

  /** Long.numberOfTrailingZeros: the zero bits below the lowest one bit (64 for zero). */
  function NumberOfTrailingZeros(x: bv64): (r: nat)
    ensures r <= 64
    ensures x == 0 ==> r == 64
    ensures x & 1 != 0 ==> r == 0
  {
    ZerosOfZero(0);
    TrailingZerosFrom(x, 0)
  }

  /** The count commonBytes takes from the XOR of two words: leading zeros
      for a big-endian buffer, trailing zeros for a little-endian one. */
  function ZeroBits(x: bv64, order: ByteOrder): nat
  {
    if order == BigEndian then NumberOfLeadingZeros(x) else NumberOfTrailingZeros(x)
  }

  lemma LeadingStep(x: bv64, n: nat)
    requires n < 64 && x & TOP_BIT == 0
    ensures LeadingZerosFrom(x, n) == LeadingZerosFrom(x << 1, n + 1)
  {
  }

  lemma TrailingStep(x: bv64, n: nat)
    requires n < 64 && x & 1 == 0
    ensures TrailingZerosFrom(x, n) == TrailingZerosFrom(x >> 1, n + 1)
  {
  }

  /** A zero high byte: the top bit stays clear through eight left shifts. */
  lemma ZeroHighByteBits(x: bv64)
    requires x & HIGH_BYTE == 0
    ensures x & TOP_BIT == 0 &&
            (x << 1) & TOP_BIT == 0 &&
            ((x << 1) << 1) & TOP_BIT == 0 &&
            (((x << 1) << 1) << 1) & TOP_BIT == 0 &&
            ((((x << 1) << 1) << 1) << 1) & TOP_BIT == 0 &&
            (((((x << 1) << 1) << 1) << 1) << 1) & TOP_BIT == 0 &&
            ((((((x << 1) << 1) << 1) << 1) << 1) << 1) & TOP_BIT == 0 &&
            (((((((x << 1) << 1) << 1) << 1) << 1) << 1) << 1) & TOP_BIT == 0
    ensures ((((((((x << 1) << 1) << 1) << 1) << 1) << 1) << 1) << 1) == x << 8
  {
  }

  /** A zero low byte: the bottom bit stays clear through eight right shifts. */
  lemma ZeroLowByteBits(x: bv64)
    requires x & LOW_BYTE == 0
    ensures x & 1 == 0 &&
            (x >> 1) & 1 == 0 &&
            ((x >> 1) >> 1) & 1 == 0 &&
            (((x >> 1) >> 1) >> 1) & 1 == 0 &&
            ((((x >> 1) >> 1) >> 1) >> 1) & 1 == 0 &&
            (((((x >> 1) >> 1) >> 1) >> 1) >> 1) & 1 == 0 &&
            ((((((x >> 1) >> 1) >> 1) >> 1) >> 1) >> 1) & 1 == 0 &&
            (((((((x >> 1) >> 1) >> 1) >> 1) >> 1) >> 1) >> 1) & 1 == 0
    ensures ((((((((x >> 1) >> 1) >> 1) >> 1) >> 1) >> 1) >> 1) >> 1) == x >> 8
  {
  }

  /** A nonzero high byte: the top bit is set after one of the first eight left shifts. */
  lemma NonzeroHighByteBits(x: bv64)
    requires x & HIGH_BYTE != 0
    ensures x & TOP_BIT != 0 ||
            (x << 1) & TOP_BIT != 0 ||
            ((x << 1) << 1) & TOP_BIT != 0 ||
            (((x << 1) << 1) << 1) & TOP_BIT != 0 ||
            ((((x << 1) << 1) << 1) << 1) & TOP_BIT != 0 ||
            (((((x << 1) << 1) << 1) << 1) << 1) & TOP_BIT != 0 ||
            ((((((x << 1) << 1) << 1) << 1) << 1) << 1) & TOP_BIT != 0 ||
            (((((((x << 1) << 1) << 1) << 1) << 1) << 1) << 1) & TOP_BIT != 0
  {
  }

  /** A nonzero low byte: the bottom bit is set after one of the first eight right shifts. */
  lemma NonzeroLowByteBits(x: bv64)
    requires x & LOW_BYTE != 0
    ensures x & 1 != 0 ||
            (x >> 1) & 1 != 0 ||
            ((x >> 1) >> 1) & 1 != 0 ||
            (((x >> 1) >> 1) >> 1) & 1 != 0 ||
            ((((x >> 1) >> 1) >> 1) >> 1) & 1 != 0 ||
            (((((x >> 1) >> 1) >> 1) >> 1) >> 1) & 1 != 0 ||
            ((((((x >> 1) >> 1) >> 1) >> 1) >> 1) >> 1) & 1 != 0 ||
            (((((((x >> 1) >> 1) >> 1) >> 1) >> 1) >> 1) >> 1) & 1 != 0
  {
  }

  /** A zero high byte contributes exactly eight leading zeros. */
  lemma SkipZeroHighByte(x: bv64, n: nat)
    requires n + 8 <= 64
    requires x & HIGH_BYTE == 0
    ensures LeadingZerosFrom(x, n) == LeadingZerosFrom(x << 8, n + 8)
  {
    ZeroHighByteBits(x);
    var x1 := x << 1;
    var x2 := x1 << 1;
    var x3 := x2 << 1;
    var x4 := x3 << 1;
    var x5 := x4 << 1;
    var x6 := x5 << 1;
    var x7 := x6 << 1;
    LeadingStep(x, n); LeadingStep(x1, n + 1); LeadingStep(x2, n + 2); LeadingStep(x3, n + 3);
    LeadingStep(x4, n + 4); LeadingStep(x5, n + 5); LeadingStep(x6, n + 6); LeadingStep(x7, n + 7);
  }

  /** A zero low byte contributes exactly eight trailing zeros. */
  lemma SkipZeroLowByte(x: bv64, n: nat)
    requires n + 8 <= 64
    requires x & LOW_BYTE == 0
    ensures TrailingZerosFrom(x, n) == TrailingZerosFrom(x >> 8, n + 8)
  {
    ZeroLowByteBits(x);
    var x1 := x >> 1;
    var x2 := x1 >> 1;
    var x3 := x2 >> 1;
    var x4 := x3 >> 1;
    var x5 := x4 >> 1;
    var x6 := x5 >> 1;
    var x7 := x6 >> 1;
    TrailingStep(x, n); TrailingStep(x1, n + 1); TrailingStep(x2, n + 2); TrailingStep(x3, n + 3);
    TrailingStep(x4, n + 4); TrailingStep(x5, n + 5); TrailingStep(x6, n + 6); TrailingStep(x7, n + 7);
  }

  /** The top bit is set after one of the first `j` left shifts of `x`. */
  predicate OneBitInTop(x: bv64, j: nat)
    decreases j
  {
    j > 0 && (x & TOP_BIT != 0 || OneBitInTop(x << 1, j - 1))
  }

  /** The bottom bit is set after one of the first `j` right shifts of `x`. */
  predicate OneBitInBottom(x: bv64, j: nat)
    decreases j
  {
    j > 0 && (x & 1 != 0 || OneBitInBottom(x >> 1, j - 1))
  }

  /** A one bit within the first `j` shifts ends the leading-zero count within `j`. */
  lemma {:induction false} LeadingZerosStop(x: bv64, n: nat, j: nat)
    requires n + j <= 64 && OneBitInTop(x, j)
    ensures LeadingZerosFrom(x, n) < n + j
    decreases j
  {
    if x & TOP_BIT == 0 {
      LeadingStep(x, n);
      LeadingZerosStop(x << 1, n + 1, j - 1);
    }
  }

  /** A one bit within the first `j` shifts ends the trailing-zero count within `j`. */
  lemma {:induction false} TrailingZerosStop(x: bv64, n: nat, j: nat)
    requires n + j <= 64 && OneBitInBottom(x, j)
    ensures TrailingZerosFrom(x, n) < n + j
    decreases j
  {
    if x & 1 == 0 {
      TrailingStep(x, n);
      TrailingZerosStop(x >> 1, n + 1, j - 1);
    }
  }

  // OneBitInTop(x, 8) and OneBitInBottom(x, 8) spelled out shift by shift,
  // one unfolding per lemma.

  lemma OneBitInTop1(x: bv64)
    ensures OneBitInTop(x, 1) <==>
           (x & TOP_BIT != 0)
  {}

  lemma OneBitInTop2(x: bv64)
    ensures OneBitInTop(x, 2) <==>
           (x & TOP_BIT != 0 ||
            (x << 1) & TOP_BIT != 0)
  {
    OneBitInTop1(x << 1);
  }

  lemma OneBitInTop3(x: bv64)
    ensures OneBitInTop(x, 3) <==>
           (x & TOP_BIT != 0 ||
            (x << 1) & TOP_BIT != 0 ||
            ((x << 1) << 1) & TOP_BIT != 0)
  {
    OneBitInTop2(x << 1);
  }

  lemma OneBitInTop4(x: bv64)
    ensures OneBitInTop(x, 4) <==>
           (x & TOP_BIT != 0 ||
            (x << 1) & TOP_BIT != 0 ||
            ((x << 1) << 1) & TOP_BIT != 0 ||
            (((x << 1) << 1) << 1) & TOP_BIT != 0)
  {
    OneBitInTop3(x << 1);
  }

  lemma OneBitInTop5(x: bv64)
    ensures OneBitInTop(x, 5) <==>
           (x & TOP_BIT != 0 ||
            (x << 1) & TOP_BIT != 0 ||
            ((x << 1) << 1) & TOP_BIT != 0 ||
            (((x << 1) << 1) << 1) & TOP_BIT != 0 ||
            ((((x << 1) << 1) << 1) << 1) & TOP_BIT != 0)
  {
    OneBitInTop4(x << 1);
  }

  lemma OneBitInTop6(x: bv64)
    ensures OneBitInTop(x, 6) <==>
           (x & TOP_BIT != 0 ||
            (x << 1) & TOP_BIT != 0 ||
            ((x << 1) << 1) & TOP_BIT != 0 ||
            (((x << 1) << 1) << 1) & TOP_BIT != 0 ||
            ((((x << 1) << 1) << 1) << 1) & TOP_BIT != 0 ||
            (((((x << 1) << 1) << 1) << 1) << 1) & TOP_BIT != 0)
  {
    OneBitInTop5(x << 1);
  }

  lemma OneBitInTop7(x: bv64)
    ensures OneBitInTop(x, 7) <==>
           (x & TOP_BIT != 0 ||
            (x << 1) & TOP_BIT != 0 ||
            ((x << 1) << 1) & TOP_BIT != 0 ||
            (((x << 1) << 1) << 1) & TOP_BIT != 0 ||
            ((((x << 1) << 1) << 1) << 1) & TOP_BIT != 0 ||
            (((((x << 1) << 1) << 1) << 1) << 1) & TOP_BIT != 0 ||
            ((((((x << 1) << 1) << 1) << 1) << 1) << 1) & TOP_BIT != 0)
  {
    OneBitInTop6(x << 1);
  }

  lemma OneBitInTop8(x: bv64)
    ensures OneBitInTop(x, 8) <==>
           (x & TOP_BIT != 0 ||
            (x << 1) & TOP_BIT != 0 ||
            ((x << 1) << 1) & TOP_BIT != 0 ||
            (((x << 1) << 1) << 1) & TOP_BIT != 0 ||
            ((((x << 1) << 1) << 1) << 1) & TOP_BIT != 0 ||
            (((((x << 1) << 1) << 1) << 1) << 1) & TOP_BIT != 0 ||
            ((((((x << 1) << 1) << 1) << 1) << 1) << 1) & TOP_BIT != 0 ||
            (((((((x << 1) << 1) << 1) << 1) << 1) << 1) << 1) & TOP_BIT != 0)
  {
    OneBitInTop7(x << 1);
  }

  lemma OneBitInBottom1(x: bv64)
    ensures OneBitInBottom(x, 1) <==>
           (x & 1 != 0)
  {}

  lemma OneBitInBottom2(x: bv64)
    ensures OneBitInBottom(x, 2) <==>
           (x & 1 != 0 ||
            (x >> 1) & 1 != 0)
  {
    OneBitInBottom1(x >> 1);
  }

  lemma OneBitInBottom3(x: bv64)
    ensures OneBitInBottom(x, 3) <==>
           (x & 1 != 0 ||
            (x >> 1) & 1 != 0 ||
            ((x >> 1) >> 1) & 1 != 0)
  {
    OneBitInBottom2(x >> 1);
  }

  lemma OneBitInBottom4(x: bv64)
    ensures OneBitInBottom(x, 4) <==>
           (x & 1 != 0 ||
            (x >> 1) & 1 != 0 ||
            ((x >> 1) >> 1) & 1 != 0 ||
            (((x >> 1) >> 1) >> 1) & 1 != 0)
  {
    OneBitInBottom3(x >> 1);
  }

  lemma OneBitInBottom5(x: bv64)
    ensures OneBitInBottom(x, 5) <==>
           (x & 1 != 0 ||
            (x >> 1) & 1 != 0 ||
            ((x >> 1) >> 1) & 1 != 0 ||
            (((x >> 1) >> 1) >> 1) & 1 != 0 ||
            ((((x >> 1) >> 1) >> 1) >> 1) & 1 != 0)
  {
    OneBitInBottom4(x >> 1);
  }

  lemma OneBitInBottom6(x: bv64)
    ensures OneBitInBottom(x, 6) <==>
           (x & 1 != 0 ||
            (x >> 1) & 1 != 0 ||
            ((x >> 1) >> 1) & 1 != 0 ||
            (((x >> 1) >> 1) >> 1) & 1 != 0 ||
            ((((x >> 1) >> 1) >> 1) >> 1) & 1 != 0 ||
            (((((x >> 1) >> 1) >> 1) >> 1) >> 1) & 1 != 0)
  {
    OneBitInBottom5(x >> 1);
  }

  lemma OneBitInBottom7(x: bv64)
    ensures OneBitInBottom(x, 7) <==>
           (x & 1 != 0 ||
            (x >> 1) & 1 != 0 ||
            ((x >> 1) >> 1) & 1 != 0 ||
            (((x >> 1) >> 1) >> 1) & 1 != 0 ||
            ((((x >> 1) >> 1) >> 1) >> 1) & 1 != 0 ||
            (((((x >> 1) >> 1) >> 1) >> 1) >> 1) & 1 != 0 ||
            ((((((x >> 1) >> 1) >> 1) >> 1) >> 1) >> 1) & 1 != 0)
  {
    OneBitInBottom6(x >> 1);
  }

  lemma OneBitInBottom8(x: bv64)
    ensures OneBitInBottom(x, 8) <==>
           (x & 1 != 0 ||
            (x >> 1) & 1 != 0 ||
            ((x >> 1) >> 1) & 1 != 0 ||
            (((x >> 1) >> 1) >> 1) & 1 != 0 ||
            ((((x >> 1) >> 1) >> 1) >> 1) & 1 != 0 ||
            (((((x >> 1) >> 1) >> 1) >> 1) >> 1) & 1 != 0 ||
            ((((((x >> 1) >> 1) >> 1) >> 1) >> 1) >> 1) & 1 != 0 ||
            (((((((x >> 1) >> 1) >> 1) >> 1) >> 1) >> 1) >> 1) & 1 != 0)
  {
    OneBitInBottom7(x >> 1);
  }

  /** A nonzero high byte ends the leading-zero count within eight bits. */
  lemma StopInHighByte(x: bv64, n: nat)
    requires n + 8 <= 64
    requires x & HIGH_BYTE != 0
    ensures LeadingZerosFrom(x, n) < n + 8
  {
    NonzeroHighByteBits(x);
    OneBitInTop8(x);
    LeadingZerosStop(x, n, 8);
  }

  /** A nonzero low byte ends the trailing-zero count within eight bits. */
  lemma StopInLowByte(x: bv64, n: nat)
    requires n + 8 <= 64
    requires x & LOW_BYTE != 0
    ensures TrailingZerosFrom(x, n) < n + 8
  {
    NonzeroLowByteBits(x);
    OneBitInBottom8(x);
    TrailingZerosStop(x, n, 8);
  }

  // ---------------------------------------------------------------------
  // From bit counts to byte indices
  // ---------------------------------------------------------------------

  /** The bytes of `a` XOR `b`, position by position; a byte is zero exactly
      where `a` and `b` agree. */
  function XorBytes(a: seq<bv8>, b: seq<bv8>): (d: seq<bv8>)
    requires |a| == |b|
    ensures |d| == |a|
    ensures forall i :: 0 <= i < |a| ==> d[i] == a[i] ^ b[i]
    ensures forall i :: 0 <= i < |a| ==> (d[i] == 0 <==> a[i] == b[i])
  {
    seq(|a|, i requires 0 <= i < |a| => a[i] ^ b[i])
  }

  lemma LongOfXorBE(a: seq<bv8>, b: seq<bv8>, d: seq<bv8>)
    requires |a| == 8 && |b| == 8 && |d| == 8
    requires forall i :: 0 <= i < 8 ==> d[i] == a[i] ^ b[i]
    ensures LongOfBE(a) ^ LongOfBE(b) == LongOfBE(d)
  {
  }

  lemma LongOfXorLE(a: seq<bv8>, b: seq<bv8>, d: seq<bv8>)
    requires |a| == 8 && |b| == 8 && |d| == 8
    requires forall i :: 0 <= i < 8 ==> d[i] == a[i] ^ b[i]
    ensures LongOfLE(a) ^ LongOfLE(b) == LongOfLE(d)
  {
  }

  /** Reading is linear in XOR: the XOR of two words is the word of the XORed bytes. */
  lemma LongOfXor(a: seq<bv8>, b: seq<bv8>, d: seq<bv8>, order: ByteOrder)
    requires |a| == 8 && |b| == 8 && |d| == 8
    requires forall i :: 0 <= i < 8 ==> d[i] == a[i] ^ b[i]
    ensures LongOf(a, order) ^ LongOf(b, order) == LongOf(d, order)
  {
    if order == BigEndian {
      LongOfXorBE(a, b, d);
    } else {
      LongOfXorLE(a, b, d);
    }
  }

  /** Dropping the first byte in memory order (and appending a zero byte)
      shifts a big-endian word left by eight bits. */
  lemma LongOfShiftBE(d: seq<bv8>, e: seq<bv8>)
    requires |d| == 8 && |e| == 8
    requires forall i :: 0 <= i < 7 ==> e[i] == d[i + 1]
    requires e[7] == 0
    ensures LongOfBE(d) << 8 == LongOfBE(e)
  {
  }

  /** Dropping the first byte in memory order (and appending a zero byte)
      shifts a little-endian word right by eight bits. */
  lemma LongOfShiftLE(d: seq<bv8>, e: seq<bv8>)
    requires |d| == 8 && |e| == 8
    requires forall i :: 0 <= i < 7 ==> e[i] == d[i + 1]
    requires e[7] == 0
    ensures LongOfLE(d) >> 8 == LongOfLE(e)
  {
  }

  /** The first byte in memory order is the high byte of a big-endian word. */
  lemma FirstByteBE(d: seq<bv8>)
    requires |d| == 8
    ensures LongOfBE(d) & HIGH_BYTE == 0 <==> d[0] == 0
  {
  }

  /** The first byte in memory order is the low byte of a little-endian word. */
  lemma FirstByteLE(d: seq<bv8>)
    requires |d| == 8
    ensures LongOfLE(d) & LOW_BYTE == 0 <==> d[0] == 0
  {
  }

  /** Big-endian: a zero first byte adds eight leading zeros; the count
      goes on in the word of the remaining bytes. */
  lemma SkipZeroFirstByteBE(d: seq<bv8>, e: seq<bv8>, n: nat)
    requires |d| == 8 && d[0] == 0 && e == d[1..] + [0] && n + 8 <= 64
    ensures LeadingZerosFrom(LongOfBE(d), n) == LeadingZerosFrom(LongOfBE(e), n + 8)
  {
    FirstByteBE(d);
    LongOfShiftBE(d, e);
    SkipZeroHighByte(LongOfBE(d), n);
  }

  /** Little-endian: a zero first byte adds eight trailing zeros; the count
      goes on in the word of the remaining bytes. */
  lemma SkipZeroFirstByteLE(d: seq<bv8>, e: seq<bv8>, n: nat)
    requires |d| == 8 && d[0] == 0 && e == d[1..] + [0] && n + 8 <= 64
    ensures TrailingZerosFrom(LongOfLE(d), n) == TrailingZerosFrom(LongOfLE(e), n + 8)
  {
    FirstByteLE(d);
    LongOfShiftLE(d, e);
    SkipZeroLowByte(LongOfLE(d), n);
  }

  /** Big-endian: if the first nonzero byte of `d` is at index `k`, the
      leading-zero count of its word lies in [n + 8k, n + 8k + 8). */
  lemma {:induction false} LeadingZerosFirstNonzero(d: seq<bv8>, n: nat, k: nat)
    requires |d| == 8 && k < 8 && n + 8 * k + 8 <= 64
    requires forall i :: 0 <= i < k ==> d[i] == 0
    requires d[k] != 0
    ensures n + 8 * k <= LeadingZerosFrom(LongOfBE(d), n) < n + 8 * k + 8
    decreases k
  {
    if k == 0 {
      FirstByteBE(d);
      StopInHighByte(LongOfBE(d), n);
    } else {
      var e := d[1..] + [0];
      SkipZeroFirstByteBE(d, e, n);
      LeadingZerosFirstNonzero(e, n + 8, k - 1);
    }
  }

  /** Little-endian: if the first nonzero byte of `d` is at index `k`, the
      trailing-zero count of its word lies in [n + 8k, n + 8k + 8). */
  lemma {:induction false} TrailingZerosFirstNonzero(d: seq<bv8>, n: nat, k: nat)
    requires |d| == 8 && k < 8 && n + 8 * k + 8 <= 64
    requires forall i :: 0 <= i < k ==> d[i] == 0
    requires d[k] != 0
    ensures n + 8 * k <= TrailingZerosFrom(LongOfLE(d), n) < n + 8 * k + 8
    decreases k
  {
    if k == 0 {
      FirstByteLE(d);
      StopInLowByte(LongOfLE(d), n);
    } else {
      var e := d[1..] + [0];
      SkipZeroFirstByteLE(d, e, n);
      TrailingZerosFirstNonzero(e, n + 8, k - 1);
    }
  }

  /** Index of the first nonzero byte of `d`, searching from `i`. */
  function FirstNonzero(d: seq<bv8>, i: nat): (k: nat)
    requires i <= |d|
    ensures i <= k <= |d|
    ensures forall j :: i <= j < k ==> d[j] == 0
    ensures k < |d| ==> d[k] != 0
    decreases |d| - i
  {
    if i == |d| || d[i] != 0 then i else FirstNonzero(d, i + 1)
  }

  /** The fact commonBytes relies on, for both byte orders: when two 8-byte
      windows differ, the zero-bit count of the XOR of their words, shifted
      right by three, is the index of the first byte at which they differ. */
  lemma FirstDifferingByte(a: seq<bv8>, b: seq<bv8>, order: ByteOrder)
    requires |a| == 8 && |b| == 8
    requires LongOf(a, order) != LongOf(b, order)
    ensures ZeroBits(LongOf(a, order) ^ LongOf(b, order), order) < 64
    ensures var k := ZeroBits(LongOf(a, order) ^ LongOf(b, order), order) / 8;
      k < 8 && a[..k] == b[..k] && a[k] != b[k]
  {
    var d := XorBytes(a, b);
    LongOfXor(a, b, d, order);
    LongOfInjective(a, b, order);
    assert exists i :: 0 <= i < 8 && a[i] != b[i];
    var i :| 0 <= i < 8 && a[i] != b[i];
    var k := FirstNonzero(d, 0);
    assert k <= i;
    if order == BigEndian {
      LeadingZerosFirstNonzero(d, 0, k);
    } else {
      TrailingZerosFirstNonzero(d, 0, k);
    }
    var z := ZeroBits(LongOf(a, order) ^ LongOf(b, order), order);
    assert 8 * k <= z < 8 * k + 8;
    assert z / 8 == k;
  }

  /** FirstDifferingByte for unequal byte strings whose words are already
      read: `x` and `y` are the words of `a` and `b`, and `k` is
      ZeroBits(x ^ y) / 8. */
  lemma FirstDifferingByteOf(a: seq<bv8>, b: seq<bv8>, order: ByteOrder, x: bv64, y: bv64, k: int)
    requires |a| == 8 && |b| == 8 && a != b
    requires x == LongOf(a, order) && y == LongOf(b, order)
    requires k == ZeroBits(x ^ y, order) / 8
    ensures k < 8 && a[..k] == b[..k] && a[k] != b[k]
  {
    LongOfInjective(a, b, order);
    FirstDifferingByte(a, b, order);
  }
}
