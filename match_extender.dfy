/** Verifying and growing a match candidate inside one buffer: the 4-byte
    equality gate (readIntEquals), forward extension eight bytes at a time
    (commonBytes) and backward extension byte by byte (commonBytesBackward). */
module MatchExtender {
  import opened Words

  /** readIntEquals: the ints at `i` and `j` are equal exactly when the two
      4-byte windows hold the same bytes, whatever the buffer's order. */
  function ReadIntEquals(buf: array<bv8>, order: ByteOrder, i: int, j: int): (r: bool)
    reads buf
    requires 0 <= i && i + 4 <= buf.Length
    requires 0 <= j && j + 4 <= buf.Length
    ensures r <==> buf[i..i + 4] == buf[j..j + 4]
  {
    IntOfInjective(buf[i..i + 4], buf[j..j + 4], order);
    ReadInt(buf, i, order) == ReadInt(buf, j, order)
  }

  /** Bytes `a + k` and `b + k` of `s` are equal. */
  predicate SameAt(s: seq<bv8>, a: int, b: int, k: int)
    requires 0 <= a + k < |s| && 0 <= b + k < |s|
  {
    s[a + k] == s[b + k]
  }

  /** The byte-by-byte reference for forward extension: how many bytes starting
      at `sOff`, stopping at `limit`, equal the bytes starting at `ref`. */
  function CommonPrefix(s: seq<bv8>, ref: int, sOff: int, limit: int): (n: nat)
    requires 0 <= sOff <= limit <= |s|
    requires 0 <= ref && ref + (limit - sOff) <= |s|
    ensures n <= limit - sOff
    ensures forall k :: 0 <= k < n ==> SameAt(s, sOff, ref, k)
    ensures n == limit - sOff || s[sOff + n] != s[ref + n]
    decreases limit - sOff
  {
    if sOff == limit || s[sOff] != s[ref] then 0
    else
      var n' := CommonPrefix(s, ref + 1, sOff + 1, limit);
      forall k | 1 <= k < 1 + n'
        ensures SameAt(s, sOff, ref, k)
      {
        assert SameAt(s, sOff + 1, ref + 1, k - 1);
      }
      1 + n'
  }

  /** The properties of CommonPrefix pin the count down: any count with them
      is the byte-by-byte one. */
  lemma {:induction false} CommonPrefixUnique(s: seq<bv8>, ref: int, sOff: int, limit: int, n: int)
    requires 0 <= sOff <= limit <= |s|
    requires 0 <= ref && ref + (limit - sOff) <= |s|
    requires 0 <= n <= limit - sOff
    requires forall k :: 0 <= k < n ==> SameAt(s, sOff, ref, k)
    requires n == limit - sOff || s[sOff + n] != s[ref + n]
    ensures n == CommonPrefix(s, ref, sOff, limit)
    decreases n
  {
    if n > 0 {
      assert SameAt(s, sOff, ref, 0);
      var sOff', ref' := sOff + 1, ref + 1;
      forall k | 0 <= k < n - 1
        ensures SameAt(s, sOff', ref', k)
      {
        assert SameAt(s, sOff, ref, k + 1);
      }
      CommonPrefixUnique(s, ref', sOff', limit, n - 1);
    }
  }

  /** The count looks at no byte of the sOff side at or past `limit`: two
      buffers that agree below `limit` from `sOff`, and on the `ref` window,
      give the same count, whatever lies beyond. */
  lemma {:induction false} CommonPrefixBelowLimit(s: seq<bv8>, t: seq<bv8>, ref: int, sOff: int, limit: int)
    requires 0 <= sOff <= limit <= |s| && limit <= |t|
    requires 0 <= ref && ref + (limit - sOff) <= |s| && ref + (limit - sOff) <= |t|
    requires forall k :: sOff <= k < limit ==> s[k] == t[k]
    requires forall k :: ref <= k < ref + (limit - sOff) ==> s[k] == t[k]
    ensures CommonPrefix(s, ref, sOff, limit) == CommonPrefix(t, ref, sOff, limit)
    decreases limit - sOff
  {
    if sOff < limit {
      assert s[sOff] == t[sOff] && s[ref] == t[ref];
      CommonPrefixBelowLimit(s, t, ref + 1, sOff + 1, limit);
    }
  }

  /** Agreement of the `n` bytes from `sOff + m` and `ref + m` is agreement of
      positions m .. m + n - 1 counted from `sOff` and `ref`. */
  lemma AgreementShifts(t: seq<bv8>, sOff: int, ref: int, s: int, r: int, m: int, n: int)
    requires s == sOff + m && r == ref + m
    requires 0 <= s && s + n <= |t| && 0 <= r && r + n <= |t|
    requires forall k :: 0 <= k < n ==> SameAt(t, s, r, k)
    ensures forall k :: m <= k < m + n ==> SameAt(t, sOff, ref, k)
  {
    forall k | m <= k < m + n
      ensures SameAt(t, sOff, ref, k)
    {
      assert SameAt(t, s, r, k - m);
    }
  }

  /** readByte(src, i) for a read that must stay below `limit`. */
  function ReadByteBelow(src: array<bv8>, i: int, limit: int): bv8
    reads src
    requires 0 <= i < limit <= src.Length
  {
    src[i]
  }

  /** readLong(src, s) == readLong(src, r): the two words are equal exactly
      when their eight bytes are. The word at `s` lies below `limit`. */
  method WordsEqual(src: array<bv8>, order: ByteOrder, s: int, r: int, limit: int) returns (eq: bool)
    requires 0 <= s && s + 8 <= limit <= src.Length && 0 <= r && r + 8 <= src.Length
    ensures eq <==> forall k :: 0 <= k < 8 ==> SameAt(src[..], s, r, k)
  {
    eq := ReadLong(src, s, order) == ReadLong(src, r, order);
    var x, y := src[s..s + 8], src[r..r + 8];
    LongOfInjective(x, y, order);
    if eq {
      forall k | 0 <= k < 8
        ensures SameAt(src[..], s, r, k)
      {
        assert x[k] == y[k];
      }
    } else {
      var k :| 0 <= k < 8 && x[k] != y[k];
      assert !SameAt(src[..], s, r, k);
    }
  }

  /** The first differing byte of two unequal words, found as commonBytes
      finds it: the leading (big-endian) or trailing (little-endian) zero bits
      of their XOR, shifted right by three. */
  method FirstDifferingIndex(src: array<bv8>, order: ByteOrder, s: int, r: int, limit: int) returns (i: int)
    requires 0 <= s && s + 8 <= limit <= src.Length && 0 <= r && r + 8 <= src.Length
    requires !forall k :: 0 <= k < 8 ==> SameAt(src[..], s, r, k)
    ensures 0 <= i < 8
    ensures forall k :: 0 <= k < i ==> SameAt(src[..], s, r, k)
    ensures src[s + i] != src[r + i]
  {
    var a, b := ReadLong(src, s, order), ReadLong(src, r, order);
    var zeroBits := ZeroBits(a ^ b, order);
    // zeroBits is at most 64, so zeroBits >>> 3 is zeroBits / 8
    i := zeroBits / 8;
    var x, y := src[s..s + 8], src[r..r + 8];
    var j :| 0 <= j < 8 && !SameAt(src[..], s, r, j);
    assert x[j] != y[j];
    FirstDifferingByteOf(x, y, order, a, b, i);
    WindowsDifferAt(src[..], s, r, i);
  }

  /** Agreement and difference inside the two 8-byte windows, carried over
      to the buffer. */
  lemma WindowsDifferAt(t: seq<bv8>, s: int, r: int, i: int)
    requires 0 <= s && s + 8 <= |t| && 0 <= r && r + 8 <= |t| && 0 <= i < 8
    requires t[s..s + 8][..i] == t[r..r + 8][..i] && t[s..s + 8][i] != t[r..r + 8][i]
    ensures forall k :: 0 <= k < i ==> SameAt(t, s, r, k)
    ensures t[s + i] != t[r + i]
  {
    forall k | 0 <= k < i
      ensures SameAt(t, s, r, k)
    {
      assert t[s..s + 8][..i][k] == t[r..r + 8][..i][k];
    }
  }

  /** commonBytes: the length of the common prefix of src[sOff..srcLimit) and
      the bytes from `ref`, found eight bytes at a time while a whole word
      fits before `srcLimit`, then byte by byte. On the first unequal word the
      leading (big-endian) or trailing (little-endian) zero bits of the XOR,
      divided by eight, give the position of the first differing byte. The
      result equals the byte-by-byte count for both orders. Every read on the
      sOff side goes through WordsEqual, FirstDifferingIndex or ReadByteBelow
      with `srcLimit` as the bound, so none reaches `srcLimit`. */
  method CommonBytes(src: array<bv8>, order: ByteOrder, ref: int, sOff: int, srcLimit: int)
    returns (matchLen: int)
    requires 0 <= sOff <= srcLimit <= src.Length
    requires 0 <= ref && ref + (srcLimit - sOff) <= src.Length
    ensures 0 <= matchLen <= srcLimit - sOff
    ensures forall k :: 0 <= k < matchLen ==> SameAt(src[..], sOff, ref, k)
    ensures matchLen == srcLimit - sOff || src[sOff + matchLen] != src[ref + matchLen]
    ensures matchLen == CommonPrefix(src[..], ref, sOff, srcLimit)
  {
    var r, s := ref, sOff;
    matchLen := 0;
    while s <= srcLimit - 8
      invariant sOff <= s <= srcLimit
      invariant s - sOff == r - ref == matchLen
      invariant forall k :: 0 <= k < matchLen ==> SameAt(src[..], sOff, ref, k)
    {
      var eq := WordsEqual(src, order, s, r, srcLimit);
      if eq {
        AgreementShifts(src[..], sOff, ref, s, r, matchLen, 8);
        matchLen := matchLen + 8;
        r := r + 8;
        s := s + 8;
      } else {
        var i := FirstDifferingIndex(src, order, s, r, srcLimit);
        AgreementShifts(src[..], sOff, ref, s, r, matchLen, i);
        matchLen := matchLen + i;
        CommonPrefixUnique(src[..], ref, sOff, srcLimit, matchLen);
        return;
      }
    }
    while s < srcLimit && ReadByteBelow(src, r, src.Length) == ReadByteBelow(src, s, srcLimit)
      invariant sOff <= s <= srcLimit
      invariant s - sOff == r - ref == matchLen
      invariant forall k :: 0 <= k < matchLen ==> SameAt(src[..], sOff, ref, k)
    {
      assert SameAt(src[..], sOff, ref, matchLen);
      matchLen := matchLen + 1;
      r := r + 1;
      s := s + 1;
    }
    CommonPrefixUnique(src[..], ref, sOff, srcLimit, matchLen);
  }

  /** The byte-by-byte reference for backward extension: how many bytes just
      below `o1` equal the bytes just below `o2` (byte o1 + k against byte
      o2 + k for k = -1, -2, ...), going no lower than `l1` and `l2`. */
  function CommonSuffix(s: seq<bv8>, o1: int, o2: int, l1: int, l2: int): (c: nat)
    requires 0 <= l1 && 0 <= l2 && o1 <= |s| && o2 <= |s|
    ensures c == 0 || (c <= o1 - l1 && c <= o2 - l2)
    ensures forall k: int :: -(c as int) <= k < 0 ==> SameAt(s, o1, o2, k)
    ensures o1 - c <= l1 || o2 - c <= l2 || s[o1 - c - 1] != s[o2 - c - 1]
    decreases o1 - l1
  {
    if o1 <= l1 || o2 <= l2 || s[o1 - 1] != s[o2 - 1] then 0
    else
      var c' := CommonSuffix(s, o1 - 1, o2 - 1, l1, l2);
      forall k: int | -1 - c' <= k < 0
        ensures SameAt(s, o1, o2, k)
      {
        if k < -1 {
          assert SameAt(s, o1 - 1, o2 - 1, k + 1);
        }
      }
      1 + c'
  }

  /** commonBytesBackward: steps both offsets down together while both are
      above their lower bounds, stopping at the first pair of unequal bytes;
      the result is the byte-by-byte backward count. */
  method CommonBytesBackward(b: array<bv8>, o1: int, o2: int, l1: int, l2: int) returns (count: int)
    requires 0 <= l1 && 0 <= l2 && o1 <= b.Length && o2 <= b.Length
    ensures 0 <= count
    ensures count == 0 || (count <= o1 - l1 && count <= o2 - l2)
    ensures forall k: int :: -count <= k < 0 ==> SameAt(b[..], o1, o2, k)
    ensures o1 - count <= l1 || o2 - count <= l2 || b[o1 - count - 1] != b[o2 - count - 1]
    ensures count == CommonSuffix(b[..], o1, o2, l1, l2)
  {
    var p1, p2 := o1, o2;
    count := 0;
    while p1 > l1 && p2 > l2
      invariant p1 == o1 - count && p2 == o2 - count && 0 <= count
      invariant count == 0 || (p1 >= l1 && p2 >= l2)
      invariant CommonSuffix(b[..], o1, o2, l1, l2) == count + CommonSuffix(b[..], p1, p2, l1, l2)
      decreases p1
    {
      p1 := p1 - 1;
      p2 := p2 - 1;
      if b[p1] != b[p2] {
        break;
      }
      count := count + 1;
    }
  }
}
