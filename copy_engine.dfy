/** Copies inside and between byte buffers: the byte-at-a-time incremental
    copy (safeIncrementalCopy), the eight-byte-stride incremental copy
    (wildIncrementalCopy) and the two range copies (safeArraycopy,
    wildArraycopy). Both incremental copies write at `matchOff` and read from
    `dOff`. */
module CopyEngine {
  import opened Words

  // ---------------------------------------------------------------------
  // Arithmetic facts for the periodic pattern

  lemma MulBounds(q: int, d: int)
    requires 0 < d
    ensures q >= 1 ==> q * d >= d
    ensures q <= -1 ==> q * d <= -d
  {
  }

  /** Going back one period keeps the remainder. */
  lemma ModSubPeriod(j: int, d: int)
    requires 0 < d <= j
    ensures (j - d) % d == j % d
  {
    var q, r := j / d, j % d;
    var q', r' := (j - d) / d, (j - d) % d;
    assert j == q * d + r && j - d == q' * d + r';
    assert (q - 1 - q') * d == r' - r;
    MulBounds(q - 1 - q', d);
  }

  lemma ModBelowPeriod(j: int, d: int)
    requires 0 <= j < d
    ensures j % d == j
  {
  }

  // ---------------------------------------------------------------------
  // Overwriting a range

  /** `s` with the bytes from `at` on replaced by `block`. */
  function Overwrite(s: seq<bv8>, at: int, block: seq<bv8>): (t: seq<bv8>)
    requires 0 <= at && at + |block| <= |s|
    ensures |t| == |s|
    decreases |block|
  {
    if |block| == 0 then s else Overwrite(s[at := block[0]], at + 1, block[1..])
  }

  /** Bytes of an overwritten sequence, one by one. */
  lemma {:induction false} OverwriteAt(s: seq<bv8>, at: int, block: seq<bv8>, k: int)
    requires 0 <= at && at + |block| <= |s| && 0 <= k < |s|
    ensures Overwrite(s, at, block)[k] == if at <= k < at + |block| then block[k - at] else s[k]
    decreases |block|
  {
    if |block| > 0 {
      OverwriteAt(s[at := block[0]], at + 1, block[1..], k);
    }
  }

  /** A sequence of the same length that agrees with `s` outside the block
      and with `block` inside it is the overwritten sequence. */
  lemma OverwriteEqual(s: seq<bv8>, at: int, block: seq<bv8>, t: seq<bv8>)
    requires 0 <= at && at + |block| <= |s| && |t| == |s|
    requires forall k :: 0 <= k < |s| && !(at <= k < at + |block|) ==> t[k] == s[k]
    requires forall k :: at <= k < at + |block| ==> t[k] == block[k - at]
    ensures t == Overwrite(s, at, block)
  {
    forall k | 0 <= k < |s|
      ensures t[k] == Overwrite(s, at, block)[k]
    {
      OverwriteAt(s, at, block, k);
    }
  }

  /** Overwriting with nothing changes nothing. */
  lemma OverwriteEmpty(s: seq<bv8>, at: int)
    requires 0 <= at <= |s|
    ensures Overwrite(s, at, []) == s
  {
    OverwriteEqual(s, at, [], s);
  }

  /** From `at` on, the overwritten sequence is the block followed by what
      was after it; before `at` nothing changed. */
  lemma OverwriteSlices(s: seq<bv8>, at: int, block: seq<bv8>)
    requires 0 <= at && at + |block| <= |s|
    ensures Overwrite(s, at, block)[..at] == s[..at]
    ensures Overwrite(s, at, block)[at..] == block + s[at + |block|..]
  {
    OverwriteConcat(s, at, block);
  }

  /** The bytes before `at`, or any shorter prefix of them, are untouched. */
  lemma OverwritePrefix(s: seq<bv8>, at: int, block: seq<bv8>, n: int)
    requires 0 <= n <= at && at + |block| <= |s|
    ensures Overwrite(s, at, block)[..n] == s[..n]
  {
    OverwriteSlices(s, at, block);
    assert Overwrite(s, at, block)[..n] == Overwrite(s, at, block)[..at][..n];
  }

  /** Overwriting is splicing the block in place of the bytes it covers. */
  lemma OverwriteConcat(s: seq<bv8>, at: int, block: seq<bv8>)
    requires 0 <= at && at + |block| <= |s|
    ensures Overwrite(s, at, block) == s[..at] + block + s[at + |block|..]
  {
    var t := s[..at] + block + s[at + |block|..];
    assert forall k :: 0 <= k < |s| && !(at <= k < at + |block|) ==> t[k] == s[k];
    OverwriteEqual(s, at, block, t);
  }

  // ---------------------------------------------------------------------
  // safeIncrementalCopy

  /** The buffer after the first `n` steps of the byte loop: step i
      (i = 0, 1, ...) stores at `to + i` the byte found at `from + i` at that
      moment, so bytes written by earlier steps are read again. */
  function IncrementalCopy(s: seq<bv8>, to: int, from: int, n: nat): (t: seq<bv8>)
    requires 0 <= to && to + n <= |s| && 0 <= from && from + n <= |s|
    ensures |t| == |s|
    decreases n
  {
    if n == 0 then s
    else
      var p := IncrementalCopy(s, to, from, n - 1);
      p[to + n - 1 := p[from + n - 1]]
  }

  /** The byte loop changes nothing outside [to, to + n). */
  lemma {:induction false} IncrementalCopyFrame(s: seq<bv8>, to: int, from: int, n: nat)
    requires 0 <= to && to + n <= |s| && 0 <= from && from + n <= |s|
    ensures forall k :: 0 <= k < |s| && !(to <= k < to + n) ==> IncrementalCopy(s, to, from, n)[k] == s[k]
    decreases n
  {
    if n > 0 {
      IncrementalCopyFrame(s, to, from, n - 1);
    }
  }

  /** When the writes start at or behind the reads (to <= from), or the
      reads end before the writes start (from + n <= to), no step reads a
      byte an earlier step wrote, so the loop is a plain copy. */
  lemma {:induction false} IncrementalCopyPlain(s: seq<bv8>, to: int, from: int, n: nat)
    requires 0 <= to && to + n <= |s| && 0 <= from && from + n <= |s|
    requires to <= from || from + n <= to
    ensures forall k :: to <= k < to + n ==> IncrementalCopy(s, to, from, n)[k] == s[k - to + from]
    decreases n
  {
    if n > 0 {
      IncrementalCopyPlain(s, to, from, n - 1);
      IncrementalCopyFrame(s, to, from, n - 1);
    }
  }

  /** Step j of the periodic loop reads the byte it stores from + (j mod d)
      holds at the start: either an untouched byte (j < d) or one stored d
      steps earlier. */
  lemma PeriodicRead(s: seq<bv8>, to: int, from: int, j: nat, d: int, p: seq<bv8>)
    requires 0 <= to && to + j < |s| && 0 <= from && from + j < |s|
    requires 0 < d && to == from + d && |p| == |s|
    requires forall k :: to <= k < to + j ==> p[k] == s[from + (k - to) % d]
    requires forall k :: 0 <= k < |s| && !(to <= k < to + j) ==> p[k] == s[k]
    ensures p[from + j] == s[from + j % d]
  {
    if j < d {
      assert p[from + j] == s[from + j];
      ModBelowPeriod(j, d);
    } else {
      assert p[from + j] == s[from + (j - d) % d];
      ModSubPeriod(j, d);
    }
  }

  /** Writing `d` bytes ahead of the reads repeats the `d` bytes at `from`:
      byte to + i becomes the original byte from + (i mod d). */
  lemma {:induction false} IncrementalCopyPeriodic(s: seq<bv8>, to: int, from: int, n: nat, d: int)
    requires 0 <= to && to + n <= |s| && 0 <= from && from + n <= |s|
    requires 0 < d && to == from + d
    ensures forall k :: to <= k < to + n ==> IncrementalCopy(s, to, from, n)[k] == s[from + (k - to) % d]
    decreases n
  {
    if n > 0 {
      var p := IncrementalCopy(s, to, from, n - 1);
      IncrementalCopyPeriodic(s, to, from, n - 1, d);
      IncrementalCopyFrame(s, to, from, n - 1);
      PeriodicRead(s, to, from, n - 1, d, p);
      var t := IncrementalCopy(s, to, from, n);
      assert t == p[to + n - 1 := p[from + n - 1]];
      forall k | to <= k < to + n
        ensures t[k] == s[from + (k - to) % d]
      {
        if k < to + n - 1 {
          assert t[k] == p[k];
        } else {
          assert k - to == n - 1 && t[k] == p[from + (n - 1)];
        }
      }
    }
  }

  /** safeIncrementalCopy: for i = 0 .. matchLen - 1 in order, the byte at
      `dOff + i` is stored at `matchOff + i`. */
  method SafeIncrementalCopy(dest: array<bv8>, matchOff: int, dOff: int, matchLen: int)
    requires matchLen <= 0 ||
      (0 <= matchOff && matchOff + matchLen <= dest.Length && 0 <= dOff && dOff + matchLen <= dest.Length)
    modifies dest
    ensures matchLen <= 0 ==> dest[..] == old(dest[..])
    ensures matchLen > 0 ==> dest[..] == IncrementalCopy(old(dest[..]), matchOff, dOff, matchLen)
  {
    if matchLen <= 0 {
      return;
    }
    var i := 0;
    while i < matchLen
      invariant 0 <= i <= matchLen
      invariant dest[..] == IncrementalCopy(old(dest[..]), matchOff, dOff, i)
    {
      dest[matchOff + i] := dest[dOff + i];
      i := i + 1;
    }
  }

  // ---------------------------------------------------------------------
  // wildIncrementalCopy

  /** One stride: the eight bytes at `from` are read, then stored at `to`. */
  function Stride(s: seq<bv8>, to: int, from: int): (t: seq<bv8>)
    requires 0 <= to && to + 8 <= |s| && 0 <= from && from + 8 <= |s|
    ensures |t| == |s|
  {
    Overwrite(s, to, s[from..from + 8])
  }

  /** The buffer after `k` strides, the i-th reading at from + 8i and writing
      at to + 8i. */
  function WildCopy(s: seq<bv8>, to: int, from: int, k: nat): (t: seq<bv8>)
    requires 0 <= to && to + 8 * k <= |s| && 0 <= from && from + 8 * k <= |s|
    ensures |t| == |s|
  {
    if k == 0 then s else Stride(WildCopy(s, to, from, k - 1), to + 8 * (k - 1), from + 8 * (k - 1))
  }

  /** The number of strides of the do-while loop: at least one, and then one
      more for as long as the read offset is below `matchCopyEnd`, that is
      max(1, ceil((matchCopyEnd - dOff) / 8)). */
  function StrideCount(dOff: int, matchCopyEnd: int): (k: nat)
    ensures 1 <= k
    ensures matchCopyEnd <= dOff + 8 * k
    ensures k == 1 || dOff + 8 * (k - 1) < matchCopyEnd
  {
    if matchCopyEnd - dOff <= 8 then 1 else (matchCopyEnd - dOff + 7) / 8
  }

  /** The loop leaves after exactly StrideCount strides: the count is the
      least k >= 1 with dOff + 8k >= matchCopyEnd. */
  lemma StrideCountLeast(dOff: int, matchCopyEnd: int, k: int)
    requires 1 <= k && (k == 1 || dOff + 8 * (k - 1) < matchCopyEnd)
    ensures k <= StrideCount(dOff, matchCopyEnd)
    ensures matchCopyEnd <= dOff + 8 * k ==> k == StrideCount(dOff, matchCopyEnd)
  {
  }

  /** dest.putLong(to, dest.getLong(from)) on a buffer of the given order:
      whatever the order, the eight bytes read are the eight bytes written. */
  method CopyStride(dest: array<bv8>, order: ByteOrder, to: int, from: int)
    requires 0 <= to && to + 8 <= dest.Length && 0 <= from && from + 8 <= dest.Length
    modifies dest
    ensures dest[..] == Stride(old(dest[..]), to, from)
  {
    ghost var bytes := dest[from..from + 8];
    var w := ReadLong(dest, from, order);
    LongBytesOfLong(bytes, order);
    PutLong(dest, to, w, order);
    OverwriteConcat(old(dest[..]), to, bytes);
  }

  /** wildIncrementalCopy: strides of eight bytes, reading at `dOff` and
      writing at `matchOff`, until the read offset reaches `matchCopyEnd`. */
  method WildIncrementalCopy(dest: array<bv8>, order: ByteOrder, matchOff: int, dOff: int, matchCopyEnd: int)
    requires 0 <= matchOff && matchOff + 8 * StrideCount(dOff, matchCopyEnd) <= dest.Length
    requires 0 <= dOff && dOff + 8 * StrideCount(dOff, matchCopyEnd) <= dest.Length
    modifies dest
    ensures dest[..] == WildCopy(old(dest[..]), matchOff, dOff, StrideCount(dOff, matchCopyEnd))
  {
    var m, d := matchOff, dOff;
    ghost var k := 0;
    ghost var count := StrideCount(dOff, matchCopyEnd);
    ghost var s := old(dest[..]);
    while true
      invariant 0 <= k < count
      invariant m == matchOff + 8 * k && d == dOff + 8 * k
      invariant dest[..] == WildCopy(s, matchOff, dOff, k)
      decreases count - k
    {
      CopyStride(dest, order, m, d);
      m := m + 8;
      d := d + 8;
      k := k + 1;
      StrideCountLeast(dOff, matchCopyEnd, k);
      if d >= matchCopyEnd {
        break;
      }
    }
  }

  /** The strides change nothing outside [to, to + 8k). */
  lemma {:induction false} WildCopyFrame(s: seq<bv8>, to: int, from: int, k: nat)
    requires 0 <= to && to + 8 * k <= |s| && 0 <= from && from + 8 * k <= |s|
    ensures forall j :: 0 <= j < |s| && !(to <= j < to + 8 * k) ==> WildCopy(s, to, from, k)[j] == s[j]
    decreases k
  {
    if k > 0 {
      WildCopyFrame(s, to, from, k - 1);
      var prev := WildCopy(s, to, from, k - 1);
      var at := to + 8 * (k - 1);
      forall j | 0 <= j < |s| && !(to <= j < to + 8 * k)
        ensures WildCopy(s, to, from, k)[j] == s[j]
      {
        OverwriteAt(prev, at, prev[from + 8 * (k - 1)..from + 8 * k], j);
      }
    }
  }

  /** Running the byte loop for n + m steps is running it for n steps and
      then for m more from the advanced offsets. */
  lemma {:induction false} IncrementalCopySplit(s: seq<bv8>, to: int, from: int, n: nat, m: nat)
    requires 0 <= to && to + n + m <= |s| && 0 <= from && from + n + m <= |s|
    ensures IncrementalCopy(s, to, from, n + m)
         == IncrementalCopy(IncrementalCopy(s, to, from, n), to + n, from + n, m)
    decreases m
  {
    if m > 0 {
      IncrementalCopySplit(s, to, from, n, m - 1);
    }
  }

  /** When the loop is a plain copy (to <= from or from + n <= to), its
      result is the buffer with the n bytes at `from` stored at `to`. */
  lemma ByteLoopIsBlockCopy(s: seq<bv8>, to: int, from: int, n: nat)
    requires 0 <= to && to + n <= |s| && 0 <= from && from + n <= |s|
    requires to <= from || from + n <= to
    ensures IncrementalCopy(s, to, from, n) == Overwrite(s, to, s[from..from + n])
  {
    IncrementalCopyFrame(s, to, from, n);
    IncrementalCopyPlain(s, to, from, n);
    OverwriteEqual(s, to, s[from..from + n], IncrementalCopy(s, to, from, n));
  }

  /** `w` more steps of the byte loop, when they do not read what they
      write, store the `w` bytes at b = from + n at a = to + n. */
  lemma ByteLoopBlock(s: seq<bv8>, to: int, from: int, n: nat, w: nat, a: int, b: int)
    requires 0 <= to && to + n + w <= |s| && 0 <= from && from + n + w <= |s|
    requires to <= from || from + w <= to
    requires a == to + n && b == from + n
    ensures IncrementalCopy(s, to, from, n + w)
         == Overwrite(IncrementalCopy(s, to, from, n), a, IncrementalCopy(s, to, from, n)[b..b + w])
  {
    var p := IncrementalCopy(s, to, from, n);
    IncrementalCopySplit(s, to, from, n, w);
    ByteLoopIsBlockCopy(p, a, b, w);
  }

  /** Eight more steps of a byte loop that does not read what it writes are
      one more stride, at to + n and from + n. */
  lemma ByteLoopStride(s: seq<bv8>, to: int, from: int, n: nat, m: nat, p: seq<bv8>)
    requires m == n + 8
    requires 0 <= to && to + m <= |s| && 0 <= from && from + m <= |s|
    requires to <= from || from + 8 <= to
    requires p == IncrementalCopy(s, to, from, n)
    ensures Stride(p, to + n, from + n) == IncrementalCopy(s, to, from, m)
  {
    var w := m - n;
    ByteLoopBlock(s, to, from, n, w, to + n, from + n);
    assert n + w == m && from + n + w == from + n + 8;
  }

  /** When matchOff <= dOff or matchOff >= dOff + 8, the k strides write
      exactly what the byte loop writes over the same 8k bytes. */
  lemma {:induction false} WildCopyIsByteLoop(s: seq<bv8>, to: int, from: int, k: nat)
    requires 0 <= to && to + 8 * k <= |s| && 0 <= from && from + 8 * k <= |s|
    requires to <= from || from + 8 <= to
    ensures WildCopy(s, to, from, k) == IncrementalCopy(s, to, from, 8 * k)
    decreases k
  {
    if k > 0 {
      var p := WildCopy(s, to, from, k - 1);
      WildCopyIsByteLoop(s, to, from, k - 1);
      ByteLoopStride(s, to, from, 8 * (k - 1), 8 * k, p);
    }
  }

  /** At a distance below eight the strides do not expand the repeat the
      byte loop expands: over the bytes 0, 1, ..., 10 with the writes three
      bytes ahead of the reads, one stride stores 3 at index 6, where the
      byte loop stores 0. */
  lemma WildCopyShortDistance()
    ensures WildCopy([0, 1, 2, 3, 4, 5, 6, 7, 8, 9, 10], 3, 0, 1)[6] == 3
    ensures IncrementalCopy([0, 1, 2, 3, 4, 5, 6, 7, 8, 9, 10], 3, 0, 8)[6] == 0
  {
    var s: seq<bv8> := [0, 1, 2, 3, 4, 5, 6, 7, 8, 9, 10];
    OverwriteAt(s, 3, s[0..8], 6);
    IncrementalCopyPeriodic(s, 3, 0, 8, 3);
  }

  /** wildIncrementalCopy as the overlapping-repeat copy is meant to behave:
      8-byte strides when the reads are not just behind the writes, and the
      byte loop over the same StrideCount strides' worth of bytes when the
      writes are fewer than eight bytes ahead, so a short repeat is
      expanded at every distance. */
  method WildIncrementalCopyExpanding(dest: array<bv8>, order: ByteOrder, matchOff: int, dOff: int, matchCopyEnd: int)
    requires 0 <= matchOff && matchOff + 8 * StrideCount(dOff, matchCopyEnd) <= dest.Length
    requires 0 <= dOff && dOff + 8 * StrideCount(dOff, matchCopyEnd) <= dest.Length
    modifies dest
    ensures dest[..] == IncrementalCopy(old(dest[..]), matchOff, dOff, 8 * StrideCount(dOff, matchCopyEnd))
  {
    ghost var s := dest[..];
    if matchOff <= dOff || dOff + 8 <= matchOff {
      WildIncrementalCopy(dest, order, matchOff, dOff, matchCopyEnd);
      WildCopyIsByteLoop(s, matchOff, dOff, StrideCount(dOff, matchCopyEnd));
    } else {
      SafeIncrementalCopy(dest, matchOff, dOff, 8 * StrideCount(dOff, matchCopyEnd));
    }
  }

  // ---------------------------------------------------------------------
  // safeArraycopy and wildArraycopy

  /** safeArraycopy (System.arraycopy): the `len` bytes at `sOff` of `src`, as
      they were before the call, are stored at `dOff` of `dest`; the two
      buffers may be the same and the ranges may overlap. */
  method SafeArraycopy(src: array<bv8>, sOff: int, dest: array<bv8>, dOff: int, len: int)
    requires 0 <= len
    requires 0 <= sOff && sOff + len <= src.Length && 0 <= dOff && dOff + len <= dest.Length
    modifies dest
    ensures dest[..] == Overwrite(old(dest[..]), dOff, old(src[sOff..sOff + len]))
  {
    var bytes := src[sOff..sOff + len];
    forall k | 0 <= k < len {
      dest[dOff + k] := bytes[k];
    }
    OverwriteEqual(old(dest[..]), dOff, bytes, dest[..]);
  }

  /** Two adjacent overwrites are one overwrite with the two blocks joined. */
  lemma OverwriteAdjacent(s: seq<bv8>, at: int, a: seq<bv8>, b: seq<bv8>, mid: int)
    requires 0 <= at && at + |a| + |b| <= |s| && mid == at + |a|
    ensures Overwrite(Overwrite(s, at, a), mid, b) == Overwrite(s, at, a + b)
  {
    var t := Overwrite(Overwrite(s, at, a), mid, b);
    forall k | 0 <= k < |s|
      ensures t[k] == Overwrite(s, at, a + b)[k]
    {
      OverwriteAt(Overwrite(s, at, a), mid, b, k);
      OverwriteAt(s, at, a, k);
      OverwriteAt(s, at, a + b, k);
    }
  }

  /** The number of bytes wildArraycopy writes for a copy of `len`: `len`
      rounded up to a multiple of eight. */
  function WildLength(len: int): (n: nat)
    ensures n % 8 == 0
    ensures len <= 0 ==> n == 0
    ensures len > 0 ==> len <= n < len + 8
  {
    if len <= 0 then 0 else (len + 7) / 8 * 8
  }

  /** The stride offsets of wildArraycopy, i = 8j, stay within WildLength(len)
      while i < len, and reach it exactly when the loop stops. */
  lemma WildLengthStrides(len: int, i: int, j: int)
    requires i == 8 * j && 0 <= i <= WildLength(len)
    ensures i < len ==> i + 8 <= WildLength(len)
    ensures i >= len ==> i == WildLength(len)
  {
    var w := WildLength(len);
    var q := w / 8;
    assert w == 8 * q;
  }

  /** copy8Bytes (in ByteBufferUtils, not part of this model): the eight
      bytes at `sOff` of `src` are stored at `dOff` of `dest`. */
  method Copy8Bytes(src: array<bv8>, sOff: int, dest: array<bv8>, dOff: int)
    requires 0 <= sOff && sOff + 8 <= src.Length && 0 <= dOff && dOff + 8 <= dest.Length
    modifies dest
    ensures dest[..] == Overwrite(old(dest[..]), dOff, old(src[sOff..sOff + 8]))
  {
    var bytes := src[sOff..sOff + 8];
    forall k | 0 <= k < 8 {
      dest[dOff + k] := bytes[k];
    }
    OverwriteEqual(old(dest[..]), dOff, bytes, dest[..]);
  }

  /** wildArraycopy with the body its loop is written for: copy8Bytes at
      offsets i = 0, 8, 16, ... while i < len. (As written, the loop body is
      empty and nothing is copied.) It copies WildLength(len) bytes, up to
      seven more than asked; the buffers are distinct. */
  method WildArraycopy(src: array<bv8>, sOff: int, dest: array<bv8>, dOff: int, len: int)
    requires src != dest
    requires 0 <= sOff && sOff + WildLength(len) <= src.Length
    requires 0 <= dOff && dOff + WildLength(len) <= dest.Length
    modifies dest
    ensures dest[..] == Overwrite(old(dest[..]), dOff, src[sOff..sOff + WildLength(len)])
  {
    ghost var s := old(dest[..]);
    var i := 0;
    ghost var j := 0;
    OverwriteEqual(s, dOff, [], dest[..]);
    while i < len
      invariant i == 8 * j && 0 <= i <= WildLength(len)
      invariant dest[..] == Overwrite(s, dOff, src[sOff..sOff + i])
      decreases len - i
    {
      WildLengthStrides(len, i, j);
      Copy8Bytes(src, sOff + i, dest, dOff + i);
      OverwriteAdjacent(s, dOff, src[sOff..sOff + i], src[sOff + i..sOff + i + 8], dOff + i);
      assert src[sOff..sOff + i] + src[sOff + i..sOff + i + 8] == src[sOff..sOff + i + 8];
      i := i + 8;
      j := j + 1;
    }
    WildLengthStrides(len, i, j);
  }

  /** wildArraycopy as written: the loop steps i = 0, 8, 16, ... while
      i < len, but its body (the call to copy8Bytes) is commented out, so
      `dest` keeps every byte it had. */
  method WildArraycopyAsWritten(src: array<bv8>, sOff: int, dest: array<bv8>, dOff: int, len: int)
    ensures dest[..] == old(dest[..])
  {
    var i := 0;
    while i < len
      decreases len - i
    {
      i := i + 8;
    }
  }

  /** What the as-written copy leaves behind differs from the intended
      state as soon as one source byte differs from the destination byte
      it should replace. */
  lemma WildArraycopyAsWrittenDiffers(s: seq<bv8>, at: int, block: seq<bv8>, k: int)
    requires 0 <= at && at + |block| <= |s|
    requires at <= k < at + |block| && block[k - at] != s[k]
    ensures Overwrite(s, at, block) != s
  {
    OverwriteAt(s, at, block, k);
  }

  /** A concrete case: eight literal bytes 1 to be placed over a zeroed
      destination stay 0. */
  lemma WildArraycopyAsWrittenExample()
    ensures Overwrite(seq(8, _ => 0 as bv8), 0, seq(8, _ => 1 as bv8)) != seq(8, _ => 0 as bv8)
  {
    WildArraycopyAsWrittenDiffers(seq(8, _ => 0 as bv8), 0, seq(8, _ => 1 as bv8), 0);
  }
}
