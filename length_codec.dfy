/** The extension bytes of an LZ4 length (writeLen): a length that does not
    fit in its 4-bit token nibble is continued as bytes of 255 followed by one
    byte below 255, and a reader sums bytes up to and including the first
    byte that is not 255. */
module LengthCodec {
  import opened CopyEngine

  datatype Option<T> = None | Some(value: T)

  /** The byte a cast (byte) x stores for 0 <= x < 256. It is defined by
      counting up from zero, which keeps every use of it free of an
      int-to-bit-vector conversion; its contract gives the value back. */
  function ByteOf(x: int): (b: bv8)
    requires 0 <= x < 256
    ensures b as int == x
    decreases x
  {
    if x == 0 then 0 else ByteOf(x - 1) + 1
  }

  /** Every byte is the cast of its unsigned value. */
  lemma ByteOfUnsigned(b: bv8)
    ensures ByteOf(b as int) == b
  {
  }

  /** The bytes writeLen stores for `len`, in order: one 0xFF for every full
      255 still left, then the remainder. */
  function LenBytes(len: nat): (b: seq<bv8>)
    ensures 1 <= |b|
    decreases len
  {
    if len >= 0xFF then [0xFF] + LenBytes(len - 0xFF) else [ByteOf(len)]
  }

  /** The layout writeLen produces: len / 255 bytes of 0xFF followed by one
      byte len % 255, which is below 255. */
  lemma {:induction false} LenBytesLayout(len: nat)
    ensures |LenBytes(len)| == len / 255 + 1
    ensures forall i :: 0 <= i < len / 255 ==> LenBytes(len)[i] == 0xFF
    ensures LenBytes(len)[len / 255] == ByteOf(len % 255)
    ensures len % 255 < 255
    decreases len
  {
    var q, r := len / 255, len % 255;
    if len >= 0xFF {
      LenBytesLayout(len - 0xFF);
      assert (len - 255) / 255 == q - 1 && (len - 255) % 255 == r;
      assert LenBytes(len)[q] == LenBytes(len - 0xFF)[q - 1];
    } else {
      assert q == 0 && r == len;
    }
  }

  /** A reader of extension bytes: the sum of the bytes up to and including
      the first byte below 255, and how many bytes that is; None when the
      bytes run out first. */
  function DecodeLen(b: seq<bv8>): (r: Option<(int, int)>)
    ensures r.Some? ==> 0 <= r.value.0 && 1 <= r.value.1 <= |b|
    decreases |b|
  {
    if |b| == 0 then None
    else if b[0] != 0xFF then Some((b[0] as int, 1))
    else
      match DecodeLen(b[1..])
      case None => None
      case Some((v, c)) => Some((0xFF + v, 1 + c))
  }

  /** Reading back what writeLen wrote gives the length, whatever follows it. */
  lemma {:induction false} DecodeLenBytes(len: nat, rest: seq<bv8>)
    ensures DecodeLen(LenBytes(len) + rest) == Some((len, |LenBytes(len)|))
    decreases len
  {
    var b := LenBytes(len) + rest;
    if len >= 0xFF {
      DecodeLenBytes(len - 0xFF, rest);
      assert b[0] == 0xFF && b[1..] == LenBytes(len - 0xFF) + rest;
    } else {
      assert b[0] == ByteOf(len);
    }
  }

  /** The other direction: every run of bytes the reader accepts is exactly
      what writeLen writes for the length read. */
  lemma {:induction false} DecodeLenCanonical(b: seq<bv8>, v: int, c: int)
    requires DecodeLen(b) == Some((v, c))
    requires 0 <= v
    ensures b[..c] == LenBytes(v)
    decreases |b|
  {
    if b[0] == 0xFF {
      var r := DecodeLen(b[1..]);
      DecodeLenCanonical(b[1..], r.value.0, r.value.1);
      assert b[..c] == [b[0]] + b[1..][..c - 1];
    } else {
      ByteOfUnsigned(b[0]);
      assert b[..c] == [b[0]];
    }
  }

  /** s[i := x] overwrites one byte. */
  lemma UpdateIsOverwrite(s: seq<bv8>, i: int, x: bv8)
    requires 0 <= i < |s|
    ensures s[i := x] == Overwrite(s, i, [x])
  {
    OverwriteEqual(s, i, [x], s[i := x]);
  }

  /** dest.put(at, x) on a buffer that holds `written` at `start`, with `at`
      just past it: the buffer then holds written + [x] there. */
  method PutNext(dest: array<bv8>, at: int, x: bv8, ghost s: seq<bv8>, ghost start: int, ghost written: seq<bv8>)
    requires 0 <= start && at == start + |written| && at < dest.Length == |s|
    requires dest[..] == Overwrite(s, start, written)
    modifies dest
    ensures dest[..] == Overwrite(s, start, written + [x])
  {
    UpdateIsOverwrite(dest[..], at, x);
    OverwriteAdjacent(s, start, written, [x], at);
    dest[at] := x;
  }

  /** One 0xFF written by writeLen's loop moves from the bytes still to
      write to the bytes written. */
  lemma LenBytesStep(len: nat, written: seq<bv8>, l: nat)
    requires l >= 0xFF && LenBytes(len) == written + LenBytes(l)
    ensures LenBytes(len) == (written + [0xFF]) + LenBytes(l - 0xFF)
    ensures |LenBytes(l)| == 1 + |LenBytes(l - 0xFF)|
  {
    assert LenBytes(l) == [0xFF] + LenBytes(l - 0xFF);
    assert written + ([0xFF] + LenBytes(l - 0xFF)) == (written + [0xFF]) + LenBytes(l - 0xFF);
  }

  /** writeLen: stores LenBytes(len) at `dOff` and returns the offset just
      past it. */
  method WriteLen(len: int, dest: array<bv8>, dOff: int) returns (end: int)
    requires 0 <= len
    requires 0 <= dOff && dOff + len / 255 + 1 <= dest.Length
    modifies dest
    ensures end == dOff + |LenBytes(len)| == dOff + len / 255 + 1
    ensures dest[..] == Overwrite(old(dest[..]), dOff, LenBytes(len))
  {
    LenBytesLayout(len);
    ghost var s := dest[..];
    ghost var written: seq<bv8> := [];
    OverwriteEqual(s, dOff, written, dest[..]);
    var l := len;
    end := dOff;
    while l >= 0xFF
      invariant 0 <= l && end == dOff + |written|
      invariant end + |LenBytes(l)| <= dest.Length
      invariant LenBytes(len) == written + LenBytes(l)
      invariant dest[..] == Overwrite(s, dOff, written)
      decreases l
    {
      LenBytesStep(len, written, l);
      PutNext(dest, end, 0xFF, s, dOff, written);
      written := written + [0xFF];
      end := end + 1;
      l := l - 0xFF;
    }
    PutNext(dest, end, ByteOf(l), s, dOff, written);
    end := end + 1;
  }
}
