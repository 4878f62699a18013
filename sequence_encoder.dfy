/** The LZ4 sequence writer: encodeSequence (token, literal-length extension,
    literals, two-byte little-endian match distance, match-length extension)
    and lastLiterals (token, literal-length extension, literals), each with
    its capacity checks, and an independent reader of the same layout. */
module SequenceEncoder {
  import opened Lz4Constants
  import opened CopyEngine
  import opened LengthCodec

  /** What encodeSequence and lastLiterals return: the offset just past the
      bytes written, or the LZ4Exception they throw when `destEnd` is too
      close. */
  datatype Outcome = Ok(next: int) | DestTooSmall

  // ---------------------------------------------------------------------
  // The layout

  /** The 4-bit field for a length: the length itself below 15, else 15
      (and the rest follows as extension bytes). */
  function Nibble(n: nat): (h: nat)
    ensures h < 16
    ensures h < RUN_MASK ==> h == n
    ensures h == RUN_MASK <==> n >= RUN_MASK
  {
    if n >= RUN_MASK then RUN_MASK else n
  }

  /** Bits 4..7 of a token (t >>> 4): the literal-length field. */
  function HighNibble(t: bv8): int
  {
    t as int / 16
  }

  /** Bits 0..3 of a token (t & ML_MASK): the match-length field. */
  function LowNibble(t: bv8): int
  {
    t as int % 16
  }

  /** The token byte `(hi << ML_BITS) | lo` as stored, which for two
      nibbles is 16 * hi + lo. */
  function TokenByte(hi: int, lo: int): bv8
    requires 0 <= hi < 16 && 0 <= lo < 16
  {
    ByteOf(16 * hi + lo)
  }

  /** The two nibbles of a token read back as `hi` and `lo`. */
  lemma TokenByteNibbles(hi: int, lo: int)
    requires 0 <= hi < 16 && 0 <= lo < 16
    ensures HighNibble(TokenByte(hi, lo)) == hi && LowNibble(TokenByte(hi, lo)) == lo
  {
  }

  /** The extension bytes of a length field: writeLen(n - 15) when the
      nibble is saturated, nothing otherwise. */
  function ExtBytes(n: nat): seq<bv8>
  {
    if n >= RUN_MASK then LenBytes(n - RUN_MASK) else []
  }

  /** lastLiterals' count (runLen + 255 - RUN_MASK) / 255 is exactly the
      number of extension bytes: 0 below 15, and the length of
      writeLen(runLen - 15) from 15 on. */
  lemma ExtBytesCount(n: nat)
    ensures |ExtBytes(n)| == (n + 255 - RUN_MASK) / 255
    ensures n < RUN_MASK ==> |ExtBytes(n)| == 0
  {
    if n >= RUN_MASK {
      LenBytesLayout(n - RUN_MASK);
      assert (n - RUN_MASK) / 255 + 1 == (n - RUN_MASK + 255) / 255;
    }
  }

  /** The two distance bytes: (byte) matchDec, then (byte) (matchDec >>> 8),
      so the distance in little-endian order. */
  function DistanceBytes(dist: int): (b: seq<bv8>)
    requires 0 <= dist <= MAX_DISTANCE
    ensures |b| == 2
  {
    [ByteOf(dist % 256), ByteOf(dist / 256)]
  }

  /** The two distance bytes read back, low byte first, as the distance. */
  lemma DistanceBytesValue(dist: int)
    requires 0 <= dist <= MAX_DISTANCE
    ensures DistanceBytes(dist)[0] as int + 256 * DistanceBytes(dist)[1] as int == dist
  {
  }

  /** One sequence as encodeSequence lays it out. */
  function SequenceBytes(lits: seq<bv8>, dist: int, matchLen: int): seq<bv8>
    requires MIN_MATCH <= matchLen && 0 <= dist <= MAX_DISTANCE
  {
    [TokenByte(Nibble(|lits|), Nibble(matchLen - MIN_MATCH))] + ExtBytes(|lits|) + lits
      + DistanceBytes(dist) + ExtBytes(matchLen - MIN_MATCH)
  }

  /** A sequence ends where its match-length extension ends: past the
      distance field, which starts MatchFieldOffset(0, |lits|) in. */
  lemma SequenceBytesLength(lits: seq<bv8>, dist: int, matchLen: int, dOff: int)
    requires MIN_MATCH <= matchLen && 0 <= dist <= MAX_DISTANCE
    ensures dOff + |SequenceBytes(lits, dist, matchLen)|
         == MatchFieldOffset(dOff, |lits|) + |ExtBytes(matchLen - MIN_MATCH)|
  {
  }

  /** A sequence is its token followed by the part encodeSequence writes
      before its second check, then the match-length extension. */
  lemma SequenceBytesParts(lits: seq<bv8>, dist: int, matchLen: int, hi: int)
    requires MIN_MATCH <= matchLen && 0 <= dist <= MAX_DISTANCE && hi == Nibble(|lits|)
    ensures SequenceBytes(lits, dist, matchLen)
         == [TokenByte(hi, Nibble(matchLen - MIN_MATCH))]
            + (ExtBytes(|lits|) + lits + DistanceBytes(dist)) + ExtBytes(matchLen - MIN_MATCH)
  {
    var token := [TokenByte(hi, Nibble(matchLen - MIN_MATCH))];
    var ext, dist2, mext := ExtBytes(|lits|), DistanceBytes(dist), ExtBytes(matchLen - MIN_MATCH);
    assert token + ext + lits + dist2 + mext == token + (ext + lits + dist2) + mext;
  }

  /** The final, literal-only sequence as lastLiterals lays it out; its
      length is what lastLiterals' check counts. */
  function LastLiteralsBytes(lits: seq<bv8>): (b: seq<bv8>)
    ensures |b| == 1 + |lits| + (|lits| + 255 - RUN_MASK) / 255
  {
    ExtBytesCount(|lits|);
    [TokenByte(Nibble(|lits|), 0)] + ExtBytes(|lits|) + lits
  }

  // ---------------------------------------------------------------------
  // An independent reader of the layout

  /** A decoded sequence: its literals, the match distance and the match
      length. */
  datatype Sequence = Sequence(literals: seq<bv8>, distance: int, matchLen: int)

  /** A length field: the nibble, plus the extension bytes when the nibble
      is 15; gives the length and the number of extension bytes read. */
  function DecodeLength(nibble: int, b: seq<bv8>): (r: Option<(int, int)>)
    ensures r.Some? ==> 0 <= r.value.1 <= |b|
  {
    if nibble < RUN_MASK then Some((nibble, 0))
    else
      match DecodeLen(b)
      case None => None
      case Some((v, c)) => Some((RUN_MASK + v, c))
  }

  /** Reads a token, its literal length and the literals; gives the token,
      the literals and the position after them. */
  function DecodeLiterals(b: seq<bv8>): (r: Option<(bv8, seq<bv8>, int)>)
    ensures r.Some? ==> 0 <= r.value.2 <= |b|
  {
    if |b| == 0 then None
    else
      match DecodeLength(HighNibble(b[0]), b[1..])
      case None => None
      case Some((n, c)) =>
        if 1 + c + n <= |b| then Some((b[0], b[1 + c..1 + c + n], 1 + c + n)) else None
  }

  /** Reads one full sequence; gives it and the number of bytes it took. */
  function DecodeSequence(b: seq<bv8>): Option<(Sequence, int)>
  {
    match DecodeLiterals(b)
    case None => None
    case Some((t, lits, p)) => DecodeMatch(b, t, lits, p)
  }

  /** The rest of a sequence after its literals, at `p`: the two distance
      bytes, low byte first, and the match-length field of token `t`. */
  function DecodeMatch(b: seq<bv8>, t: bv8, lits: seq<bv8>, p: int): Option<(Sequence, int)>
    requires 0 <= p
  {
    if p + 2 > |b| then None
    else
      var dist := b[p] as int + 256 * b[p + 1] as int;
      match DecodeLength(LowNibble(t), b[p + 2..])
      case None => None
      case Some((m, c)) => Some((Sequence(lits, dist, m + MIN_MATCH), p + 2 + c))
  }

  /** Reads the final literal-only sequence; gives its literals and the
      number of bytes it took. */
  function DecodeLastLiterals(b: seq<bv8>): Option<(seq<bv8>, int)>
  {
    match DecodeLiterals(b)
    case None => None
    case Some((_, lits, p)) => Some((lits, p))
  }

  /** A length field written as Nibble(n) and ExtBytes(n) reads back as n. */
  lemma DecodeLengthOfExt(n: nat, rest: seq<bv8>)
    ensures DecodeLength(Nibble(n), ExtBytes(n) + rest) == Some((n, |ExtBytes(n)|))
  {
    if n >= RUN_MASK {
      DecodeLenBytes(n - RUN_MASK, rest);
    } else {
      assert ExtBytes(n) + rest == rest;
    }
  }

  /** A token whose high nibble is Nibble(|lits|), the extension bytes and
      the literals read back as that token and those literals. */
  lemma DecodeLiteralsOf(t: bv8, lits: seq<bv8>, rest: seq<bv8>, b: seq<bv8>)
    requires HighNibble(t) == Nibble(|lits|)
    requires b == [t] + ExtBytes(|lits|) + lits + rest
    ensures DecodeLiterals(b) == Some((t, lits, 1 + |ExtBytes(|lits|)| + |lits|))
  {
    var e := ExtBytes(|lits|);
    LiteralsFields(t, e, lits, rest, b);
    DecodeLengthOfExt(|lits|, lits + rest);
    assert DecodeLength(HighNibble(b[0]), b[1..]) == Some((|lits|, |e|));
  }

  /** Where the fields of a token, an extension and literals sit once they
      are followed by `rest`. */
  lemma LiteralsFields(t: bv8, e: seq<bv8>, lits: seq<bv8>, rest: seq<bv8>, b: seq<bv8>)
    requires b == [t] + e + lits + rest
    ensures |b| == 1 + |e| + |lits| + |rest|
    ensures b[0] == t && b[1..] == e + (lits + rest)
    ensures b[1 + |e|..1 + |e| + |lits|] == lits
  {
    assert b[1..] == e + (lits + rest);
    assert b[1 + |e|..1 + |e| + |lits|] == (e + (lits + rest))[|e|..|e| + |lits|];
  }

  /** Where the fields of an encoded sequence sit once it is followed by
      `rest`: the two distance bytes at p and p + 1, then the match-length
      extension and `rest`. */
  lemma SequenceFields(t: bv8, e1: seq<bv8>, lits: seq<bv8>, d: seq<bv8>, e2: seq<bv8>, rest: seq<bv8>,
                       b: seq<bv8>, p: int)
    requires |d| == 2 && b == [t] + e1 + lits + d + e2 + rest && p == 1 + |e1| + |lits|
    ensures b == [t] + e1 + lits + (d + e2 + rest)
    ensures b[p] == d[0] && b[p + 1] == d[1] && b[p + 2..] == e2 + rest
  {
    assert b[p..] == d + e2 + rest;
  }

  /** The literal part of an encoded sequence reads back as its token and
      literals. */
  lemma SequenceLiteralsPart(lits: seq<bv8>, dist: int, matchLen: int, rest: seq<bv8>, b: seq<bv8>)
    requires MIN_MATCH <= matchLen && 0 < dist <= MAX_DISTANCE
    requires b == SequenceBytes(lits, dist, matchLen) + rest
    ensures DecodeLiterals(b)
         == Some((TokenByte(Nibble(|lits|), Nibble(matchLen - MIN_MATCH)), lits, 1 + |ExtBytes(|lits|)| + |lits|))
  {
    var t := TokenByte(Nibble(|lits|), Nibble(matchLen - MIN_MATCH));
    var e1, d, e2 := ExtBytes(|lits|), DistanceBytes(dist), ExtBytes(matchLen - MIN_MATCH);
    SequenceFields(t, e1, lits, d, e2, rest, b, 1 + |e1| + |lits|);
    TokenByteNibbles(Nibble(|lits|), Nibble(matchLen - MIN_MATCH));
    DecodeLiteralsOf(t, lits, d + e2 + rest, b);
  }

  /** The two distance bytes of an encoded sequence, at
      p = 1 + |ExtBytes(|lits|)| + |lits|, read back as the distance. */
  lemma SequenceDistance(lits: seq<bv8>, dist: int, matchLen: int, rest: seq<bv8>, b: seq<bv8>, p: int)
    requires MIN_MATCH <= matchLen && 0 < dist <= MAX_DISTANCE
    requires b == SequenceBytes(lits, dist, matchLen) + rest
    requires p == 1 + |ExtBytes(|lits|)| + |lits|
    ensures p + 2 <= |b| && b[p] as int + 256 * b[p + 1] as int == dist
  {
    var t := TokenByte(Nibble(|lits|), Nibble(matchLen - MIN_MATCH));
    var e1, d, e2 := ExtBytes(|lits|), DistanceBytes(dist), ExtBytes(matchLen - MIN_MATCH);
    SequenceFields(t, e1, lits, d, e2, rest, b, p);
    DistanceBytesValue(dist);
  }

  /** The match-length field of an encoded sequence, just after the
      distance, reads back as matchLen - MIN_MATCH and ends the sequence. */
  lemma SequenceMatchLength(lits: seq<bv8>, dist: int, matchLen: int, rest: seq<bv8>, b: seq<bv8>, p: int)
    requires MIN_MATCH <= matchLen && 0 < dist <= MAX_DISTANCE
    requires b == SequenceBytes(lits, dist, matchLen) + rest
    requires p == 1 + |ExtBytes(|lits|)| + |lits|
    ensures p + 2 <= |b|
    ensures DecodeLength(Nibble(matchLen - MIN_MATCH), b[p + 2..])
         == Some((matchLen - MIN_MATCH, |ExtBytes(matchLen - MIN_MATCH)|))
    ensures |SequenceBytes(lits, dist, matchLen)| == p + 2 + |ExtBytes(matchLen - MIN_MATCH)|
  {
    var t := TokenByte(Nibble(|lits|), Nibble(matchLen - MIN_MATCH));
    var e1, d, e2 := ExtBytes(|lits|), DistanceBytes(dist), ExtBytes(matchLen - MIN_MATCH);
    SequenceFields(t, e1, lits, d, e2, rest, b, p);
    DecodeLengthOfExt(matchLen - MIN_MATCH, rest);
  }

  /** What follows the literals of an encoded sequence reads back, under
      its token, as the distance and the match length. */
  lemma SequenceMatchPart(lits: seq<bv8>, dist: int, matchLen: int, rest: seq<bv8>, b: seq<bv8>, p: int)
    requires MIN_MATCH <= matchLen && 0 < dist <= MAX_DISTANCE
    requires b == SequenceBytes(lits, dist, matchLen) + rest
    requires p == 1 + |ExtBytes(|lits|)| + |lits|
    ensures |SequenceBytes(lits, dist, matchLen)| == p + 2 + |ExtBytes(matchLen - MIN_MATCH)|
    ensures DecodeMatch(b, TokenByte(Nibble(|lits|), Nibble(matchLen - MIN_MATCH)), lits, p)
         == Some((Sequence(lits, dist, matchLen), p + 2 + |ExtBytes(matchLen - MIN_MATCH)|))
  {
    SequenceDistance(lits, dist, matchLen, rest, b, p);
    SequenceMatchLength(lits, dist, matchLen, rest, b, p);
    TokenByteNibbles(Nibble(|lits|), Nibble(matchLen - MIN_MATCH));
    DecodeMatchOf(b, TokenByte(Nibble(|lits|), Nibble(matchLen - MIN_MATCH)), lits, p, dist,
                  matchLen - MIN_MATCH, |ExtBytes(matchLen - MIN_MATCH)|);
  }

  /** Round trip: reading what encodeSequence lays out gives back the
      literals, the distance and the match length, whatever follows. */
  lemma SequenceRoundTrip(lits: seq<bv8>, dist: int, matchLen: int, rest: seq<bv8>)
    requires MIN_MATCH <= matchLen && 0 < dist <= MAX_DISTANCE
    ensures DecodeSequence(SequenceBytes(lits, dist, matchLen) + rest)
         == Some((Sequence(lits, dist, matchLen), |SequenceBytes(lits, dist, matchLen)|))
  {
    var b := SequenceBytes(lits, dist, matchLen) + rest;
    var p := 1 + |ExtBytes(|lits|)| + |lits|;
    SequenceLiteralsPart(lits, dist, matchLen, rest, b);
    SequenceMatchPart(lits, dist, matchLen, rest, b, p);
  }

  /** DecodeMatch from its parts: the two distance bytes and the
      match-length field. */
  lemma DecodeMatchOf(b: seq<bv8>, t: bv8, lits: seq<bv8>, p: int, dist: int, m: int, c: int)
    requires 0 <= p && p + 2 <= |b|
    requires b[p] as int + 256 * b[p + 1] as int == dist
    requires DecodeLength(LowNibble(t), b[p + 2..]) == Some((m, c))
    ensures DecodeMatch(b, t, lits, p) == Some((Sequence(lits, dist, m + MIN_MATCH), p + 2 + c))
  {
  }

  /** Round trip: reading what lastLiterals lays out gives back the
      literals, whatever follows. */
  lemma LastLiteralsRoundTrip(lits: seq<bv8>, rest: seq<bv8>)
    ensures DecodeLastLiterals(LastLiteralsBytes(lits) + rest) == Some((lits, |LastLiteralsBytes(lits)|))
  {
    var t := TokenByte(Nibble(|lits|), 0);
    TokenByteNibbles(Nibble(|lits|), 0);
    DecodeLiteralsOf(t, lits, rest, LastLiteralsBytes(lits) + rest);
  }

  // ---------------------------------------------------------------------
  // lastLiterals

  /** dest[at] := x on a buffer that holds `body` at at + 1: it then holds
      [x] + body at `at`. */
  lemma OverwritePrepend(s: seq<bv8>, at: int, x: bv8, body: seq<bv8>, t: seq<bv8>)
    requires 0 <= at && at + 1 + |body| <= |s|
    requires t == Overwrite(s, at + 1, body)
    ensures t[at := x] == Overwrite(s, at, [x] + body)
  {
    forall k | 0 <= k < |s|
      ensures t[at := x][k] == Overwrite(s, at, [x] + body)[k]
    {
      OverwriteAt(s, at + 1, body, k);
      OverwriteAt(s, at, [x] + body, k);
    }
  }

  /** The extension bytes of a length field as both writers store them:
      writeLen(n - RUN_MASK) when the nibble is saturated, nothing else
      otherwise. */
  method WriteExt(n: int, dest: array<bv8>, dOff: int) returns (end: int)
    requires 0 <= n
    requires 0 <= dOff && dOff + |ExtBytes(n)| <= dest.Length
    modifies dest
    ensures end == dOff + |ExtBytes(n)|
    ensures dest[..] == Overwrite(old(dest[..]), dOff, ExtBytes(n))
  {
    if n >= RUN_MASK {
      LenBytesLayout(n - RUN_MASK);
      end := WriteLen(n - RUN_MASK, dest, dOff);
    } else {
      OverwriteEmpty(dest[..], dOff);
      end := dOff;
    }
  }

  /** The token lastLiterals picks, then the extension and the literals,
      is the final run's layout. */
  lemma LastLiteralsLayout(lits: seq<bv8>, token: bv8)
    requires token == TokenByte(Nibble(|lits|), 0)
    ensures LastLiteralsBytes(lits) == [token] + ExtBytes(|lits|) + lits
  {
  }

  /** lastLiterals: fails, leaving `dest` as it was, exactly when
      dOff + runLen + 1 + (runLen + 255 - RUN_MASK) / 255 passes `destEnd`;
      otherwise stores the token, the literal-length extension and the
      `srcLen` literals at `dOff` and returns the offset past them. */
  method LastLiterals(src: array<bv8>, sOff: int, srcLen: int, dest: array<bv8>, dOff: int, destEnd: int)
    returns (r: Outcome)
    requires src != dest
    requires 0 <= srcLen && 0 <= sOff && sOff + srcLen <= src.Length
    requires 0 <= dOff && destEnd <= dest.Length
    requires dOff + srcLen + 1 + (srcLen + 255 - RUN_MASK) / 255 <= INT_MAX
    modifies dest
    ensures r.DestTooSmall? <==> dOff + srcLen + 1 + (srcLen + 255 - RUN_MASK) / 255 > destEnd
    ensures r.DestTooSmall? ==> dest[..] == old(dest[..])
    ensures r.Ok? ==> r.next == dOff + |LastLiteralsBytes(src[sOff..sOff + srcLen])| <= destEnd
    ensures r.Ok? ==> dest[..] == Overwrite(old(dest[..]), dOff, LastLiteralsBytes(src[sOff..sOff + srcLen]))
  {
    var runLen := srcLen;
    if dOff + runLen + 1 + (runLen + 255 - RUN_MASK) / 255 > destEnd {
      return DestTooSmall;
    }
    ExtBytesCount(runLen);
    var next := WriteLastLiterals(src, sOff, runLen, dest, dOff, src[sOff..sOff + runLen]);
    r := Ok(next);
  }

  /** The token of the final run: the literal length in the high nibble, or
      RUN_MASK when the length needs an extension; no match field. */
  method LastLiteralsToken(runLen: int) returns (token: bv8)
    requires 0 <= runLen
    ensures token == TokenByte(Nibble(runLen), 0)
  {
    if runLen >= RUN_MASK {
      token := TokenByte(RUN_MASK, 0);
    } else {
      token := TokenByte(runLen, 0);
    }
  }

  /** lastLiterals once its check has passed: the token, the extension and
      the literals, in that order. */
  method WriteLastLiterals(src: array<bv8>, sOff: int, runLen: int, dest: array<bv8>, dOff: int, ghost lits: seq<bv8>)
    returns (next: int)
    requires src != dest
    requires 0 <= runLen && 0 <= sOff && sOff + runLen <= src.Length && lits == src[sOff..sOff + runLen]
    requires 0 <= dOff && dOff + 1 + |ExtBytes(runLen)| + runLen <= dest.Length
    modifies dest
    ensures next == dOff + 1 + |ExtBytes(runLen)| + runLen
    ensures dest[..] == Overwrite(old(dest[..]), dOff, LastLiteralsBytes(lits))
  {
    ghost var s := dest[..];
    var token := LastLiteralsToken(runLen);
    LastLiteralsLayout(lits, token);
    UpdateIsOverwrite(s, dOff, token);
    dest[dOff] := token;
    var d := WriteExt(runLen, dest, dOff + 1);
    OverwriteAdjacent(s, dOff, [token], ExtBytes(runLen), dOff + 1);
    SafeArraycopy(src, sOff, dest, d, runLen);
    OverwriteAdjacent(s, dOff, [token] + ExtBytes(runLen), lits, d);
    next := d + runLen;
  }

  // ---------------------------------------------------------------------
  // encodeSequence

  /** encodeSequence's first capacity check, made before anything is
      written: the token, the literals, the distance and LAST_LITERALS bytes
      plus runLen >>> 8 for the extension. */
  function LiteralsCheck(dOff: int, runLen: nat): (c: int)
    ensures c <= dOff + 1 + runLen + (2 + 1 + LAST_LITERALS) + |ExtBytes(runLen)|
  {
    ExtAllowanceBelowCount(runLen);
    dOff + 1 + runLen + (2 + 1 + LAST_LITERALS) + runLen / 256
  }

  /** The offset just past the distance bytes: where the match-length field
      starts. */
  function MatchFieldOffset(dOff: int, runLen: nat): int
  {
    dOff + 1 + |ExtBytes(runLen)| + runLen + 2
  }

  /** encodeSequence's second capacity check, made once the literals and
      the distance are written: the match-length token room, LAST_LITERALS
      bytes and matchLen >>> 8 for the extension (matchLen already less
      MIN_MATCH). */
  function MatchCheck(d: int, ml: nat): (c: int)
    ensures c <= d + (1 + LAST_LITERALS) + |ExtBytes(ml)|
  {
    ExtAllowanceBelowCount(ml);
    d + (1 + LAST_LITERALS) + ml / 256
  }

  /** The `>>> 8` allowance never exceeds the extension bytes a length
      really takes, so neither check refuses a sequence that fits. */
  lemma ExtAllowanceBelowCount(n: nat)
    ensures n / 256 <= |ExtBytes(n)|
  {
    ExtBytesCount(n);
    var q := n / 256;
    assert 255 * q <= n + 240;
  }

  /** The literal-length extension at `p` followed by the wild copy of the
      literals just after it is the wild copy's spill with the extension
      and the literals over it. */
  lemma RunLayout(s: seq<bv8>, p: int, e1: seq<bv8>, wild: seq<bv8>, lits: seq<bv8>)
    requires 0 <= p && |lits| <= |wild| && lits == wild[..|lits|]
    requires p + |e1| + |wild| <= |s|
    ensures Overwrite(Overwrite(s, p, e1), p + |e1|, wild)
         == Overwrite(Overwrite(s, p + |e1|, wild), p, e1 + lits)
  {
    var L := p + |e1|;
    var s1 := Overwrite(s, p, e1);
    var w := Overwrite(s, L, wild);
    forall k | 0 <= k < |s|
      ensures Overwrite(s1, L, wild)[k] == Overwrite(w, p, e1 + lits)[k]
    {
      OverwriteAt(s, p, e1, k);
      OverwriteAt(s1, L, wild, k);
      OverwriteAt(s, L, wild, k);
      OverwriteAt(w, p, e1 + lits, k);
    }
  }

  /** dest.put(at, lo); dest.put(at + 1, hi) just after `written`: the
      buffer then holds written + DistanceBytes(dist). */
  method PutDistance(dest: array<bv8>, at: int, dist: int, ghost s: seq<bv8>, ghost start: int, ghost written: seq<bv8>)
    requires 0 <= dist <= MAX_DISTANCE
    requires 0 <= start && at == start + |written| && at + 2 <= dest.Length == |s|
    requires dest[..] == Overwrite(s, start, written)
    modifies dest
    ensures dest[..] == Overwrite(s, start, written + DistanceBytes(dist))
  {
    PutNext(dest, at, ByteOf(dist % 256), s, start, written);
    PutNext(dest, at + 1, ByteOf(dist / 256), s, start, written + [ByteOf(dist % 256)]);
    assert written + [ByteOf(dist % 256)] + [ByteOf(dist / 256)] == written + DistanceBytes(dist);
  }

  /** The buffer encodeSequence leaves when its second check fails, `s`
      being the buffer before the call: the wild copy's bytes `wild` after
      the literal-length extension, and over them, from dOff + 1, the
      extension, the literals and the distance. */
  function LiteralsState(s: seq<bv8>, dOff: int, wild: seq<bv8>, lits: seq<bv8>, dist: int): (t: seq<bv8>)
    requires 0 <= dOff && 0 <= dist <= MAX_DISTANCE
    requires dOff + 1 + |ExtBytes(|lits|)| + |wild| <= |s|
    requires dOff + 1 + |ExtBytes(|lits|)| + |lits| + 2 <= |s|
    ensures |t| == |s|
  {
    Overwrite(Overwrite(s, dOff + 1 + |ExtBytes(|lits|)|, wild), dOff + 1, ExtBytes(|lits|) + lits + DistanceBytes(dist))
  }

  /** The buffer encodeSequence leaves when it succeeds: the same spill of
      the wild copy, and over it the whole sequence from dOff. */
  function SequenceState(s: seq<bv8>, dOff: int, wild: seq<bv8>, lits: seq<bv8>, dist: int, matchLen: int): (t: seq<bv8>)
    requires 0 <= dOff && 0 <= dist <= MAX_DISTANCE && MIN_MATCH <= matchLen
    requires dOff + 1 + |ExtBytes(|lits|)| + |wild| <= |s|
    requires MatchFieldOffset(dOff, |lits|) + |ExtBytes(matchLen - MIN_MATCH)| <= |s|
    ensures |t| == |s|
  {
    SequenceBytesLength(lits, dist, matchLen, dOff);
    Overwrite(Overwrite(s, dOff + 1 + |ExtBytes(|lits|)|, wild), dOff, SequenceBytes(lits, dist, matchLen))
  }

  /** The part of encodeSequence between its two checks: the literal-length
      extension at dOff + 1, the literals copied eight bytes at a time after
      it and the two offset bytes just past the literals. `s` is the buffer
      before, `wild` the source bytes the wild copy reads and `lits` the
      literals themselves. */
  method WriteLiteralsAndDistance(src: array<bv8>, anchor: int, runLen: int, dist: int,
                                  dest: array<bv8>, dOff: int,
                                  ghost s: seq<bv8>, ghost wild: seq<bv8>, ghost lits: seq<bv8>)
    returns (d: int)
    requires src != dest
    requires 0 <= anchor && 0 <= runLen && anchor + WildLength(runLen) <= src.Length
    requires 0 < dist <= MAX_DISTANCE
    requires 0 <= dOff && dOff + 1 + |ExtBytes(runLen)| + WildLength(runLen) <= dest.Length
    requires MatchFieldOffset(dOff, runLen) <= dest.Length
    requires s == dest[..] && wild == src[anchor..anchor + WildLength(runLen)]
    requires lits == src[anchor..anchor + runLen] && |lits| == runLen
    modifies dest
    ensures d == MatchFieldOffset(dOff, runLen)
    ensures dest[..] == LiteralsState(s, dOff, wild, lits, dist)
  {
    ghost var e1 := ExtBytes(|lits|);
    assert lits == wild[..runLen];
    d := WriteRun(src, anchor, runLen, dest, dOff, s, wild);
    RunLayout(s, dOff + 1, e1, wild, lits);
    PutDistance(dest, d, dist, Overwrite(s, dOff + 1 + |e1|, wild), dOff + 1, e1 + lits);
    d := d + 2;
  }

  /** The literal-length extension at dOff + 1 and the wild literal copy
      after it. */
  method WriteRun(src: array<bv8>, anchor: int, runLen: int, dest: array<bv8>, dOff: int,
                  ghost s: seq<bv8>, ghost wild: seq<bv8>) returns (d: int)
    requires src != dest
    requires 0 <= anchor && 0 <= runLen && anchor + WildLength(runLen) <= src.Length
    requires 0 <= dOff && dOff + 1 + |ExtBytes(runLen)| + WildLength(runLen) <= dest.Length
    requires s == dest[..] && wild == src[anchor..anchor + WildLength(runLen)]
    modifies dest
    ensures d == dOff + 1 + |ExtBytes(runLen)| + runLen
    ensures dest[..] == Overwrite(Overwrite(s, dOff + 1, ExtBytes(runLen)), dOff + 1 + |ExtBytes(runLen)|, wild)
  {
    d := WriteExt(runLen, dest, dOff + 1);
    WildArraycopy(src, anchor, dest, d, runLen);
    d := d + runLen;
  }

  /** The match-length extension at `at`, just after `body`, then the token
      in front of `body`. */
  method WriteMatchAndToken(dest: array<bv8>, tokenOff: int, token: bv8, at: int, ml: int,
                            ghost s: seq<bv8>, ghost body: seq<bv8>) returns (d: int)
    requires 0 <= ml && 0 <= tokenOff && at == tokenOff + 1 + |body|
    requires tokenOff + 1 + |body| + |ExtBytes(ml)| <= dest.Length == |s|
    requires dest[..] == Overwrite(s, tokenOff + 1, body)
    modifies dest
    ensures d == tokenOff + |[token] + body + ExtBytes(ml)|
    ensures dest[..] == Overwrite(s, tokenOff, [token] + body + ExtBytes(ml))
  {
    d := WriteExt(ml, dest, at);
    OverwriteAdjacent(s, tokenOff + 1, body, ExtBytes(ml), at);
    OverwritePrepend(s, tokenOff, token, body + ExtBytes(ml), dest[..]);
    dest[tokenOff] := token;
    assert [token] + (body + ExtBytes(ml)) == [token] + body + ExtBytes(ml);
  }

  /** The part of encodeSequence after its second check, dest holding
      LiteralsState: the match-length extension at `at`, then the token with
      both its nibbles, which completes the sequence. */
  method WriteMatch(dest: array<bv8>, tokenOff: int, hi: int, at: int, matchLen: int,
                    ghost s: seq<bv8>, ghost wild: seq<bv8>, ghost lits: seq<bv8>, ghost dist: int)
    returns (d: int)
    requires 0 <= tokenOff && 0 <= dist <= MAX_DISTANCE && MIN_MATCH <= matchLen
    requires hi == Nibble(|lits|) && at == MatchFieldOffset(tokenOff, |lits|)
    requires tokenOff + 1 + |ExtBytes(|lits|)| + |wild| <= dest.Length == |s|
    requires at + |ExtBytes(matchLen - MIN_MATCH)| <= dest.Length
    requires dest[..] == LiteralsState(s, tokenOff, wild, lits, dist)
    modifies dest
    ensures d == tokenOff + |SequenceBytes(lits, dist, matchLen)|
    ensures dest[..] == SequenceState(s, tokenOff, wild, lits, dist, matchLen)
  {
    // the source writes writeLen(matchLen - RUN_MASK) here; RUN_MASK == ML_MASK
    d := WriteMatchAndToken(dest, tokenOff, TokenByte(hi, Nibble(matchLen - MIN_MATCH)), at, matchLen - MIN_MATCH,
                            Overwrite(s, tokenOff + 1 + |ExtBytes(|lits|)|, wild),
                            ExtBytes(|lits|) + lits + DistanceBytes(dist));
    SequenceBytesParts(lits, dist, matchLen, hi);
  }

  /** encodeSequence from its second check on; `matchExt` is the check's
      allowance for the match-length extension bytes. */
  method FinishSequence(dest: array<bv8>, tokenOff: int, hi: int, at: int, matchLen: int, matchExt: int,
                        destEnd: int, ghost s: seq<bv8>, ghost wild: seq<bv8>, ghost lits: seq<bv8>, ghost dist: int)
    returns (r: Outcome)
    requires 0 <= tokenOff && 0 <= dist <= MAX_DISTANCE && MIN_MATCH <= matchLen
    requires hi == Nibble(|lits|) && at == MatchFieldOffset(tokenOff, |lits|)
    requires tokenOff + 1 + |ExtBytes(|lits|)| + |wild| <= dest.Length == |s| && at <= dest.Length
    requires at + (1 + LAST_LITERALS) + matchExt <= destEnd ==> at + |ExtBytes(matchLen - MIN_MATCH)| <= dest.Length
    requires dest[..] == LiteralsState(s, tokenOff, wild, lits, dist)
    modifies dest
    ensures r.DestTooSmall? <==> at + (1 + LAST_LITERALS) + matchExt > destEnd
    ensures r.DestTooSmall? ==> dest[..] == old(dest[..])
    ensures r.Ok? ==> r.next == tokenOff + |SequenceBytes(lits, dist, matchLen)|
    ensures r.Ok? ==> dest[..] == SequenceState(s, tokenOff, wild, lits, dist, matchLen)
  {
    if at + (1 + LAST_LITERALS) + matchExt > destEnd {
      return DestTooSmall;
    }
    var d := WriteMatch(dest, tokenOff, hi, at, matchLen, s, wild, lits, dist);
    r := Ok(d);
  }

  /** encodeSequence, as written: the literal-length extension at dOff + 1,
      the literals by the wild copy (which may write up to seven bytes past
      them), the distance, then the match-length extension and finally the
      token at dOff. It fails when the first check fails, leaving `dest` as
      it was, or when the second does, after the extension, the literals and
      the distance are written. */
  method EncodeSequence(src: array<bv8>, anchor: int, matchOff: int, matchRef: int, matchLen: int,
                        dest: array<bv8>, dOff: int, destEnd: int) returns (r: Outcome)
    requires src != dest
    requires 0 <= anchor <= matchOff
    requires MIN_MATCH <= matchLen && 0 < matchOff - matchRef <= MAX_DISTANCE
    requires 0 <= dOff && destEnd <= dest.Length
    requires LiteralsCheck(dOff, matchOff - anchor) <= destEnd ==>
               anchor + WildLength(matchOff - anchor) <= src.Length
               && dOff + 1 + |ExtBytes(matchOff - anchor)| + WildLength(matchOff - anchor) <= dest.Length
               && MatchFieldOffset(dOff, matchOff - anchor) <= dest.Length
    requires LiteralsCheck(dOff, matchOff - anchor) <= destEnd
             && MatchCheck(MatchFieldOffset(dOff, matchOff - anchor), matchLen - MIN_MATCH) <= destEnd ==>
               MatchFieldOffset(dOff, matchOff - anchor) + |ExtBytes(matchLen - MIN_MATCH)| <= dest.Length
    requires LiteralsCheck(dOff, matchOff - anchor) <= INT_MAX
    requires MatchCheck(MatchFieldOffset(dOff, matchOff - anchor), matchLen - MIN_MATCH) <= INT_MAX
    modifies dest
    ensures r.DestTooSmall? <==>
              LiteralsCheck(dOff, matchOff - anchor) > destEnd
              || MatchCheck(MatchFieldOffset(dOff, matchOff - anchor), matchLen - MIN_MATCH) > destEnd
    ensures LiteralsCheck(dOff, matchOff - anchor) > destEnd ==> dest[..] == old(dest[..])
    ensures LiteralsCheck(dOff, matchOff - anchor) <= destEnd && r.DestTooSmall? ==>
              dest[..] == LiteralsState(old(dest[..]), dOff, old(src[anchor..anchor + WildLength(matchOff - anchor)]),
                                        old(src[anchor..matchOff]), matchOff - matchRef)
    ensures r.Ok? ==> r.next == dOff + |SequenceBytes(old(src[anchor..matchOff]), matchOff - matchRef, matchLen)|
    ensures r.Ok? ==>
              dest[..] == SequenceState(old(dest[..]), dOff, old(src[anchor..anchor + WildLength(matchOff - anchor)]),
                                        old(src[anchor..matchOff]), matchOff - matchRef, matchLen)
  {
    if LiteralsCheck(dOff, matchOff - anchor) > destEnd {
      return DestTooSmall;
    }
    ghost var s := dest[..];
    ghost var lits := src[anchor..matchOff];
    ghost var wild := src[anchor..anchor + WildLength(matchOff - anchor)];
    // the second check allows (matchLen - MIN_MATCH) >>> 8 extension bytes
    r := EncodeChecked(src, anchor, matchOff - anchor, matchOff - matchRef, matchLen, (matchLen - MIN_MATCH) / 256,
                       dest, dOff, destEnd, s, wild, lits);
  }

  /** encodeSequence once its first check has passed: the token nibble for
      the literal length, the literal-length extension, the literals and the
      distance, then the second check (allowing `matchExt` extension bytes)
      and the rest. `s` is the buffer
      before, `wild` the bytes the wild copy reads and `lits` the literals. */
  method EncodeChecked(src: array<bv8>, anchor: int, runLen: int, dist: int, matchLen: int, matchExt: int,
                       dest: array<bv8>, dOff: int, destEnd: int,
                       ghost s: seq<bv8>, ghost wild: seq<bv8>, ghost lits: seq<bv8>) returns (r: Outcome)
    requires src != dest
    requires 0 <= anchor && 0 <= runLen && anchor + WildLength(runLen) <= src.Length
    requires MIN_MATCH <= matchLen && 0 < dist <= MAX_DISTANCE
    requires 0 <= dOff && dOff + 1 + |ExtBytes(runLen)| + WildLength(runLen) <= dest.Length
    requires MatchFieldOffset(dOff, runLen) <= dest.Length
    requires MatchFieldOffset(dOff, runLen) + (1 + LAST_LITERALS) + matchExt <= destEnd ==>
               MatchFieldOffset(dOff, runLen) + |ExtBytes(matchLen - MIN_MATCH)| <= dest.Length
    requires s == dest[..] && wild == src[anchor..anchor + WildLength(runLen)]
    requires lits == src[anchor..anchor + runLen] && |lits| == runLen
    modifies dest
    ensures r.DestTooSmall? <==> MatchFieldOffset(dOff, runLen) + (1 + LAST_LITERALS) + matchExt > destEnd
    ensures r.DestTooSmall? ==> dest[..] == LiteralsState(s, dOff, wild, lits, dist)
    ensures r.Ok? ==> r.next == dOff + |SequenceBytes(lits, dist, matchLen)|
    ensures r.Ok? ==> dest[..] == SequenceState(s, dOff, wild, lits, dist, matchLen)
  {
    var hi := Nibble(runLen);
    var d := WriteLiteralsAndDistance(src, anchor, runLen, dist, dest, dOff, s, wild, lits);
    r := FinishSequence(dest, dOff, hi, d, matchLen, matchExt, destEnd, s, wild, lits, dist);
  }
}
