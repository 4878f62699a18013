/** What the two writers leave in `dest`, read back; how far encodeSequence's
    capacity checks let it write; and encodeSequence with checks that count
    the extension bytes exactly. */
module EncoderBounds {
  import opened Lz4Constants
  import opened CopyEngine
  import opened LengthCodec
  import opened SequenceEncoder

  // ---------------------------------------------------------------------
  // The buffers the writers leave

  /** After a successful encodeSequence the bytes before dOff are as they
      were. */
  lemma SequenceStatePrefix(s: seq<bv8>, dOff: int, wild: seq<bv8>, lits: seq<bv8>, dist: int, matchLen: int)
    requires 0 <= dOff && 0 <= dist <= MAX_DISTANCE && MIN_MATCH <= matchLen
    requires dOff + 1 + |ExtBytes(|lits|)| + |wild| <= |s|
    requires MatchFieldOffset(dOff, |lits|) + |ExtBytes(matchLen - MIN_MATCH)| <= |s|
    ensures SequenceState(s, dOff, wild, lits, dist, matchLen)[..dOff] == s[..dOff]
  {
    var at := dOff + 1 + |ExtBytes(|lits|)|;
    SequenceBytesLength(lits, dist, matchLen, dOff);
    OverwritePrefix(s, at, wild, dOff);
    OverwritePrefix(Overwrite(s, at, wild), dOff, SequenceBytes(lits, dist, matchLen), dOff);
  }

  /** After a successful encodeSequence the bytes from dOff on read back as
      the sequence, whatever the wild copy left after it. */
  lemma SequenceStateDecodes(s: seq<bv8>, dOff: int, wild: seq<bv8>, lits: seq<bv8>, dist: int, matchLen: int)
    requires 0 <= dOff && 0 < dist <= MAX_DISTANCE && MIN_MATCH <= matchLen
    requires dOff + 1 + |ExtBytes(|lits|)| + |wild| <= |s|
    requires MatchFieldOffset(dOff, |lits|) + |ExtBytes(matchLen - MIN_MATCH)| <= |s|
    ensures DecodeSequence(SequenceState(s, dOff, wild, lits, dist, matchLen)[dOff..])
         == Some((Sequence(lits, dist, matchLen), |SequenceBytes(lits, dist, matchLen)|))
  {
    var spill := Overwrite(s, dOff + 1 + |ExtBytes(|lits|)|, wild);
    var b := SequenceBytes(lits, dist, matchLen);
    SequenceBytesLength(lits, dist, matchLen, dOff);
    OverwriteSlices(spill, dOff, b);
    SequenceRoundTrip(lits, dist, matchLen, spill[dOff + |b|..]);
  }

  /** When the second check of encodeSequence fails, the literals and the
      distance are in place but the token byte at dOff, like everything
      before it, is as it was. */
  lemma LiteralsStateKeepsToken(s: seq<bv8>, dOff: int, wild: seq<bv8>, lits: seq<bv8>, dist: int)
    requires 0 <= dOff && 0 <= dist <= MAX_DISTANCE
    requires dOff + 1 + |ExtBytes(|lits|)| + |wild| <= |s|
    requires dOff + 1 + |ExtBytes(|lits|)| + |lits| + 2 <= |s|
    ensures LiteralsState(s, dOff, wild, lits, dist)[..dOff + 1] == s[..dOff + 1]
    ensures LiteralsState(s, dOff, wild, lits, dist)[dOff + 1..MatchFieldOffset(dOff, |lits|)]
         == ExtBytes(|lits|) + lits + DistanceBytes(dist)
  {
    var at := dOff + 1 + |ExtBytes(|lits|)|;
    var spill := Overwrite(s, at, wild);
    var body := ExtBytes(|lits|) + lits + DistanceBytes(dist);
    OverwriteSlices(s, at, wild);
    OverwriteSlices(spill, dOff + 1, body);
    assert spill[..dOff + 1] == spill[..at][..dOff + 1];
    var t := LiteralsState(s, dOff, wild, lits, dist);
    assert t[dOff + 1..MatchFieldOffset(dOff, |lits|)] == t[dOff + 1..][..|body|];
  }

  /** After a successful lastLiterals the bytes before dOff and after the
      written run are as they were, and the run reads back as the
      literals. */
  lemma LastLiteralsReads(s: seq<bv8>, dOff: int, lits: seq<bv8>)
    requires 0 <= dOff && dOff + |LastLiteralsBytes(lits)| <= |s|
    ensures Overwrite(s, dOff, LastLiteralsBytes(lits))[..dOff] == s[..dOff]
    ensures Overwrite(s, dOff, LastLiteralsBytes(lits))[dOff + |LastLiteralsBytes(lits)|..]
         == s[dOff + |LastLiteralsBytes(lits)|..]
    ensures DecodeLastLiterals(Overwrite(s, dOff, LastLiteralsBytes(lits))[dOff..])
         == Some((lits, |LastLiteralsBytes(lits)|))
  {
    var b := LastLiteralsBytes(lits);
    var t := Overwrite(s, dOff, b);
    OverwriteSlices(s, dOff, b);
    assert t[dOff + |b|..] == t[dOff..][|b|..];
    LastLiteralsRoundTrip(lits, s[dOff + |b|..]);
  }

  // ---------------------------------------------------------------------
  // How far the writes reach

  /** Nothing the first stage of encodeSequence writes (the extension, the
      wild copy and the distance) reaches past dOff + 1 + ext + runLen + 7. */
  lemma LiteralsStateBeyond(s: seq<bv8>, dOff: int, wild: seq<bv8>, lits: seq<bv8>, dist: int, bound: int)
    requires 0 <= dOff && 0 <= dist <= MAX_DISTANCE
    requires dOff + 1 + |ExtBytes(|lits|)| + |wild| <= |s|
    requires dOff + 1 + |ExtBytes(|lits|)| + |lits| + 2 <= |s|
    requires |wild| < |lits| + 8
    requires dOff + 1 + |ExtBytes(|lits|)| + |lits| + 7 <= bound
    ensures forall k :: bound <= k < |s| ==> LiteralsState(s, dOff, wild, lits, dist)[k] == s[k]
  {
    var at := dOff + 1 + |ExtBytes(|lits|)|;
    var body := ExtBytes(|lits|) + lits + DistanceBytes(dist);
    forall k | bound <= k < |s|
      ensures LiteralsState(s, dOff, wild, lits, dist)[k] == s[k]
    {
      OverwriteAt(s, at, wild, k);
      OverwriteAt(Overwrite(s, at, wild), dOff + 1, body, k);
    }
  }

  /** Nothing a successful encodeSequence writes reaches past both the
      wild copy and the end of the sequence. */
  lemma SequenceStateBeyond(s: seq<bv8>, dOff: int, wild: seq<bv8>, lits: seq<bv8>, dist: int, matchLen: int,
                            bound: int)
    requires 0 <= dOff && 0 <= dist <= MAX_DISTANCE && MIN_MATCH <= matchLen
    requires dOff + 1 + |ExtBytes(|lits|)| + |wild| <= |s|
    requires MatchFieldOffset(dOff, |lits|) + |ExtBytes(matchLen - MIN_MATCH)| <= |s|
    requires |wild| < |lits| + 8
    requires dOff + 1 + |ExtBytes(|lits|)| + |lits| + 7 <= bound
    requires MatchFieldOffset(dOff, |lits|) + |ExtBytes(matchLen - MIN_MATCH)| <= bound
    ensures forall k :: bound <= k < |s| ==> SequenceState(s, dOff, wild, lits, dist, matchLen)[k] == s[k]
  {
    var at := dOff + 1 + |ExtBytes(|lits|)|;
    SequenceBytesLength(lits, dist, matchLen, dOff);
    forall k | bound <= k < |s|
      ensures SequenceState(s, dOff, wild, lits, dist, matchLen)[k] == s[k]
    {
      OverwriteAt(s, at, wild, k);
      OverwriteAt(Overwrite(s, at, wild), dOff, SequenceBytes(lits, dist, matchLen), k);
    }
  }

  /** encodeSequence's checks count runLen >>> 8 and (matchLen - 4) >>> 8
      extension bytes where writeLen writes about one in 255: with no
      literals, a match of 400004 bytes and destEnd = 1571, both checks pass
      at dOff = 0, yet the sequence ends at 1572, past destEnd. */
  lemma EncodeSequenceOverrun()
    ensures LiteralsCheck(0, 0) <= 1571
    ensures MatchCheck(MatchFieldOffset(0, 0), 400004 - MIN_MATCH) <= 1571
    ensures 0 + |SequenceBytes([], 1, 400004)| == 1572
  {
    ExtBytesCount(400000);
    SequenceBytesLength([], 1, 400004, 0);
  }

  // ---------------------------------------------------------------------
  // encodeSequence with exact checks

  /** The first check with the literal-length extension bytes counted
      exactly, as lastLiterals counts them: (runLen + 255 - RUN_MASK) / 255
      is |ExtBytes(runLen)| (ExtBytesCount). */
  function ExactLiteralsCheck(dOff: int, runLen: nat): (c: int)
    ensures c == dOff + 1 + runLen + (2 + 1 + LAST_LITERALS) + |ExtBytes(runLen)|
  {
    ExtBytesCount(runLen);
    dOff + 1 + runLen + (2 + 1 + LAST_LITERALS) + (runLen + 255 - RUN_MASK) / 255
  }

  /** The second check with the match-length extension bytes counted
      exactly. */
  function ExactMatchCheck(d: int, ml: nat): (c: int)
    ensures c == d + (1 + LAST_LITERALS) + |ExtBytes(ml)|
  {
    ExtBytesCount(ml);
    d + (1 + LAST_LITERALS) + (ml + 255 - RUN_MASK) / 255
  }

  /** encodeSequence with both checks counting the extension bytes exactly:
      it fails exactly when a check fails, as before, but whatever happens
      it changes no byte at or past destEnd, and on success it leaves room
      for LAST_LITERALS more bytes after the token of the next sequence.
      The checks alone give the room the writes need in `dest`. */
  method EncodeSequenceExact(src: array<bv8>, anchor: int, matchOff: int, matchRef: int, matchLen: int,
                             dest: array<bv8>, dOff: int, destEnd: int) returns (r: Outcome)
    requires src != dest
    requires 0 <= anchor <= matchOff
    requires ExactLiteralsCheck(dOff, matchOff - anchor) <= destEnd ==>
               anchor + WildLength(matchOff - anchor) <= src.Length
    requires MIN_MATCH <= matchLen && 0 < matchOff - matchRef <= MAX_DISTANCE
    requires 0 <= dOff && destEnd <= dest.Length
    requires ExactLiteralsCheck(dOff, matchOff - anchor) <= INT_MAX
    requires ExactMatchCheck(MatchFieldOffset(dOff, matchOff - anchor), matchLen - MIN_MATCH) <= INT_MAX
    modifies dest
    ensures r.DestTooSmall? <==>
              ExactLiteralsCheck(dOff, matchOff - anchor) > destEnd
              || ExactMatchCheck(MatchFieldOffset(dOff, matchOff - anchor), matchLen - MIN_MATCH) > destEnd
    ensures ExactLiteralsCheck(dOff, matchOff - anchor) > destEnd ==> dest[..] == old(dest[..])
    ensures ExactLiteralsCheck(dOff, matchOff - anchor) <= destEnd && r.DestTooSmall? ==>
              dest[..] == LiteralsState(old(dest[..]), dOff, old(src[anchor..anchor + WildLength(matchOff - anchor)]),
                                        old(src[anchor..matchOff]), matchOff - matchRef)
    ensures r.Ok? ==> r.next == dOff + |SequenceBytes(old(src[anchor..matchOff]), matchOff - matchRef, matchLen)|
    ensures r.Ok? ==> r.next + 1 + LAST_LITERALS <= destEnd
    ensures r.Ok? ==>
              dest[..] == SequenceState(old(dest[..]), dOff, old(src[anchor..anchor + WildLength(matchOff - anchor)]),
                                        old(src[anchor..matchOff]), matchOff - matchRef, matchLen)
    ensures forall k :: 0 <= k < dest.Length && destEnd <= k ==> dest[k] == old(dest[k])
  {
    if ExactLiteralsCheck(dOff, matchOff - anchor) > destEnd {
      return DestTooSmall;
    }
    ghost var s := dest[..];
    ghost var lits := src[anchor..matchOff];
    ghost var wild := src[anchor..anchor + WildLength(matchOff - anchor)];
    r := ExactChecked(src, anchor, matchOff - anchor, matchOff - matchRef, matchLen, dest, dOff, destEnd, s, wild, lits);
  }

  /** EncodeSequenceExact once its first check has passed: the second check
      with the match-length extension bytes counted exactly, then the
      writes, none of which reaches destEnd. */
  method ExactChecked(src: array<bv8>, anchor: int, runLen: int, dist: int, matchLen: int,
                      dest: array<bv8>, dOff: int, destEnd: int,
                      ghost s: seq<bv8>, ghost wild: seq<bv8>, ghost lits: seq<bv8>) returns (r: Outcome)
    requires src != dest
    requires 0 <= anchor && 0 <= runLen && anchor + WildLength(runLen) <= src.Length
    requires MIN_MATCH <= matchLen && 0 < dist <= MAX_DISTANCE
    requires 0 <= dOff && destEnd <= dest.Length
    requires ExactLiteralsCheck(dOff, runLen) <= destEnd
    requires s == dest[..] && wild == src[anchor..anchor + WildLength(runLen)]
    requires lits == src[anchor..anchor + runLen] && |lits| == runLen
    modifies dest
    ensures r.DestTooSmall? <==> ExactMatchCheck(MatchFieldOffset(dOff, runLen), matchLen - MIN_MATCH) > destEnd
    ensures r.DestTooSmall? ==> dest[..] == LiteralsState(s, dOff, wild, lits, dist)
    ensures r.Ok? ==> r.next == dOff + |SequenceBytes(lits, dist, matchLen)|
    ensures r.Ok? ==> r.next + 1 + LAST_LITERALS <= destEnd
    ensures r.Ok? ==> dest[..] == SequenceState(s, dOff, wild, lits, dist, matchLen)
    ensures forall k :: 0 <= k < dest.Length && destEnd <= k ==> dest[k] == s[k]
  {
    ExtBytesCount(runLen);
    ExtBytesCount(matchLen - MIN_MATCH);
    r := EncodeChecked(src, anchor, runLen, dist, matchLen, (matchLen - MIN_MATCH + 255 - RUN_MASK) / 255,
                       dest, dOff, destEnd, s, wild, lits);
    if r.Ok? {
      SequenceBytesLength(lits, dist, matchLen, dOff);
      SequenceStateBeyond(s, dOff, wild, lits, dist, matchLen, destEnd);
    } else {
      LiteralsStateBeyond(s, dOff, wild, lits, dist, destEnd);
    }
  }
}
