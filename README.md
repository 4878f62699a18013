# LZ4ByteBufferUtils in Dafny

A model of the byte-level helpers that lz4-java's block compressor uses on
`java.nio.ByteBuffer`s (`net.jpountz.lz4.LZ4ByteBufferUtils`), with proofs of
what each promises.

- **Match finding.** `readIntEquals` is the 4-byte equality gate that confirms
  a hash candidate. `commonBytes` extends a match forwards, eight bytes at a
  time, then byte by byte. `commonBytesBackward` extends it backwards.
- **Copies.** The two overlapping copies, `safeIncrementalCopy` and
  `wildIncrementalCopy`, and the two plain ones, `safeArraycopy` and
  `wildArraycopy`.
- **Encoding.** The writers of the LZ4 block format: `writeLen` writes the
  255-based length extension, `encodeSequence` writes a full token, literals,
  distance and match-length sequence with its two capacity checks, and
  `lastLiterals` writes the final literal-only run.
- **Match records.** `Match` with `fix` and `end`, and `copyTo`.

Buffers are `array<bv8>`. A buffer's configured byte order is an explicit
`ByteOrder` parameter wherever the source reads or writes multi-byte words.
Thrown `LZ4Exception`s become the `DestTooSmall` outcome. The state of a
buffer after a write is given by `CopyEngine.Overwrite(s, at, block)`.

The encoder is checked against an independent decoder: `DecodeSequence` and
`DecodeLastLiterals` in `SequenceEncoder`, and `DecodeLen` in `LengthCodec`. The proofs show
that every sequence written decodes back to the literals, distance and match
length it was given.

Modules, one file each:

| file | module | contents |
|---|---|---|
| `lz4_constants.dfy` | `Lz4Constants` | MIN_MATCH, RUN_MASK (which is also ML_MASK), LAST_LITERALS, the 16-bit distance limit, `Integer.MAX_VALUE` |
| `words.dfy` | `Words` | `getInt`, `getLong` and `putLong` in either byte order; leading and trailing zero counts; the first-differing-byte fact |
| `match_extender.dfy` | `MatchExtender` | readIntEquals, commonBytes, commonBytesBackward |
| `copy_engine.dfy` | `CopyEngine` | the four copies, each stated as a byte-level update of the buffer |
| `length_codec.dfy` | `LengthCodec` | writeLen and the length decoder |
| `sequence_encoder.dfy` | `SequenceEncoder` | the sequence layout, the decoder, lastLiterals and encodeSequence |
| `encoder_bounds.dfy` | `EncoderBounds` | facts about the encoder's output state, the capacity-check overrun, and the corrected encoder |
| `matches.dfy` | `Matches` | class `Match`, `fix`, `end`, `copyTo` |

## Model

All source paths are in `src/java/net/jpountz/lz4/`; the table spells them out.

| member | source | states |
|---|---|---|
| Words.IntOfInjective | src/java/net/jpountz/lz4/LZ4ByteBufferUtils.java:39-41 | Two 4-byte windows read as equal ints, in either byte order, exactly when they hold the same bytes |
| Words.IntBytesOfInt | src/java/net/jpountz/lz4/LZ4ByteBufferUtils.java:40 | Splitting the int read from four bytes, in the same order, gives back those four bytes |
| Words.ReadInt | src/java/net/jpountz/lz4/LZ4ByteBufferUtils.java:40 | getInt(i) is the int whose bytes, most significant first for big-endian and least significant first for little-endian, are the four bytes at `i` |
| Words.LongOfInjective | src/java/net/jpountz/lz4/LZ4ByteBufferUtils.java:60 | Two 8-byte windows read as equal longs, in either byte order, exactly when they hold the same bytes |
| Words.LongBytesOfLong | src/java/net/jpountz/lz4/LZ4ByteBufferUtils.java:51 | `putLong(getLong(...))` in the same byte order stores the eight bytes it read, unchanged |
| Words.ReadLong | src/java/net/jpountz/lz4/LZ4ByteBufferUtils.java:60 | getLong(i) is the long whose bytes, in the buffer's order, are the eight bytes at `i` |
| Words.PutLong | src/java/net/jpountz/lz4/LZ4ByteBufferUtils.java:51 | putLong replaces exactly the eight bytes at `i` with the word's bytes in the buffer's order |
| Words.FirstDifferingByte | src/java/net/jpountz/lz4/LZ4ByteBufferUtils.java:65-71 | For two 8-byte windows that read as different longs, the zero-bit count of the XOR is below 64. Leading zeros are used for big-endian and trailing zeros for little-endian. The count `>>> 3` is the index of the first differing byte, and all earlier bytes agree |
| Words.FirstDifferingByteOf | src/java/net/jpountz/lz4/LZ4ByteBufferUtils.java:65-71 | The same fact for unequal windows, given words already read |
| Words.NumberOfLeadingZeros | src/java/net/jpountz/lz4/LZ4ByteBufferUtils.java:67 | Long.numberOfLeadingZeros is at most 64, is 64 for zero and is 0 when the top bit is set |
| Words.NumberOfTrailingZeros | src/java/net/jpountz/lz4/LZ4ByteBufferUtils.java:69 | Long.numberOfTrailingZeros is at most 64, is 64 for zero and is 0 when the lowest bit is set |
| Words.ZerosOfZero | src/java/net/jpountz/lz4/LZ4ByteBufferUtils.java:67-69 | Counting zero bits of the word 0 from any position reaches 64 |
| MatchExtender.ReadIntEquals | src/java/net/jpountz/lz4/LZ4ByteBufferUtils.java:39-41 | readIntEquals is true exactly when the 4 bytes at `i` and at `j` are equal, in either byte order |
| MatchExtender.CommonPrefix | src/java/net/jpountz/lz4/LZ4ByteBufferUtils.java:57-78 | The reference length of a common prefix. It is at most `srcLimit - sOff`, every byte below it agrees, and the byte at it differs unless it reaches the limit |
| MatchExtender.CommonPrefixUnique | src/java/net/jpountz/lz4/LZ4ByteBufferUtils.java:57-78 | Any length with those three properties is the common-prefix length |
| MatchExtender.CommonPrefixBelowLimit | src/java/net/jpountz/lz4/LZ4ByteBufferUtils.java:57-78 | The common-prefix length depends on no byte of the `sOff` side at or past the limit: buffers that agree below it, and on the `ref` window, give the same length |
| MatchExtender.WordsEqual | src/java/net/jpountz/lz4/LZ4ByteBufferUtils.java:60 | The 8-byte word comparison is true exactly when all eight byte pairs agree |
| MatchExtender.FirstDifferingIndex | src/java/net/jpountz/lz4/LZ4ByteBufferUtils.java:64-71 | On unequal words, `zeroBits >>> 3` is below 8. The bytes before it agree and the byte at it differs |
| MatchExtender.CommonBytes | src/java/net/jpountz/lz4/LZ4ByteBufferUtils.java:57-78 | commonBytes returns the common-prefix length of `src[sOff..srcLimit)` and the bytes at `ref`, in either byte order. The word phase and the byte phase together equal a byte-by-byte count. Every read on the `sOff` side is made through a member that requires it to lie below `srcLimit`, so none reaches the limit |
| MatchExtender.CommonSuffix | src/java/net/jpountz/lz4/LZ4ByteBufferUtils.java:80-86 | The reference backward match count. The `c` bytes before `o1` and `o2` agree, stay above `l1` and `l2`, and the next pair back differs unless a limit is reached |
| MatchExtender.CommonBytesBackward | src/java/net/jpountz/lz4/LZ4ByteBufferUtils.java:80-86 | commonBytesBackward returns that count, with the same three properties |
| CopyEngine.SafeIncrementalCopy | src/java/net/jpountz/lz4/LZ4ByteBufferUtils.java:43-47 | The loop leaves `dest` equal to the byte-by-byte forward copy from `dOff` to `matchOff`. A non-positive length changes nothing |
| CopyEngine.IncrementalCopy | src/java/net/jpountz/lz4/LZ4ByteBufferUtils.java:43-47 | The byte-by-byte forward copy of `n` bytes keeps the buffer's length |
| CopyEngine.IncrementalCopyFrame | src/java/net/jpountz/lz4/LZ4ByteBufferUtils.java:43-47 | The forward copy changes no byte outside `[matchOff, matchOff + matchLen)` |
| CopyEngine.IncrementalCopyPlain | src/java/net/jpountz/lz4/LZ4ByteBufferUtils.java:43-47 | When the ranges do not overlap harmfully, the forward copy places the original source bytes |
| CopyEngine.IncrementalCopyPeriodic | src/java/net/jpountz/lz4/LZ4ByteBufferUtils.java:43-47 | When the target is `d` bytes past the source, the copied range repeats the first `d` source bytes periodically. This is the overlapping-match behaviour |
| CopyEngine.ByteLoopIsBlockCopy | src/java/net/jpountz/lz4/LZ4ByteBufferUtils.java:43-47 | Without harmful overlap, the byte loop is an ordinary block copy of the source slice |
| CopyEngine.StrideCount | src/java/net/jpountz/lz4/LZ4ByteBufferUtils.java:49-55 | The do-while runs at least once. It stops at the first stride `k` with `dOff + 8k >= matchCopyEnd`, and no earlier stride reaches it |
| CopyEngine.StrideCountLeast | src/java/net/jpountz/lz4/LZ4ByteBufferUtils.java:49-55 | That stride count is the least such `k`, and it is unique |
| CopyEngine.WildCopy | src/java/net/jpountz/lz4/LZ4ByteBufferUtils.java:49-55 | `k` 8-byte strides in order keep the buffer's length |
| CopyEngine.CopyStride | src/java/net/jpountz/lz4/LZ4ByteBufferUtils.java:51 | One `putLong(matchOff, getLong(dOff))` in either byte order is an 8-byte block copy |
| CopyEngine.WildIncrementalCopy | src/java/net/jpountz/lz4/LZ4ByteBufferUtils.java:49-55 | The loop performs exactly StrideCount(dOff, matchCopyEnd) 8-byte strides, in order |
| CopyEngine.WildCopyFrame | src/java/net/jpountz/lz4/LZ4ByteBufferUtils.java:49-55 | The strides change no byte outside `[matchOff, matchOff + 8k)` |
| CopyEngine.WildCopyIsByteLoop | src/java/net/jpountz/lz4/LZ4ByteBufferUtils.java:49-55 | When source and target are at least 8 bytes apart, `k` strides equal the byte loop of safeIncrementalCopy over `8k` bytes |
| CopyEngine.WildCopyShortDistance | src/java/net/jpountz/lz4/LZ4ByteBufferUtils.java:49-55 | With the target 3 bytes past the source over the bytes 0..10, one stride leaves 3 at index 6 where the byte loop leaves 0 |
| CopyEngine.WildIncrementalCopyExpanding | src/java/net/jpountz/lz4/LZ4ByteBufferUtils.java:49-55 | The copy with short distances expanded: for every distance it leaves `dest` equal to the byte loop over `8k` bytes, `k` the stride count |
| CopyEngine.SafeArraycopy | src/java/net/jpountz/lz4/LZ4ByteBufferUtils.java:88-90 | `dest[dOff..dOff+len)` receives `src[sOff..sOff+len)`, and nothing else changes |
| CopyEngine.WildLength | src/java/net/jpountz/lz4/LZ4ByteBufferUtils.java:94 | The loop `i = 0, 8, ...` while `i < len` covers `len` rounded up to a multiple of 8, that is fewer than `len + 8` bytes, and none for `len <= 0` |
| CopyEngine.WildLengthStrides | src/java/net/jpountz/lz4/LZ4ByteBufferUtils.java:94 | Every stride taken fits inside that rounded length, and the loop stops exactly at it |
| CopyEngine.Copy8Bytes | src/java/net/jpountz/lz4/LZ4ByteBufferUtils.java:96 | The commented-out `copy8Bytes` call stores the eight source bytes at `dOff` |
| CopyEngine.WildArraycopy | src/java/net/jpountz/lz4/LZ4ByteBufferUtils.java:92-101 | wildArraycopy with its intended loop body. `dest` from `dOff` receives the first WildLength(len) source bytes: all `len` literals plus at most 7 bytes of spill |
| CopyEngine.WildArraycopyAsWritten | src/java/net/jpountz/lz4/LZ4ByteBufferUtils.java:92-101 | wildArraycopy as written: the loop body is commented out, so `dest` is left unchanged |
| CopyEngine.WildArraycopyAsWrittenDiffers | src/java/net/jpountz/lz4/LZ4ByteBufferUtils.java:95-96 | Whenever one literal differs from the byte it should replace, the unchanged buffer is not the intended copy |
| CopyEngine.WildArraycopyAsWrittenExample | src/java/net/jpountz/lz4/LZ4ByteBufferUtils.java:95-96 | Eight 1-bytes copied over a zeroed buffer: the as-written result differs from the intended one |
| LengthCodec.LenBytesLayout | src/java/net/jpountz/lz4/LZ4ByteBufferUtils.java:165-172 | writeLen's bytes are `len / 255` bytes 0xFF followed by one byte `len % 255` (< 255), so there are `len / 255 + 1` of them |
| LengthCodec.LenBytes | src/java/net/jpountz/lz4/LZ4ByteBufferUtils.java:165-172 | writeLen writes at least one byte |
| LengthCodec.LenBytesStep | src/java/net/jpountz/lz4/LZ4ByteBufferUtils.java:165-172 | While `l >= 255` remains, writing one more 0xFF leaves exactly the bytes for `l - 255` to write, one byte fewer |
| LengthCodec.PutNext | src/java/net/jpountz/lz4/LZ4ByteBufferUtils.java:166-171 | Each `dest[dOff++] = ...` extends the bytes written so far by one, and nothing else changes |
| LengthCodec.DecodeLenBytes | src/java/net/jpountz/lz4/LZ4ByteBufferUtils.java:165-172 | The standard length decoder (add bytes while they are 255) reads back exactly `len`, consuming exactly those bytes, whatever follows |
| LengthCodec.DecodeLenCanonical | src/java/net/jpountz/lz4/LZ4ByteBufferUtils.java:165-172 | Whatever decodes to `v` starts with writeLen's bytes for `v`, so the encoding is the only one |
| LengthCodec.WriteLen | src/java/net/jpountz/lz4/LZ4ByteBufferUtils.java:165-172 | writeLen stores those bytes at `dOff` and returns `dOff + len / 255 + 1`, and nothing else changes |
| SequenceEncoder.Nibble | src/java/net/jpountz/lz4/LZ4ByteBufferUtils.java:112-117 | A token field is below 16. It holds a length below RUN_MASK as itself, and is RUN_MASK exactly when the length overflows |
| SequenceEncoder.TokenByteNibbles | src/java/net/jpountz/lz4/LZ4ByteBufferUtils.java:111-140 | The token byte's high nibble is the literal field and its low nibble is the match field, including the sign-extended `(byte)(RUN_MASK << ML_BITS) \| ML_MASK` case |
| SequenceEncoder.ExtBytesCount | src/java/net/jpountz/lz4/LZ4ByteBufferUtils.java:148 | A length `n` takes `(n + 255 - RUN_MASK) / 255` extension bytes, and none when `n < RUN_MASK` |
| SequenceEncoder.DistanceBytesValue | src/java/net/jpountz/lz4/LZ4ByteBufferUtils.java:124-126 | The two distance bytes are the distance in little-endian order |
| SequenceEncoder.SequenceBytesLength | src/java/net/jpountz/lz4/LZ4ByteBufferUtils.java:103-143 | A sequence ends at the match-field offset plus the match extension bytes |
| SequenceEncoder.SequenceBytesParts | src/java/net/jpountz/lz4/LZ4ByteBufferUtils.java:103-143 | A sequence is the token, then the literal extension, literals and distance, then the match extension |
| SequenceEncoder.LastLiteralsBytes | src/java/net/jpountz/lz4/LZ4ByteBufferUtils.java:145-163 | The final run takes `1 + runLen + (runLen + 255 - RUN_MASK) / 255` bytes, exactly what lastLiterals checks for |
| SequenceEncoder.DecodeLengthOfExt | src/java/net/jpountz/lz4/LZ4ByteBufferUtils.java:112-117 | A token field together with its extension bytes decodes back to the length |
| SequenceEncoder.DecodeLiteralsOf | src/java/net/jpountz/lz4/LZ4ByteBufferUtils.java:111-121 | The token, literal extension and literals decode back to the literal run |
| SequenceEncoder.SequenceDistance | src/java/net/jpountz/lz4/LZ4ByteBufferUtils.java:124-126 | The decoder reads the distance back from the two bytes after the literals |
| SequenceEncoder.SequenceMatchLength | src/java/net/jpountz/lz4/LZ4ByteBufferUtils.java:133-138 | The match length, minus MIN_MATCH, decodes back from the token's low nibble and the bytes after the distance |
| SequenceEncoder.SequenceRoundTrip | src/java/net/jpountz/lz4/LZ4ByteBufferUtils.java:103-143 | Decoding an encoded sequence, with anything after it, gives back the literals, distance and match length, and consumes exactly the sequence |
| SequenceEncoder.LastLiteralsRoundTrip | src/java/net/jpountz/lz4/LZ4ByteBufferUtils.java:145-163 | Decoding a final run gives back its literals and consumes exactly its bytes |
| SequenceEncoder.WriteExt | src/java/net/jpountz/lz4/LZ4ByteBufferUtils.java:152-153 | `writeLen(runLen - RUN_MASK)` after an overflowing field writes exactly the extension bytes |
| SequenceEncoder.LastLiterals | src/java/net/jpountz/lz4/LZ4ByteBufferUtils.java:145-163 | The exception is thrown exactly when the final run does not fit before `destEnd`, and then `dest` is unchanged. Otherwise the run's bytes are at `dOff` and the returned offset is their end, at most `destEnd` |
| SequenceEncoder.WriteLastLiterals | src/java/net/jpountz/lz4/LZ4ByteBufferUtils.java:152-162 | After the check, the token, extension and literals are stored at `dOff`, so `dest` holds the final run's layout, and the offset is its end |
| SequenceEncoder.LastLiteralsLayout | src/java/net/jpountz/lz4/LZ4ByteBufferUtils.java:152-157 | The token lastLiterals picks, RUN_MASK or the length in the high nibble, followed by the extension and the literals, is the final run's layout |
| SequenceEncoder.LastLiteralsToken | src/java/net/jpountz/lz4/LZ4ByteBufferUtils.java:152-157 | The final run's token holds the literal field (the length, or RUN_MASK when it overflows) in the high nibble and an empty match field |
| SequenceEncoder.PutDistance | src/java/net/jpountz/lz4/LZ4ByteBufferUtils.java:124-126 | The two `put`s append the distance bytes |
| SequenceEncoder.WriteRun | src/java/net/jpountz/lz4/LZ4ByteBufferUtils.java:111-121 | The literal extension goes after the token slot, then the wild literal copy, and the offset advances by `runLen` |
| SequenceEncoder.WriteLiteralsAndDistance | src/java/net/jpountz/lz4/LZ4ByteBufferUtils.java:111-126 | After the literals and distance, `dest` is LiteralsState and the offset is the match-field offset |
| SequenceEncoder.WriteMatch | src/java/net/jpountz/lz4/LZ4ByteBufferUtils.java:133-140 | The match extension and the token complete the sequence, so `dest` is SequenceState |
| SequenceEncoder.WriteMatchAndToken | src/java/net/jpountz/lz4/LZ4ByteBufferUtils.java:133-140 | The match extension after the distance and then the token byte at `tokenOff` leave `dest` holding the token, body and extension, and the offset is their end |
| SequenceEncoder.FinishSequence | src/java/net/jpountz/lz4/LZ4ByteBufferUtils.java:129-142 | The second check fails exactly when `d + 1 + LAST_LITERALS + (matchLen >>> 8) > destEnd`, and then nothing more is written. Otherwise the sequence is complete |
| SequenceEncoder.EncodeChecked | src/java/net/jpountz/lz4/LZ4ByteBufferUtils.java:110-143 | encodeSequence after its first check: it fails only at the second check, leaving the partial literal write. On success it writes the whole sequence |
| SequenceEncoder.LiteralsCheck | src/java/net/jpountz/lz4/LZ4ByteBufferUtils.java:107 | The first check as written, with `runLen >>> 8`, never counts more than the literal extension bytes writeLen writes |
| SequenceEncoder.MatchCheck | src/java/net/jpountz/lz4/LZ4ByteBufferUtils.java:130 | The second check as written, with `matchLen >>> 8`, never counts more than the match extension bytes writeLen writes |
| SequenceEncoder.ExtAllowanceBelowCount | src/java/net/jpountz/lz4/LZ4ByteBufferUtils.java:107-130 | `n >>> 8` is at most the number of extension bytes for `n` |
| SequenceEncoder.EncodeSequence | src/java/net/jpountz/lz4/LZ4ByteBufferUtils.java:103-143 | encodeSequence with the checks as written. The outcome fails exactly when one of the two `>>> 8` checks fails. On the first failure `dest` is unchanged. On the second it holds the token extension, literals and distance. On success it holds the full sequence, and the result is its end |
| EncoderBounds.SequenceStatePrefix | src/java/net/jpountz/lz4/LZ4ByteBufferUtils.java:103-143 | encodeSequence leaves every byte below `dOff` unchanged |
| EncoderBounds.SequenceStateDecodes | src/java/net/jpountz/lz4/LZ4ByteBufferUtils.java:103-143 | What encodeSequence leaves at `dOff` decodes to the sequence it was given, even with the wild-copy spill after the literals |
| EncoderBounds.LiteralsStateKeepsToken | src/java/net/jpountz/lz4/LZ4ByteBufferUtils.java:129-132 | After the second check fails, the token byte is still the old one and the bytes after it are the literal extension, literals and distance |
| EncoderBounds.LastLiteralsReads | src/java/net/jpountz/lz4/LZ4ByteBufferUtils.java:145-163 | lastLiterals leaves the bytes before `dOff` and after the run unchanged, and the run decodes back to the literals |
| EncoderBounds.LiteralsStateBeyond | src/java/net/jpountz/lz4/LZ4ByteBufferUtils.java:120-126 | The partial write changes nothing at or beyond 7 bytes past the literals |
| EncoderBounds.SequenceStateBeyond | src/java/net/jpountz/lz4/LZ4ByteBufferUtils.java:103-143 | The full write changes nothing past both the sequence and the literals' 7-byte spill |
| EncoderBounds.EncodeSequenceOverrun | src/java/net/jpountz/lz4/LZ4ByteBufferUtils.java:107-132 | With `dOff = 0`, no literals, `matchLen = 400004` and `destEnd = 1571`, both checks pass, yet the sequence ends at 1572 |
| EncoderBounds.EncodeSequenceExact | src/java/net/jpountz/lz4/LZ4ByteBufferUtils.java:103-143 | encodeSequence with exact checks: it fails exactly when the exact extension-byte counts do not fit. On the first failure `dest` is unchanged, and on the second it holds the partial literal write. On success it holds the full sequence, and the sequence plus the 1 + LAST_LITERALS reserve fit before `destEnd`. In every case nothing at or past `destEnd` changes |
| EncoderBounds.ExactLiteralsCheck | src/java/net/jpountz/lz4/LZ4ByteBufferUtils.java:107 | The corrected first check, `(runLen + 255 - RUN_MASK) / 255`, counts exactly the literal extension bytes that writeLen writes |
| EncoderBounds.ExactMatchCheck | src/java/net/jpountz/lz4/LZ4ByteBufferUtils.java:130 | The corrected second check counts exactly the match extension bytes that writeLen writes |
| EncoderBounds.ExactChecked | src/java/net/jpountz/lz4/LZ4ByteBufferUtils.java:110-143 | The corrected encoder after its first check fails exactly when the exact second check fails. Otherwise it writes the whole sequence with the reserve left over, and no write reaches `destEnd` |
| Matches.Match.constructor | src/java/net/jpountz/lz4/LZ4ByteBufferUtils.java:174-175 | A new record has start, ref and len zero |
| Matches.Match.Fix | src/java/net/jpountz/lz4/LZ4ByteBufferUtils.java:177-185 | fix adds the correction to start and ref and subtracts it from len. `end()` and the distance `start - ref` are unchanged |
| Matches.Match.End | src/java/net/jpountz/lz4/LZ4ByteBufferUtils.java:183-185 | end() is start + len; its value is carried through fix and copyTo by their contracts |
| Matches.FixTwice | src/java/net/jpountz/lz4/LZ4ByteBufferUtils.java:177-181 | Two fixes are one fix by the sum |
| Matches.FixExample | src/java/net/jpountz/lz4/LZ4ByteBufferUtils.java:177-185 | `{10, 2, 9}.fix(3)` is `{13, 5, 6}`, whose end is 19 |
| Matches.CopyTo | src/java/net/jpountz/lz4/LZ4ByteBufferUtils.java:188-192 | copyTo gives `m2` the start, ref and len that `m1` had, leaves `m1` unchanged (aliasing included), and so copies `end()` and the distance |

## Left out

- hash and hash64k (lines 31-37): they only delegate to `LZ4Utils.hash` and `LZ4Utils.hash64k`. `LZ4Utils` is not part of this model.
- `ByteBuffer` machinery (position, limit, read-only buffers, direct and heap backing, `UnsafeUtils.readByte/readLong`): every buffer is an `array<bv8>` indexed absolutely, and the byte order is a parameter.
- Exceptions: `LZ4Exception` from a failed capacity check becomes `Outcome.DestTooSmall`. An out-of-range `get`/`put` is excluded by preconditions rather than modelled as a throw.
- 32-bit arithmetic: every offset and length is an unbounded `int`. encodeSequence and lastLiterals require their checked sums to be at most `Integer.MAX_VALUE`, so that none of the source's `int` sums wraps.
- SequenceEncoder.EncodeSequence: asks for room in `dest` only on the paths where the checks pass: for the literals, their 7-byte spill and the distance once the first check passes, and for the match extension once both pass. The source relies on the `>>> 8` checks for that room, and they do not give it (see Findings). On a failed first check nothing beyond the check's own sum is required. EncoderBounds.EncodeSequenceExact needs no room precondition.
- CopyEngine.WildArraycopy: models the intended body, copy8Bytes at each stride. The `try`/`catch` that turns an out-of-range copy into `LZ4Exception` becomes a precondition that both ranges fit, including up to 7 bytes of spill.
- encodeSequence, lastLiterals and wildArraycopy: callers are assumed to pass distinct buffers (`src != dest`); aliasing between `src` and `dest` is not modelled.
- Match-length extension: the source writes `writeLen(matchLen - RUN_MASK)` after comparing against ML_MASK. The model uses the one constant RUN_MASK for both fields, because RUN_MASK == ML_MASK == 15, and writes the token as `16 * hi + lo`, which is `(hi << ML_BITS) | lo` for ML_BITS == 4.
- Matches.Match.Fix: start, ref and len are unbounded, so the 32-bit wrap-around of `+=` and `-=` is not modelled.
- lastLiterals and writeLen index `dest` with array syntax in this ByteBuffer file. Both are modelled as absolute byte stores.

## Findings

| source | as written | input that shows it | evidently intended | confidence | as-written member | corrected member |
|---|---|---|---|---|---|---|
| src/java/net/jpountz/lz4/LZ4ByteBufferUtils.java:107-132 | Both capacity checks of encodeSequence allow `length >>> 8` bytes for the 255-based length extension, which needs `(length + 255 - 15) / 255` bytes (`length / 255`, rounded) | `dOff = 0`, `runLen = 0`, `matchLen = 400004`, `destEnd = 1571`: both checks pass, yet the sequence ends at 1572, past `destEnd` and into the `1 + LAST_LITERALS` reserve | A sequence that passes the checks fits before `destEnd` with the reserve left over, and nothing at or past `destEnd` is written | not executed | EncoderBounds.EncodeSequenceOverrun, SequenceEncoder.EncodeSequence | EncoderBounds.EncodeSequenceExact |
| src/java/net/jpountz/lz4/LZ4ByteBufferUtils.java:92-101 | The loop body of wildArraycopy, the copy8Bytes call, is commented out, so no literal is copied | Eight literal bytes 1 over a zeroed destination: the destination stays zero | Each stride copies eight bytes, so the literals reach `dest` | not executed | CopyEngine.WildArraycopyAsWritten, CopyEngine.WildArraycopyAsWrittenExample | CopyEngine.WildArraycopy |
| src/java/net/jpountz/lz4/LZ4ByteBufferUtils.java:49-55 | wildIncrementalCopy copies eight bytes per stride with putLong(getLong). When the target is fewer than 8 bytes past the source, a stride reads bytes it has not yet written, so a short repeat is not expanded as the byte loop of safeIncrementalCopy expands it | Bytes 0..10, `dOff = 0`, `matchOff = 3`, `matchCopyEnd = 1`: one stride stores 3 at index 6, where the byte loop stores 0 | The copy equals the byte loop for every distance, or callers never pass a distance below 8 | not executed; depends on whether callers keep the distance at 8 or more | CopyEngine.WildIncrementalCopy, CopyEngine.WildCopyShortDistance | CopyEngine.WildIncrementalCopyExpanding |
