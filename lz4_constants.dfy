/** Constants of the LZ4 block format used by the sequence encoder
    ("Compressed block format" of the LZ4 Block Format Description),
    and the Java int range the offsets live in. */
module Lz4Constants {

  /** Shortest match the format can express; match lengths are stored minus this. */
  const MIN_MATCH: int := 4

  /** Largest value of a 4-bit length field of the token; 15 means
      "extension bytes follow". The literal field (RUN_MASK) and the match
      field (ML_MASK, with ML_BITS = 4) have the same width, so this one
      constant serves both. */
  const RUN_MASK: int := 15

  /** The last bytes of a block that are always emitted as literals. */
  const LAST_LITERALS: int := 5

  /** Largest Java int: every offset and every sum the encoder computes stays at or below it. */
  const INT_MAX: int := 0x7FFF_FFFF

  /** Largest back-reference distance the two-byte offset field holds. */
  const MAX_DISTANCE: int := 0xFFFF
}
