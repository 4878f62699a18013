/** The match record the compressor fills while it searches: where the
    match starts in the input, where the earlier occurrence it repeats
    starts, and its length; and copyTo, which copies one record into
    another. */
module Matches {

  /** A match found at `start` that repeats the bytes at `ref`, `len` bytes
      long. Created zeroed, as Java's implicit constructor leaves it. */
  class Match {
    var start: int
    var ref: int
    var len: int

    constructor ()
      ensures start == 0 && ref == 0 && len == 0
    {
      start, ref, len := 0, 0, 0;
    }

    /** The offset just past the match. */
    function End(): int
      reads this
    {
      start + len
    }

    /** The distance back to the earlier occurrence; fix keeps it. */
    function Distance(): int
      reads this
    {
      start - ref
    }

    /** fix(correction): moves the start of the match, and with it the
        reference, by `correction` and shortens the match by as much, so
        the match still ends where it did and still refers back by the same
        distance. */
    method Fix(correction: int)
      modifies this
      ensures start == old(start) + correction
      ensures ref == old(ref) + correction
      ensures len == old(len) - correction
      ensures End() == old(End())
      ensures Distance() == old(Distance())
    {
      start := start + correction;
      ref := ref + correction;
      len := len - correction;
    }
  }

  /** copyTo(m1, m2): m2 takes m1's start, reference and length; m1 keeps
      them (also when both are the same record). */
  method CopyTo(m1: Match, m2: Match)
    modifies m2
    ensures m2.start == old(m1.start) && m2.ref == old(m1.ref) && m2.len == old(m1.len)
    ensures m1.start == old(m1.start) && m1.ref == old(m1.ref) && m1.len == old(m1.len)
    ensures m2.End() == old(m1.End()) && m2.Distance() == old(m1.Distance())
  {
    m2.len := m1.len;
    m2.start := m1.start;
    m2.ref := m1.ref;
  }

  /** Two corrections in a row are one correction by their sum. */
  method FixTwice(m: Match, a: int, b: int)
    modifies m
    ensures m.start == old(m.start) + (a + b)
    ensures m.ref == old(m.ref) + (a + b)
    ensures m.len == old(m.len) - (a + b)
  {
    m.Fix(a);
    m.Fix(b);
  }

  /** The record {start 10, ref 2, len 9} fixed by 3 is {13, 5, 6}: it
      still ends at 19 and still refers back 8 bytes. */
  method FixExample() returns (start: int, ref: int, len: int, end: int)
    ensures start == 13 && ref == 5 && len == 6 && end == 19
  {
    var m := new Match();
    m.start, m.ref, m.len := 10, 2, 9;
    m.Fix(3);
    start, ref, len, end := m.start, m.ref, m.len, m.End();
  }
}
