/** The elapsed-time arithmetic at the end of the demo: an unsigned 64-bit
    subtraction of two cycle-counter readings, printed as its high and low
    32-bit halves with `%08X%08X`. */
module Ticks {
  import opened BoundedInts
  import Hex

  /** `timestamp_end -= timestamp_start` on `uint64_t`: subtraction modulo
      2^64. It is the one 64-bit value that, added to the start reading with
      wrap-around, gives the end reading. */
  function Sub64(end: u64, start: u64): (d: u64)
    ensures (start + d) % TWO_64 == end
  {
    (end - start) % TWO_64
  }

  /** The difference is the plain one when the counter did not wrap, and
      exceeds it by 2^64 when the end reading is below the start reading;
      the second case is not treated specially. */
  lemma Sub64Cases(end: u64, start: u64)
    ensures end >= start ==> Sub64(end, start) == end - start
    ensures end < start ==> Sub64(end, start) == end - start + TWO_64
  {
  }

  /** `(uint32_t)(x >> 32)`. */
  function High32(x: u64): (hi: u32)
    ensures hi * TWO_32 <= x < (hi + 1) * TWO_32
  {
    Trunc32(x / TWO_32)
  }

  /** `(uint32_t)x`. */
  function Low32(x: u64): (lo: u32)
    ensures (x - lo) % TWO_32 == 0
  {
    Trunc32(x)
  }

  /** The two printed halves put back together give the 64-bit value. */
  lemma SplitHalves(x: u64)
    ensures High32(x) * TWO_32 + Low32(x) == x
  {
  }

  /** The tick line `%08X%08X`: sixteen upper-case hexadecimal digits. */
  function TickDigits(x: u64): (s: string)
    ensures |s| == 16 && Hex.IsHexString(s)
  {
    Hex.Hex8(High32(x)) + Hex.Hex8(Low32(x))
  }

  /** Read as one base-16 number, the sixteen printed digits are the
      elapsed value itself. */
  lemma TickDigitsRoundTrip(x: u64)
    ensures Hex.ParseHex(TickDigits(x)) == x
  {
    var hi, lo := Hex.Hex8(High32(x)), Hex.Hex8(Low32(x));
    Hex.ParseHexAppend(hi, lo);
    Hex.Pow16Eight();
    SplitHalves(x);
  }
}
