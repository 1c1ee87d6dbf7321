/** The fixed-width unsigned integer types of <stdint.h> that demo.c uses,
    as subsets of the unbounded integers. Wrap-around and truncating casts
    are written out where the source performs them. */
module BoundedInts {
  const TWO_8: nat := 0x100
  const TWO_32: nat := 0x1_0000_0000
  const TWO_64: nat := 0x1_0000_0000_0000_0000

  type u8 = x: int | 0 <= x < TWO_8
  type u32 = x: int | 0 <= x < TWO_32
  type u64 = x: int | 0 <= x < TWO_64

  /** The C cast `(uint8_t)x` of a non-negative value: reduction modulo 2^8. */
  function Trunc8(x: nat): (r: u8)
    ensures x < TWO_8 ==> r == x
    ensures (x - r) % TWO_8 == 0
  {
    x % TWO_8
  }

  /** The C cast `(uint32_t)x` of a non-negative value: reduction modulo 2^32. */
  function Trunc32(x: nat): (r: u32)
    ensures x < TWO_32 ==> r == x
    ensures (x - r) % TWO_32 == 0
  {
    x % TWO_32
  }
}
