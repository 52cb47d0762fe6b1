/** Bytes and the 64-bit integers of the source. */
module Bytes {
  const MAX_INT64 := 0x7FFF_FFFF_FFFF_FFFF
  const TWO_64 := 0x1_0000_0000_0000_0000

  type Byte = x: int | 0 <= x < 256

  type Int64 = x: int | -MAX_INT64 - 1 <= x <= MAX_INT64

  /** A position in a file. */
  type Offset = x: int | 0 <= x <= MAX_INT64

  /** What is left of an integer in a signed 64-bit word. */
  function Wrap64(i: int): Int64 {
    (i + MAX_INT64 + 1) % TWO_64 - MAX_INT64 - 1
  }

  function Min(a: nat, b: nat): nat {
    if a <= b then a else b
  }

  lemma WrapKeepsWords(i: int)
    ensures -MAX_INT64 - 1 <= i <= MAX_INT64 ==> Wrap64(i) == i
    ensures MAX_INT64 < i <= 2 * MAX_INT64 + 1 ==> Wrap64(i) == i - TWO_64
  {
  }
}
