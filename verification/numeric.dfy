/** Fixed-width integers of the Rust source, as bounded subsets of `int`. */
module Numeric {

  type U8 = x: int | 0 <= x < 0x100
  /** Rust's `u8` in its role as a byte of a buffer. */
  type Byte = U8
  type U16 = x: int | 0 <= x < 0x1_0000
  type I32 = x: int | -0x8000_0000 <= x < 0x8000_0000

  /** Rust's `x as u8` on an `i32`: the low eight bits of the two's-complement
      representation. Dafny's `%` is Euclidean, so a negative `x` also lands in 0..255. */
  function AsU8(x: I32): (r: U8)
    ensures (x - r) % 0x100 == 0
    ensures 0 <= x < 0x100 ==> r == x
  {
    x % 0x100
  }

  /** The truncation is not injective: values 256 apart, and negative values, collapse. */
  lemma AsU8Wraps()
    ensures AsU8(260) == 4
    ensures AsU8(516) == 4
    ensures AsU8(-252) == 4
    ensures AsU8(-1) == 0xff
    ensures AsU8(5) == 5
  {
  }
}
