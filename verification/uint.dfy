/** Rust's fixed-width unsigned integers as ranges of `nat`. */
module Uint {
  const U32_MODULUS: nat := 0x1_0000_0000
  const U64_MODULUS: nat := 0x1_0000_0000_0000_0000

  type u32 = x: nat | x < U32_MODULUS
  type u64 = x: nat | x < U64_MODULUS

  /** `u64::wrapping_add`: the sum reduced modulo 2^64. */
  function WrappingAddU64(a: u64, b: u64): (r: u64)
    ensures r == (a + b) % U64_MODULUS
  {
    if a + b < U64_MODULUS then a + b else a + b - U64_MODULUS
  }
}
