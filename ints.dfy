/** The fixed-width integer types the Rust and JavaScript code uses. */
module Ints {

  const U32_LIMIT: nat := 0x1_0000_0000

  /** Rust `u32`. */
  type U32 = x: nat | x < U32_LIMIT

  /** Rust `i32`. */
  type I32 = x: int | -0x8000_0000 <= x < 0x8000_0000

  /** Rust's `std::cmp::max` on `u32`. */
  function Max(a: U32, b: U32): (m: U32)
    ensures a <= m && b <= m
    ensures m == a || m == b
  {
    if a < b then b else a
  }
}
