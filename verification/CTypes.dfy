/** Fixed-width C integers and the small helpers the rest of the model shares. */
module CTypes {

  const U32_LIMIT := 0x1_0000_0000
  const U64_LIMIT := 0x1_0000_0000_0000_0000

  type u8 = x: int | 0 <= x < 0x100
  type u32 = x: int | 0 <= x < 0x1_0000_0000
  type u64 = x: int | 0 <= x < 0x1_0000_0000_0000_0000

  datatype Option<+T> = None | Some(value: T)

  /** `reglib_min`. */
  function Min(a: u32, b: u32): u32 {
    if a > b then b else a
  }

  /** `reglib_max`. */
  function Max(a: u32, b: u32): u32 {
    if a > b then a else b
  }

  /** Unsigned 32-bit subtraction, which wraps when `b` is the larger operand. */
  function Sub32(a: u32, b: u32): u32 {
    if a >= b then a - b else a - b + U32_LIMIT
  }
}
