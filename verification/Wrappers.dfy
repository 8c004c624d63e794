/** Result types and the machine integers shared by the whole model. */
module Wrappers {
  datatype Option<+T> = None | Some(value: T)

  datatype Result<+T> = Ok(value: T) | Err(error: string)

  const TWO_64: int := 0x1_0000_0000_0000_0000

  /** Go's uint64. */
  type u64 = x: int | 0 <= x < 0x1_0000_0000_0000_0000

  /** Go's uint32. */
  type u32 = x: int | 0 <= x < 0x1_0000_0000

  /** Go's uint8. */
  type u8 = x: int | 0 <= x < 0x100

  /** Unsigned 64-bit addition, which wraps around in Go. */
  function Add64(a: u64, b: u64): u64 {
    (a + b) % TWO_64
  }

  /** Unsigned 64-bit multiplication, which wraps around in Go. */
  function Mul64(a: u64, b: u64): u64 {
    (a * b) % TWO_64
  }

  function Sum(s: seq<int>): int {
    if s == [] then 0 else Sum(s[..|s| - 1]) + s[|s| - 1]
  }
}
