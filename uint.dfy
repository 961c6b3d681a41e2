/** Fixed-width unsigned and signed integer arithmetic of C, written out on
    Dafny's unbounded integers: every wrap-around in the model goes through
    one of these functions. */
module Uint {
  const U16: nat := 0x1_0000
  const U32: nat := 0x1_0000_0000
  const U64: nat := 0x1_0000_0000_0000_0000
  const I32_MIN_AS_U32: nat := 0x8000_0000

  type u16 = x: nat | x < U16
  type u32 = x: nat | x < U32
  type u64 = x: nat | x < U64

  /** `a + b` on uint32_t. */
  function Add32(a: u32, b: u32): (r: u32)
    ensures a + b < U32 ==> r == a + b
    ensures a + b >= U32 ==> r == a + b - U32
  {
    (a + b) % U32
  }

  /** `a - b` on uint32_t. */
  function Sub32(a: u32, b: u32): (r: u32)
    ensures b <= a ==> r == a - b
    ensures a < b ==> r == a - b + U32
  {
    (a - b) % U32
  }

  /** The conversion `(int32_t)x` of a uint32_t, two's complement. */
  function Int32(x: u32): (r: int)
    ensures -0x8000_0000 <= r < 0x8000_0000
    ensures (r + U32) % U32 == x
  {
    if x < I32_MIN_AS_U32 then x else x - U32
  }

  /** An `int` converted to uint32_t (modulo 2^32). */
  function Wrap32(x: int): (r: u32)
    ensures 0 <= x < U32 ==> r == x
  {
    x % U32
  }

  /** An `int` converted to uint16_t (modulo 2^16). */
  function Wrap16(x: int): (r: u16)
    ensures 0 <= x < U16 ==> r == x
  {
    x % U16
  }

  /** An `int` converted to size_t (modulo 2^64). */
  function ToSizeT(x: int): (r: u64)
    ensures 0 <= x < U64 ==> r == x
    ensures -(U64 as int) <= x < 0 ==> r == x + U64
  {
    x % U64
  }
}
