/**
 * Fixed-width machine integers of the device model and the C conversions
 * between them: `uint32_t` words, 64-bit `hwaddr` addresses and the
 * conversion of an unsigned value into a 32-bit `int`.
 */
module MachineWords {
  const TWO32: int := 0x1_0000_0000
  const TWO64: int := 0x1_0000_0000_0000_0000
  const INT32_MIN: int := -0x8000_0000
  const INT32_MAX: int := 0x7fff_ffff

  /** `uint32_t`: a buffer word. */
  newtype u32 = x: int | 0 <= x < 0x1_0000_0000

  /** `uint64_t` / `hwaddr`: an address or a value on the memory bus. */
  newtype u64 = x: int | 0 <= x < 0x1_0000_0000_0000_0000

  /** Conversion of a `uint64_t` to `uint32_t`: only the low 32 bits survive. */
  function Truncate32(v: u64): (w: u32)
    ensures v as int < TWO32 ==> w as int == v as int
    ensures (v as int - w as int) % TWO32 == 0
  {
    (v as int % TWO32) as u32
  }

  /** Unsigned 64-bit subtraction, which wraps around modulo 2^64. */
  function Sub64(a: u64, b: u64): (d: u64)
    ensures b <= a ==> d as int == a as int - b as int
    ensures a < b ==> d as int == TWO64 + a as int - b as int
  {
    ((a as int - b as int) % TWO64) as u64
  }

  /**
   * Assignment of an unsigned 64-bit value to a 32-bit signed `int`: the
   * value is reduced modulo 2^32 into the range of `int` (the behaviour
   * GCC defines for this implementation-defined conversion).
   */
  function ToInt32(x: u64): (r: int)
    ensures INT32_MIN <= r <= INT32_MAX
    ensures (x as int - r) % TWO32 == 0
    ensures x as int <= INT32_MAX ==> r == x as int
  {
    var m := x as int % TWO32;
    if m <= INT32_MAX then m else m - TWO32
  }
}
