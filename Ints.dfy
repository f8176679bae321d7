/** Fixed-width integers of the host program: `uint32_t` cells of the device
    buffers and the `int` accumulator, with C++'s wrap-around written out. */
module Ints {

  const TWO_TO_THE_31: int := 0x8000_0000
  const TWO_TO_THE_32: int := 0x1_0000_0000

  /** `uint32_t` / `uint`: the element type of every buffer. */
  newtype u32 = x: int | 0 <= x < 0x1_0000_0000

  /** `int` on the host (32-bit two's complement). */
  newtype i32 = x: int | -0x8000_0000 <= x < 0x8000_0000

  /** Unsigned 32-bit addition: exact while the sum fits in 32 bits,
      otherwise the sum less 2^32 (it wraps at most once). */
  function AddU32(a: u32, b: u32): (r: u32)
    ensures a as int + b as int < TWO_TO_THE_32 ==> r as int == a as int + b as int
    ensures a as int + b as int >= TWO_TO_THE_32 ==> r as int == a as int + b as int - TWO_TO_THE_32
  {
    ((a as int + b as int) % TWO_TO_THE_32) as u32
  }

  /** The `int` whose 32-bit pattern is `x` modulo 2^32 (the conversion of an
      out-of-range unsigned value back to `int`). */
  function ToI32(x: int): i32
  {
    var u := x % TWO_TO_THE_32;
    if u < TWO_TO_THE_31 then u as i32 else (u - TWO_TO_THE_32) as i32
  }

  /** `acc += x` for an `int` accumulator and a `uint32_t` operand: `acc` is
      converted to unsigned, the sum wraps modulo 2^32, and the result is
      converted back to `int`. */
  function AddAssign(acc: i32, x: u32): (r: i32)
    ensures r as int % TWO_TO_THE_32 == (acc as int + x as int) % TWO_TO_THE_32
    ensures acc as int + x as int < TWO_TO_THE_31 ==> r as int == acc as int + x as int
    ensures acc as int + x as int >= TWO_TO_THE_31 ==> r as int == acc as int + x as int - TWO_TO_THE_32
  {
    ToI32(acc as int % TWO_TO_THE_32 + x as int)
  }

  /** ToI32 keeps the bit pattern: it changes its argument only by a multiple of 2^32. */
  lemma ToI32Congruent(x: int)
    ensures ToI32(x) as int % TWO_TO_THE_32 == x % TWO_TO_THE_32
    ensures 0 <= x < TWO_TO_THE_31 ==> ToI32(x) as int == x
  {
  }

  /** Adding to a wrapped total is the same as wrapping the exact sum. */
  lemma AddAssignWraps(total: int, x: u32)
    ensures AddAssign(ToI32(total), x) == ToI32(total + x as int)
  {
  }

  /** Congruent left operands give congruent sums. */
  lemma ModAddLeft(a: int, b: int, c: int)
    requires a % TWO_TO_THE_32 == b % TWO_TO_THE_32
    ensures (a % TWO_TO_THE_32 + c) % TWO_TO_THE_32 == (b + c) % TWO_TO_THE_32
  {
  }
}
