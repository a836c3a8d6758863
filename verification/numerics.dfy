/** Machine integers of the Rust target (64-bit), the conversions the core
    performs between them, and the faults a debug build raises. */
module Numerics {

  const I32_MIN: int := -0x8000_0000
  const I32_MAX: int := 0x7fff_ffff
  /** Number of distinct 32-bit values. */
  const TWO_32: int := 0x1_0000_0000
  /** Number of distinct `usize` values on a 64-bit target. */
  const TWO_64: int := 0x1_0000_0000_0000_0000
  /** Largest length a Rust `Vec` may have (`isize::MAX`). */
  const ISIZE_MAX: int := 0x7fff_ffff_ffff_ffff

  predicate InI32(x: int) {
    I32_MIN <= x <= I32_MAX
  }

  type I32 = x: int | InI32(x)

  type U32 = x: int | 0 <= x < TWO_32

  /** `n as i32` for a `usize` n: keeps the low 32 bits, read as two's complement. */
  function AsI32(n: nat): (r: I32)
    ensures n <= I32_MAX ==> r == n
    ensures (n - r) % TWO_32 == 0
  {
    var low := n % TWO_32;
    if low <= I32_MAX then low else low - TWO_32
  }

  /** `x as usize` for an `i32` x: sign-extends to 64 bits, read as unsigned. */
  function AsUsize(x: I32): (r: nat)
    ensures 0 <= x ==> r == x
    ensures x < 0 ==> ISIZE_MAX < r < TWO_64
  {
    assert InI32(x);
    if 0 <= x then x else TWO_64 + x
  }

  /** The panics of a debug build that the core can reach. */
  datatype Fault = Overflow | IndexOutOfBounds

  /** Either a value or the fault that aborted the computation. */
  datatype Result<+T> = Ok(value: T) | Err(fault: Fault)
}
