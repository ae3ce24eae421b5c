/** Rust's fixed-width integers where the modelled code depends on their width. */
module Ints {
  const U16_MAX: nat := 0xFFFF
  const USIZE_MAX: nat := 0xFFFF_FFFF_FFFF_FFFF

  type u16 = x: nat | x <= U16_MAX
  type usize = x: nat | x <= USIZE_MAX

  /** A cast to `i32` (`as i32`), or a wrapping `i32` operation: the low 32 bits, read as two's complement. */
  function AsI32(x: int): (r: int)
    ensures -0x8000_0000 <= r < 0x8000_0000
    ensures -0x8000_0000 <= x < 0x8000_0000 ==> r == x
    ensures (r - x) % 0x1_0000_0000 == 0
  {
    var m := x % 0x1_0000_0000;
    if m >= 0x8000_0000 then m - 0x1_0000_0000 else m
  }

  /** `u16` arithmetic as a release build performs it: the result wraps modulo 2^16. */
  function WrapU16(x: int): (r: u16)
    ensures 0 <= x <= U16_MAX ==> r == x
    ensures (r - x) % (U16_MAX + 1) == 0
  {
    x % (U16_MAX + 1)
  }

  /** `usize` arithmetic as a release build performs it: the result wraps modulo 2^64. */
  function WrapUsize(x: int): (r: usize)
    ensures 0 <= x <= USIZE_MAX ==> r == x
    ensures (r - x) % (USIZE_MAX + 1) == 0
  {
    x % (USIZE_MAX + 1)
  }

  /** `a.saturating_sub(b)` on an unsigned type. */
  function SatSub(a: nat, b: nat): nat {
    if a >= b then a - b else 0
  }

  /** `a.saturating_add(b)` on `usize`. */
  function SatAddUsize(a: usize, b: usize): (r: usize)
    ensures r == if a + b <= USIZE_MAX then a + b else USIZE_MAX
  {
    if a + b <= USIZE_MAX then a + b else USIZE_MAX
  }
}
