/** Bytes as the Rust crates see them, and the bounds of their machine integers. */
module Bytes {
  newtype byte = x: int | 0 <= x < 256

  const NEWLINE: byte := 10

  const U32_MAX: nat := 0xFFFF_FFFF
  const USIZE_MAX: nat := 0xFFFF_FFFF_FFFF_FFFF

  /** An offset or a length: a 64-bit `usize`. */
  type usize = x: int | 0 <= x <= USIZE_MAX

  /** A byte slice; no slice is longer than an offset can say. */
  type Slice = s: seq<byte> | |s| <= USIZE_MAX

  function SaturatingAdd(a: usize, b: usize): usize {
    if a + b <= USIZE_MAX then a + b else USIZE_MAX
  }

  function SaturatingSub(a: usize, b: usize): usize {
    if b <= a then a - b else 0
  }

  /** `u32::try_from(x).unwrap_or(u32::MAX)` */
  function SaturatingU32(x: nat): nat {
    if x <= U32_MAX then x else U32_MAX
  }

  function Min(a: int, b: int): int {
    if a <= b then a else b
  }

  function Max(a: int, b: int): int {
    if a >= b then a else b
  }
}
