/** Machine integers of the Rust source, its saturating operations, and an Option type. */
module Prelude {

  const U32_LIMIT: int := 0x1_0000_0000
  const U64_MAX: int := 0xFFFF_FFFF_FFFF_FFFF
  const I64_MIN: int := -0x8000_0000_0000_0000
  const I64_MAX: int := 0x7FFF_FFFF_FFFF_FFFF

  type u32 = x: int | 0 <= x < U32_LIMIT
  type u64 = x: int | 0 <= x <= U64_MAX
  type i64 = x: int | I64_MIN <= x <= I64_MAX

  datatype Option<T> = None | Some(value: T)

  function Min(a: int, b: int): int { if a <= b then a else b }

  /** `u64::saturating_add`. */
  function SaturatingAdd(a: u64, b: u64): u64 {
    if a + b > U64_MAX then U64_MAX else a + b
  }

  /** `u64::saturating_sub`. */
  function SaturatingSub(a: u64, b: u64): u64 {
    if a < b then 0 else a - b
  }

  /** `i64::saturating_add`. */
  function SaturatingAddI64(a: i64, b: i64): i64 {
    if a + b > I64_MAX then I64_MAX else if a + b < I64_MIN then I64_MIN else a + b
  }

  /** `x as i64` for a `u64`: the same 64 bits read in two's complement. */
  function AsI64(x: u64): i64 {
    if x <= I64_MAX then x else x - (U64_MAX + 1)
  }

  /** The element before position `i` of `chain`, with `anchor` before the first. */
  function Before<T>(anchor: T, chain: seq<T>, i: nat): T
    requires i <= |chain|
  {
    if i == 0 then anchor else chain[i - 1]
  }

  /** Sum of a sequence, folded from the left (the last element is added last). */
  function Sum(xs: seq<nat>): nat {
    if xs == [] then 0 else Sum(xs[..|xs| - 1]) + xs[|xs| - 1]
  }

  /** Product of a sequence, folded from the left. */
  function Product(xs: seq<nat>): nat {
    if xs == [] then 1 else Product(xs[..|xs| - 1]) * xs[|xs| - 1]
  }
}
