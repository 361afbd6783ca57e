/** Machine integers of the Rust source, modelled as mathematical integers with
    explicit range predicates. Rust's `+`, `-` and `*` on `i32` panic on overflow
    (in debug builds), so an operation of the source is modelled as defined only
    where each of its intermediate results satisfies `IsI32`. */
module Integers {

  const I32_MIN: int := -0x8000_0000
  const I32_MAX: int := 0x7FFF_FFFF

  const I64_MIN: int := -0x8000_0000_0000_0000
  const I64_MAX: int := 0x7FFF_FFFF_FFFF_FFFF

  /** `x` is a value of Rust's `i32`. */
  predicate IsI32(x: int) {
    I32_MIN <= x <= I32_MAX
  }

  /** `x` is a value of Rust's `i64`. */
  predicate IsI64(x: int) {
    I64_MIN <= x <= I64_MAX
  }
}
