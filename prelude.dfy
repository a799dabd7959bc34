/** Shared vocabulary of the runtime model: Rust's `Option<T>` and the
    integer ranges of the `i32` and `i64` values the runtime takes. */
module Prelude {

  datatype Option<+T> = None | Some(value: T)

  /** Rust's 32-bit signed integer range, used where a value is an `i32`. */
  const I32_MIN: int := -0x8000_0000
  const I32_MAX: int := 0x7FFF_FFFF

  predicate InI32(x: int) {
    I32_MIN <= x <= I32_MAX
  }

  /** Rust's 64-bit signed integer range, used by the slice offsets. */
  const I64_MIN: int := -0x8000_0000_0000_0000
  const I64_MAX: int := 0x7FFF_FFFF_FFFF_FFFF

  type Int64 = x: int | I64_MIN <= x <= I64_MAX
}
