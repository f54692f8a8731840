/** Java's 32-bit `int`. */
module Ints {
  /** The range of a Java `int`: `Integer.MIN_VALUE` to `Integer.MAX_VALUE`. */
  const INT_MIN: int := -0x8000_0000
  const INT_MAX: int := 0x7FFF_FFFF

  newtype int32 = x: int | INT_MIN <= x <= INT_MAX
}
