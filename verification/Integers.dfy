/** Smaller and larger of two integers: the source's Math.min and Math.max. */
module Integers {
  function Min(a: int, b: int): int {
    if a < b then a else b
  }

  function Max(a: int, b: int): int {
    if a > b then a else b
  }
}
