/** Integer helpers shared by the summary rule and the ranking. */
module Ints {

  /** The smaller of two integers, as Python's `min` or the length of a `zip`. */
  function Min(a: int, b: int): int {
    if a <= b then a else b
  }
}
