/** Arithmetic that several models share. */
module Numbers {
  function Max(x: int, y: int): int {
    if x < y then y else x
  }

  /** The indicator of a condition, for counting. */
  function Bit(b: bool): nat {
    if b then 1 else 0
  }
}
