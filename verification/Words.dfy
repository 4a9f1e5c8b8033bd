/** Unsigned words of a width the caller chooses, given by the modulus `m`
    (2^32 or 2^64 for a bus address).  Operands are already reduced. */
module Words {

  /** The C operator `+`, for operands that are words. */
  function WAdd(m: nat, a: int, b: int): int {
    if a + b < m then a + b else a + b - m
  }

  /** The C operator `-`, for operands that are words. */
  function WSub(m: nat, a: int, b: int): int {
    if b <= a then a - b else a - b + m
  }

  function Min(a: int, b: int): int {
    if a <= b then a else b
  }

  function Max(a: int, b: int): int {
    if a >= b then a else b
  }
}
