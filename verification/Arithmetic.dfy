/** Small arithmetic on natural numbers and integers. */
module Arithmetic {
  function Min(a: nat, b: nat): nat {
    if a < b then a else b
  }

  function Max(a: int, b: int): int {
    if a < b then b else a
  }

  function SaturatingSub(a: nat, b: nat): nat {
    if b <= a then a - b else 0
  }
}
