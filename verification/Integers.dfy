/** Machine integers that several components share. */
module Integers {

  const TWO_31: nat := 0x8000_0000
  const TWO_32: nat := 0x1_0000_0000
  const TWO_64: nat := 0x1_0000_0000_0000_0000

  type byte = n: int | 0 <= n < 256
  type u32 = n: int | 0 <= n < 0x1_0000_0000
  type u64 = n: int | 0 <= n < 0x1_0000_0000_0000_0000

  /** A 32-bit `int` with the bits of a number. */
  function ToInt(n: int): int {
    var m := n % TWO_32;
    if m < TWO_31 then m else m - TWO_32
  }

  lemma SmallMod(n: nat, p: nat)
    requires n < p
    ensures n % p == n
  {
  }

  lemma SmallToInt(n: int)
    requires 0 <= n < TWO_31
    ensures ToInt(n) == n
  {
  }
}
