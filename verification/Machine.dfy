/** Integers of fixed width as C computes with them. */
module Machine {
  /** Signed integers whose arithmetic must not overflow. */
  newtype int32 = x: int | -0x8000_0000 <= x < 0x8000_0000

  /** Signed integers that arise by wrap-around. */
  type wrapped = x: int | -0x8000_0000 <= x < 0x8000_0000

  type uint32 = x: int | 0 <= x < 0x1_0000_0000

  /** Two's complement 32-bit wrap-around. */
  function Wrap32(x: int): (r: wrapped)
    ensures 0 <= x < 0x1_0000_0000 ==> r == if x >= 0x8000_0000 then x - 0x1_0000_0000 else x
  {
    var r := x % 0x1_0000_0000;
    if r >= 0x8000_0000 then r - 0x1_0000_0000 else r
  }

  function Pow2(k: nat): (r: nat)
    ensures r > 0
  {
    if k == 0 then 1 else 2 * Pow2(k - 1)
  }
}
