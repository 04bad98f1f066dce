/** Numbers of nine bits. */
module NineBits {
  function BitsOf(n: nat): (b: bv9)
    requires n < 0x200
    ensures b as int == n
  {
    if n == 0 then 0 else BitsOf(n - 1) + 1
  }
}
