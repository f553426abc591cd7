/** The three bit operations the alarm register applies, written with
    integer arithmetic.  Python ints behave as infinite two's complement, so
    bit k of x is `(x / 2^k) % 2` with floor division, which is what Dafny's
    `/` and `%` compute for a positive divisor. */
module Bits {
  import opened Outcomes
  import opened DivMod

  /** `x & 0x80 != 0`: bit 7 of x is set. */
  predicate Bit7(x: int) {
    (x / 128) % 2 == 1
  }

  /** `x & 0x7f`: the low seven bits of x. */
  function Low7(x: int): (r: int)
    ensures 0 <= r < 128
    ensures (x - r) % 128 == 0
  {
    x % 128
  }

  /** `x | 0x40`: x with bit 6 set. */
  function SetBit6(x: int): (r: int)
    ensures (r / 64) % 2 == 1
    ensures r % 64 == x % 64
    ensures r / 128 == x / 128
  {
    var h, b, c := (x / 64) / 2, (x / 64) % 2, x % 64;
    DivModOf(x, 128, h, 64 * b + c);
    if b == 1 then x
    else
      DivModOf(x + 64, 64, 2 * h + 1, c);
      DivModOf(x + 64, 128, h, 64 + c);
      x + 64
  }

  /** For a byte, bit 7 is the test `y >= 0x80`, and masking it off
      subtracts 0x80 exactly when it was set. */
  lemma ByteBit7(y: int)
    requires IsByte(y)
    ensures Bit7(y) <==> y >= 128
    ensures Low7(y) == (if Bit7(y) then y - 128 else y)
  {
  }

}
