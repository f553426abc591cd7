/** Floor division and remainder by the constant divisors the register code
    uses (10, 16, 64, 128), which Python's `//`, `>>` and `&` compute. */
module DivMod {

  /** n is q times d plus a remainder r below d, so q and r are the quotient
      and remainder of n by d. */
  lemma DivModOf(n: int, d: int, q: int, r: int)
    requires d == 10 || d == 16 || d == 64 || d == 128
    requires 0 <= r < d
    requires n == d * q + r
    ensures n / d == q && n % d == r
  {
    if d == 10 {
      assert n == 10 * q + r;
    } else if d == 16 {
      assert n == 16 * q + r;
    } else if d == 64 {
      assert n == 64 * q + r;
    } else {
      assert n == 128 * q + r;
    }
  }
}
