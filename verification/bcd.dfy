/** The binary-coded-decimal codec.  A BCD byte keeps the tens digit in its
    high nibble and the units digit in its low nibble, so 45 travels as 0x45. */
module Bcd {
  import opened Outcomes
  import opened DivMod

  /** A well-formed BCD byte: both nibbles are decimal digits (0x00..0x99). */
  predicate IsBcdByte(y: int) {
    IsByte(y) && y / 16 <= 9 && y % 16 <= 9
  }

  /** The integers whose BCD form fits in one byte (0..159). */
  predicate Encodable(x: int) {
    0 <= x <= 159
  }

  /** `_bcd2bin`: `value - 6 * (value >> 4)`.  Python's `>> 4` is floor
      division by 16.  The result reads the high nibble as tens and the low
      nibble as units; it is total, also on bytes that are not BCD. */
  function Bcd2Bin(value: int): (r: int)
    ensures r == 10 * (value / 16) + value % 16
  {
    value - 6 * (value / 16)
  }

  /** `_bin2bcd`: `value + 6 * (value // 10)`.  The result holds the tens
      of value in its high nibble and the units in its low nibble, and is a
      byte exactly when value is in 0..159. */
  function Bin2Bcd(value: int): (r: int)
    ensures r / 16 == value / 10
    ensures r % 16 == value % 10
    ensures IsByte(r) <==> Encodable(value)
  {
    DivModOf(16 * (value / 10) + value % 10, 16, value / 10, value % 10);
    value + 6 * (value / 10)
  }

  /** Decoding undoes encoding for every integer, not only for 0..99. */
  lemma DecodeEncode(x: int)
    ensures Bcd2Bin(Bin2Bcd(x)) == x
  {
  }

  /** Encoding a decoded value gives the byte back exactly when its low
      nibble is a decimal digit; otherwise the carry adds 6. */
  lemma EncodeDecode(y: int)
    ensures Bin2Bcd(Bcd2Bin(y)) == (if y % 16 <= 9 then y else y + 6)
  {
    var h, l := y / 16, y % 16;
    if l <= 9 {
      DivModOf(Bcd2Bin(y), 10, h, l);
    } else {
      DivModOf(Bcd2Bin(y), 10, h + 1, l - 10);
    }
  }

  /** The codec is a bijection between 0..99 and the BCD bytes 0x00..0x99. */
  lemma BcdBijection(x: int, y: int)
    ensures 0 <= x <= 99 ==> IsBcdByte(Bin2Bcd(x))
    ensures IsBcdByte(y) ==> 0 <= Bcd2Bin(y) <= 99 && Bin2Bcd(Bcd2Bin(y)) == y
  {
    EncodeDecode(y);
  }

  /** Decoding never fails on a byte and stays within 0..165. */
  lemma DecodeByte(y: int)
    requires IsByte(y)
    ensures 0 <= Bcd2Bin(y) <= 165
  {
  }
}
