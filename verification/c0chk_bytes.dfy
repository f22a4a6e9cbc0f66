/** Bytes as the content scanner reads them: `getc` yields an `unsigned char`
    widened to `int`, so every value read lies in 0..255. */
module Bytes {

  type Byte = b: int | 0 <= b < 256

  /** Horizontal tabulation, `'\t'`. */
  const HT: Byte := 9

  /** Line feed, `'\n'`. */
  const LF: Byte := 10

  /** Delete, the one C0-style control above the space. */
  const DEL: Byte := 127

  /** A C0 control character in the ASCII sense: 0..31 or 127. */
  predicate IsControl(b: Byte) {
    b <= 31 || b == DEL
  }

  /** A byte outside 7-bit ASCII. */
  predicate IsEightBit(b: Byte) {
    b >= 128
  }

  /** A printable ASCII byte, space through tilde. */
  predicate IsPrintable(b: Byte) {
    32 <= b <= 126
  }
}
