/** Octets and the ASCII constants the decoder compares them against. */
module Bytes {

  /** A Rust `u8`. */
  newtype byte = x: int | 0 <= x < 256

  const CR: byte := 13
  const LF: byte := 10
  const PLUS: byte := 43    // '+'
  const DOLLAR: byte := 36  // '$'
  const STAR: byte := 42    // '*'
  const ZERO: byte := 48    // '0'

  /** The two-byte line terminator "\r\n". */
  const CRLF: seq<byte> := [CR, LF]

  predicate IsDigit(b: byte) {
    ZERO <= b <= ZERO + 9
  }

  predicate IsAscii(b: byte) {
    b < 0x80
  }

  /** No "\r\n" occurs anywhere in `t`. */
  predicate NoCrlf(t: seq<byte>) {
    forall i :: 0 <= i < |t| - 1 ==> !(t[i] == CR && t[i + 1] == LF)
  }

  /** `t` ends with the terminator "\r\n". */
  predicate EndsWithCrlf(t: seq<byte>) {
    |t| >= 2 && t[|t| - 2] == CR && t[|t| - 1] == LF
  }
}
