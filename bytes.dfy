/** Bytes, the ASCII constants the log grammar is written in, and Option. */
module Bytes {

  newtype u8 = x: int | 0 <= x < 256

  datatype Option<+T> = None | Some(value: T)

  const NL: u8 := 10
  const SP: u8 := 32
  const QUOTE: u8 := 34
  const PLUS: u8 := 43
  const DASH: u8 := 45       // also the minus sign
  const DOT: u8 := 46
  const SLASH: u8 := 47
  const ZERO: u8 := 48
  const COLON: u8 := 58
  const LBRACKET: u8 := 91
  const RBRACKET: u8 := 93

  predicate IsDigit(b: u8) {
    ZERO <= b <= ZERO + 9
  }

  function DigitValue(b: u8): nat
    requires IsDigit(b)
  {
    (b - ZERO) as nat
  }

  function Digit(d: nat): (b: u8)
    requires d < 10
  {
    ZERO + d as u8
  }

  predicate AllDigits(s: seq<u8>) {
    forall i | 0 <= i < |s| :: IsDigit(s[i])
  }

  predicate IsAscii(s: seq<u8>) {
    forall i | 0 <= i < |s| :: s[i] < 128
  }
}
