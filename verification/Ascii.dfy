/** Characters as bytes. */
module Ascii {
  import opened Bytes

  const LF: byte := '\n' as int
  const CR: byte := '\r' as int
  const SPACE: byte := ' ' as int
  const PERCENT: byte := '%' as int
  const AMPERSAND: byte := '&' as int
  const PLUS: byte := '+' as int
  const SLASH: byte := '/' as int
  const ZERO: byte := '0' as int
  const SEMICOLON: byte := ';' as int
  const EQUALS: byte := '=' as int
  const LETTER_H: byte := 'H' as int

  const UPPER_DIGITS: string := "0123456789ABCDEF"
  const LOWER_DIGITS: string := "0123456789abcdef"

  /** `isxdigit`. */
  predicate IsHex(b: byte) {
    0x30 <= b <= 0x39 || 0x41 <= b <= 0x46 || 0x61 <= b <= 0x66
  }

  function HexDigit(b: byte): (d: nat)
    requires IsHex(b)
    ensures d < 16
    ensures d == 0 <==> b == ZERO
  {
    if b <= 0x39 then b - 0x30 else if b <= 0x46 then b - 0x41 + 10 else b - 0x61 + 10
  }

  /** The character stands for the digit, in upper or in lower case. */
  predicate Spells(b: byte, d: nat)
    requires d < 16
  {
    b == UPPER_DIGITS[d] as int || b == LOWER_DIGITS[d] as int
  }

  /** A hexadecimal digit has the value it has in one of the tables, and nothing else is one. */
  lemma HexSpelled(b: byte)
    ensures IsHex(b) ==> Spells(b, HexDigit(b))
    ensures !IsHex(b) ==> forall d :: 0 <= d < 16 ==> !Spells(b, d)
  {
  }

  lemma SpelledHex(b: byte, d: nat)
    requires d < 16 && Spells(b, d)
    ensures IsHex(b) && HexDigit(b) == d
  {
  }
}
