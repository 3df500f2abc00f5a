/** Byte strings, the model of Go's `string` and `[]byte` throughout the project. */
module Bytes {

  type byte = b: int | 0 <= b < 256

  type bytes = seq<byte>

  const TAB: byte := 9
  const NEWLINE: byte := 10
  const RETURN: byte := 13
  const SPACE: byte := 32
  const DOUBLE_QUOTE: byte := 34
  const DOLLAR: byte := 36
  const SINGLE_QUOTE: byte := 39
  const LPAREN: byte := 40
  const RPAREN: byte := 41
  const STAR: byte := 42
  const PLUS: byte := 43
  const COMMA: byte := 44
  const MINUS: byte := 45
  const SLASH: byte := 47
  const ZERO: byte := 48
  const COLON: byte := 58
  const SEMICOLON: byte := 59
  const UPPER_E: byte := 69
  const LBRACKET: byte := 91
  const BACKSLASH: byte := 92
  const RBRACKET: byte := 93
  const UNDERSCORE: byte := 95
  const BACKTICK: byte := 96
  const LOWER_E: byte := 101

  predicate IsLetter(c: byte) {
    65 <= c <= 90 || 97 <= c <= 122
  }

  predicate IsDigit(c: byte) {
    ZERO <= c <= ZERO + 9
  }
}
