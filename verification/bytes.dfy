/** Byte strings and the ASCII character classes the source's patterns use.
    A byte is represented by the char with the same code (0 to 255), so that
    byte-string literals can be written as Dafny string literals. */
module Bytes {

  type byte = c: char | c as int < 256

  type bytes = seq<byte>

  const TAB: byte := '\t'
  const COMMA: byte := ','

  /** `[0-9]` */
  predicate IsDigit(c: byte) {
    '0' <= c <= '9'
  }

  /** Rust's `u8::is_ascii_alphabetic`: `[A-Za-z]`. */
  predicate IsAlpha(c: byte) {
    'A' <= c <= 'Z' || 'a' <= c <= 'z'
  }

  /** Rust's `u8::is_ascii_alphanumeric`: `[A-Za-z0-9]`. */
  predicate IsAlnum(c: byte) {
    IsAlpha(c) || IsDigit(c)
  }

  /** `[!-~]`: visible ASCII, space excluded. */
  predicate IsVisible(c: byte) {
    '!' <= c <= '~'
  }

  /** `[ !-~]`: printable ASCII, space included. */
  predicate IsPrintable(c: byte) {
    ' ' <= c <= '~'
  }

  /** `[0-9A-F]`: an upper-case hexadecimal digit. */
  predicate IsUpperHex(c: byte) {
    IsDigit(c) || 'A' <= c <= 'F'
  }

  /** `[-+]` */
  predicate IsSign(c: byte) {
    c == '+' || c == '-'
  }

  predicate AllDigits(s: bytes) {
    forall i :: 0 <= i < |s| ==> IsDigit(s[i])
  }

  predicate AllPrintable(s: bytes) {
    forall i :: 0 <= i < |s| ==> IsPrintable(s[i])
  }

  /** The UTF-8 encoding of `char::from(b)`: ASCII stays one byte, a byte from
      0x80 up becomes the two-byte encoding of the Latin-1 code point. */
  function CharUtf8(b: byte): (r: bytes)
    ensures b as int < 0x80 ==> r == [b]
    ensures b as int >= 0x80 ==> |r| == 2 && r[0] as int / 64 == 3 && r[1] as int / 64 == 2
  {
    if b as int < 0x80 then [b]
    else [(0xC0 + b as int / 64) as char, (0x80 + b as int % 64) as char]
  }
}
