/** Byte strings: the model of `char*` ranges and of std::string. */
module ByteStrings {
  type byte = b: int | 0 <= b < 256
  type bytes = seq<byte>

  const QUOTE: byte := 0x22
  const APOSTROPHE: byte := 0x27
  const BACKSLASH: byte := 0x5C
  const SLASH: byte := 0x2F
  const STAR: byte := 0x2A
  const COMMA: byte := 0x2C
  const COLON: byte := 0x3A
  const LBRACE: byte := 0x7B
  const RBRACE: byte := 0x7D
  const LBRACKET: byte := 0x5B
  const RBRACKET: byte := 0x5D
  const MINUS: byte := 0x2D
  const PLUS: byte := 0x2B
  const DOT: byte := 0x2E
  const SPACE: byte := 0x20
  const TAB: byte := 0x09
  const LF: byte := 0x0A
  const CR: byte := 0x0D

  const TRUE_TEXT: bytes := [0x74, 0x72, 0x75, 0x65]
  const FALSE_TEXT: bytes := [0x66, 0x61, 0x6C, 0x73, 0x65]
  const NULL_TEXT: bytes := [0x6E, 0x75, 0x6C, 0x6C]

  predicate IsDigit(c: byte) { 0x30 <= c <= 0x39 }

  // The four bytes that skipSpaces passes over; also the white space of section 2 of RFC 8259.
  predicate IsSpace(c: byte) { c == SPACE || c == TAB || c == CR || c == LF }

  predicate AllSpace(s: bytes) { forall i :: 0 <= i < |s| ==> IsSpace(s[i]) }

  predicate IsAscii(s: string) { forall i :: 0 <= i < |s| ==> s[i] as int < 0x80 }

  /** The bytes of a text. */
  function Ascii(s: string): (b: bytes)
    requires IsAscii(s)
    ensures |b| == |s|
  {
    seq(|s|, i requires 0 <= i < |s| => s[i] as int)
  }

  /** The texts with `sep` between them. */
  function Join(texts: seq<bytes>, sep: bytes): bytes
  {
    if texts == [] then [] else texts[0] + (if |texts| == 1 then [] else sep) + Join(texts[1..], sep)
  }
}
