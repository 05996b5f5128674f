/** String literals: valueToQuotedStringN on the printing side, readString and decodeString on the reading side. */
module Quoting {
  import opened Arithmetic
  import opened ByteStrings
  import opened Wrappers
  import opened Utf8

  const LETTER_U: byte := 0x75

  // ---------------------------------------------------------------- printing

  /** The letter after the backslash for the bytes that have a two-character escape. */
  function ShortEscape(c: nat): Option<byte>
  {
    if c == 0x22 then Some(0x22) else if c == 0x5C then Some(0x5C) else if c == 0x08 then Some(0x62)
    else if c == 0x0C then Some(0x66) else if c == 0x0A then Some(0x6E) else if c == 0x0D then Some(0x72)
    else if c == 0x09 then Some(0x74) else None
  }

  function HexDigit(n: nat): byte
    requires n < 16
  {
    if n < 10 then 0x30 + n else 0x61 + n - 10
  }

  /** The table hex2: entries 2k and 2k+1 are the two hexadecimal digits of k. */
  function Hex2(i: nat): byte
    requires i < 512
  {
    if i % 2 == 0 then HexDigit(i / 2 / 16) else HexDigit(i / 2 % 16)
  }

  /** appendHex. */
  function HexEscape(x: nat): bytes
  {
    var hi, lo := x / 256 % 256, x % 256;
    [BACKSLASH, LETTER_U, Hex2(2 * hi), Hex2(2 * hi + 1), Hex2(2 * lo), Hex2(2 * lo + 1)]
  }

  /** What the escaper prints for a code point that has no short escape, when it emits ASCII only. */
  function EscapeCodepoint(cp: nat): bytes
    requires cp < 0x200000
  {
    if cp < 0x20 then HexEscape(cp)
    else if cp < 0x80 then [cp]
    else if cp < 0x10000 then HexEscape(cp)
    else HexEscape(0xD800 + (cp - 0x10000) / 1024 % 1024) + HexEscape(0xDC00 + (cp - 0x10000) % 1024)
  }

  /** One turn of the escaping loop: the bytes printed and the number of bytes consumed. */
  function Unit(s: bytes, emitUtf8: bool): (r: (bytes, nat))
    requires s != []
    ensures 1 <= r.1 <= |s|
  {
    if ShortEscape(s[0]).Some? then ([BACKSLASH, ShortEscape(s[0]).value], 1)
    else if emitUtf8 then (if s[0] < 0x20 then HexEscape(s[0]) else [s[0]], 1)
    else
      CodepointRange(s);
      var (cp, n) := Utf8ToCodepoint(s);
      (EscapeCodepoint(cp), n)
  }

  function Escape(s: bytes, emitUtf8: bool): bytes
  {
    if s == [] then [] else Unit(s, emitUtf8).0 + Escape(s[Unit(s, emitUtf8).1..], emitUtf8)
  }

  function Quoted(s: bytes, emitUtf8: bool): bytes
  {
    [QUOTE] + Escape(s, emitUtf8) + [QUOTE]
  }

  predicate NeedsEscape(c: byte) { c == BACKSLASH || c == QUOTE || c < 0x20 || c > 0x7F }

  method DoesAnyCharRequireEscaping(s: bytes) returns (any: bool)
    ensures any <==> exists i :: 0 <= i < |s| && NeedsEscape(s[i])
  {
    for i := 0 to |s|
      invariant forall j :: 0 <= j < i ==> !NeedsEscape(s[j])
    {
      if NeedsEscape(s[i]) {
        return true;
      }
    }
    return false;
  }

  /** valueToQuotedStringN, with its fast path for strings that need no escape. */
  method ValueToQuotedString(value: bytes, emitUtf8: bool) returns (result: bytes)
    ensures result == Quoted(value, emitUtf8)
  {
    hide Unit;
    var any := DoesAnyCharRequireEscaping(value);
    if !any {
      FastPath(value, emitUtf8);
      return [QUOTE] + value + [QUOTE];
    }
    result := [QUOTE];
    var c := 0;
    while c != |value|
      invariant 0 <= c <= |value|
      invariant result + Escape(value[c..], emitUtf8) == [QUOTE] + Escape(value, emitUtf8)
      decreases |value| - c
    {
      var rest := value[c..];
      var (unit, n) := Unit(rest, emitUtf8);
      assert rest[n..] == value[c + n..];
      result := result + unit;
      c := c + n;
    }
    result := result + [QUOTE];
  }

  /** A string with nothing to escape is printed as it is. */
  lemma {:induction false} FastPath(s: bytes, emitUtf8: bool)
    requires forall i :: 0 <= i < |s| ==> !NeedsEscape(s[i])
    ensures Escape(s, emitUtf8) == s
  {
    if s != [] {
      FastPath(s[1..], emitUtf8);
      assert Unit(s, emitUtf8) == ([s[0]], 1);
    }
  }

  // ---------------------------------------------------------------- reading

  /** readString and readStringSingleQuote after the opening quote: whether the closing quote was found, and where
      the cursor stops. */
  function ScanString(doc: bytes, p: nat, quote: byte): (r: (bool, nat))
    requires p <= |doc|
    ensures p <= r.1 <= |doc| && (r.0 ==> p < r.1)
    decreases |doc| - p
  {
    if p == |doc| then (false, p)
    else if doc[p] == BACKSLASH then ScanString(doc, if p + 2 <= |doc| then p + 2 else |doc|, quote)
    else if doc[p] == quote then (true, p + 1)
    else ScanString(doc, p + 1, quote)
  }

  datatype StringError =
    | EmptyEscape | BadEscape | FourDigitsExpected | HexDigitExpected | SixCharactersExpected | SecondEscapeExpected

  /** `left` is the number of bytes of the literal's body beyond the cursor when the error was found. */
  datatype Decoded = Chars(s: bytes) | BadText(error: StringError, left: nat)

  datatype CodePoint = CodePoint(cp: nat, used: nat) | BadCodePoint(error: StringError, left: nat)

  function Prepend(s: bytes, d: Decoded): Decoded
  {
    match d case Chars(t) => Chars(s + t) case BadText(_, _) => d
  }

  function HexValue(c: byte): Option<nat>
  {
    if 0x30 <= c <= 0x39 then Some(c - 0x30)
    else if 0x61 <= c <= 0x66 then Some(c - 0x61 + 10)
    else if 0x41 <= c <= 0x46 then Some(c - 0x41 + 10)
    else None
  }

  function HexDigits(b: bytes, i: nat, acc: nat): (r: CodePoint)
    requires i <= 4 <= |b|
    ensures r.CodePoint? ==> r.used == 4
    decreases 4 - i
  {
    if i == 4 then CodePoint(acc, 4)
    else match HexValue(b[i])
      case Some(v) => HexDigits(b, i + 1, acc * 16 + v)
      case None => BadCodePoint(HexDigitExpected, |b| - i - 1)
  }

  /** decodeUnicodeEscapeSequence on the bytes after the `u`. */
  function DecodeEscapeSequence(b: bytes): (r: CodePoint)
    ensures r.CodePoint? ==> r.used == 4 <= |b|
  {
    if |b| < 4 then BadCodePoint(FourDigitsExpected, |b|) else HexDigits(b, 0, 0)
  }

  /** decodeUnicodeCodePoint: a high surrogate takes a second escape. */
  function DecodeCodePoint(b: bytes): (r: CodePoint)
    ensures r.CodePoint? ==> r.used <= |b|
  {
    match DecodeEscapeSequence(b)
    case BadCodePoint(e, left) => BadCodePoint(e, left)
    case CodePoint(hi, _) =>
      if !(0xD800 <= hi <= 0xDBFF) then CodePoint(hi, 4)
      else
        var rest := b[4..];
        if |rest| < 6 then BadCodePoint(SixCharactersExpected, |rest|)
        else if rest[0] != BACKSLASH then BadCodePoint(SecondEscapeExpected, |rest| - 1)
        else if rest[1] != LETTER_U then BadCodePoint(SecondEscapeExpected, |rest| - 2)
        else match DecodeEscapeSequence(rest[2..])
          case BadCodePoint(e, left) => BadCodePoint(e, left)
          case CodePoint(lo, _) => CodePoint(0x10000 + hi % 1024 * 1024 + lo % 1024, 10)
  }

  function UnescapeLetter(c: byte): Option<byte>
  {
    if c == 0x22 then Some(0x22) else if c == 0x2F then Some(0x2F) else if c == 0x5C then Some(0x5C)
    else if c == 0x62 then Some(0x08) else if c == 0x66 then Some(0x0C) else if c == 0x6E then Some(0x0A)
    else if c == 0x72 then Some(0x0D) else if c == 0x74 then Some(0x09) else None
  }

  datatype EscapeResult = Escaped(piece: bytes, used: nat) | BadEscaped(error: StringError, left: nat)

  /** What follows a backslash, and how many bytes it takes. */
  function DecodeEscape(b: bytes): (r: EscapeResult)
    ensures r.Escaped? ==> 0 < r.used <= |b|
  {
    if b == [] then BadEscaped(EmptyEscape, 0)
    else if b[0] == LETTER_U then
      match DecodeCodePoint(b[1..])
      case CodePoint(cp, used) => Escaped(CodePointToUtf8(cp), 1 + used)
      case BadCodePoint(e, left) => BadEscaped(e, left)
    else match UnescapeLetter(b[0])
      case Some(c) => Escaped([c], 1)
      case None => BadEscaped(BadEscape, |b| - 1)
  }

  /** decodeString on the body of a literal, the bytes between its quotes. */
  function Decode(b: bytes): Decoded
  {
    if b == [] || b[0] == QUOTE then Chars([])
    else if b[0] != BACKSLASH then Prepend([b[0]], Decode(b[1..]))
    else match DecodeEscape(b[1..])
      case Escaped(piece, used) => Prepend(piece, Decode(b[1 + used..]))
      case BadEscaped(e, left) => BadText(e, left)
  }

  lemma DecodeFirst(b: bytes)
    requires b != []
    ensures Decode(b) ==
            if b[0] == QUOTE then Chars([])
            else if b[0] != BACKSLASH then Prepend([b[0]], Decode(b[1..]))
            else match DecodeEscape(b[1..])
              case Escaped(piece, used) => Prepend(piece, Decode(b[1 + used..]))
              case BadEscaped(e, left) => BadText(e, left)
  {
  }

  /** The body of a string token. */
  function Body(text: bytes): bytes
    requires 2 <= |text|
  {
    text[1..|text| - 1]
  }

  // ---------------------------------------------------------------- what the printed literal means

  /** The code point that is read back for a code point that was printed: 21-bit values wrap to 20 bits. */
  function Emitted(cp: nat): nat
  {
    if cp < 0x10000 then cp else 0x10000 + (cp - 0x10000) % 0x100000
  }

  function UnitMeaning(s: bytes, emitUtf8: bool): bytes
    requires s != []
  {
    if emitUtf8 then [s[0]] else CodePointToUtf8(Emitted(Utf8ToCodepoint(s).0))
  }

  /** The string that a reader gets back for `s`. */
  function Repair(s: bytes, emitUtf8: bool): bytes
  {
    if s == [] then [] else UnitMeaning(s, emitUtf8) + Repair(s[Unit(s, emitUtf8).1..], emitUtf8)
  }

  lemma CodepointRange(s: bytes)
    requires s != []
    ensures var cp := Utf8ToCodepoint(s).0;
            cp < 0x200000 && !(0xD800 <= cp <= 0xDFFF) && (cp < 0x80 ==> cp == s[0] && Utf8ToCodepoint(s).1 == 1)
            && (s[0] < 0x80 ==> cp == s[0])
  {
  }

  lemma HexRoundTrip(x: nat, rest: bytes)
    requires x < 0x10000
    ensures DecodeEscapeSequence((HexEscape(x) + rest)[2..]) == CodePoint(x, 4)
    ensures forall i ::
            2 <= i < 6 ==> HexEscape(x)[i] != QUOTE && HexEscape(x)[i] != BACKSLASH && 0x20 <= HexEscape(x)[i] <= 0x7F
  {
    hide Hex2, HexValue, HexDigits;
    var hi, lo := x / 256, x % 256;
    DivMod(hi, 256, 0, hi);
    HexPair(hi);
    HexPair(lo);
    var b := (HexEscape(x) + rest)[2..];
    assert b[0] == Hex2(2 * hi) && b[1] == Hex2(2 * hi + 1) && b[2] == Hex2(2 * lo) && b[3] == Hex2(2 * lo + 1);
    FourDigits(b, hi / 16, hi % 16, lo / 16, lo % 16);
  }

  lemma FourDigits(b: bytes, d0: nat, d1: nat, d2: nat, d3: nat)
    requires |b| >= 4 && HexValue(b[0]) == Some(d0) && HexValue(b[1]) == Some(d1) && HexValue(b[2]) == Some(d2)
             && HexValue(b[3]) == Some(d3)
    ensures HexDigits(b, 0, 0) == CodePoint(((d0 * 16 + d1) * 16 + d2) * 16 + d3, 4)
  {
    hide HexValue;
    assert HexDigits(b, 4, ((d0 * 16 + d1) * 16 + d2) * 16 + d3) == HexDigits(b, 3, (d0 * 16 + d1) * 16 + d2);
    assert HexDigits(b, 2, d0 * 16 + d1) == HexDigits(b, 1, d0);
  }

  lemma HexPair(n: nat)
    requires n < 256
    ensures HexValue(Hex2(2 * n)) == Some(n / 16) && HexValue(Hex2(2 * n + 1)) == Some(n % 16)
    ensures n / 16 * 16 + n % 16 == n
    ensures forall i ::
            i == 2 * n || i == 2 * n + 1 ==> Hex2(i) != QUOTE && Hex2(i) != BACKSLASH && 0x20 <= Hex2(i) <= 0x7F
  {
    DivMod(2 * n + 1, 2, n, 1);
  }

  /** A hexadecimal escape outside the high surrogates decodes on its own. */
  lemma DecodeHexEscape(x: nat, rest: bytes)
    requires x < 0x10000 && !(0xD800 <= x <= 0xDBFF)
    ensures Decode(HexEscape(x) + rest) == Prepend(CodePointToUtf8(x), Decode(rest))
  {
    HexRoundTrip(x, rest);
    var b := HexEscape(x) + rest;
    assert b[2..][4..] == rest && b[6..] == rest;
    assert DecodeCodePoint(b[2..]) == CodePoint(x, 4);
  }

  /** Two escapes of a surrogate pair decode to one code point (section 7 of RFC 8259). */
  lemma DecodeSurrogatePair(d: nat, rest: bytes)
    requires d < 0x200000
    ensures Decode(HexEscape(0xD800 + d / 1024 % 1024) + HexEscape(0xDC00 + d % 1024) + rest) ==
            Prepend(CodePointToUtf8(0x10000 + d % 0x100000), Decode(rest))
  {
    hide Decode, DecodeEscapeSequence, CodePointToUtf8, Hex2;
    var hi, lo := 0xD800 + d / 1024 % 1024, 0xDC00 + d % 1024;
    HexRoundTrip(hi, HexEscape(lo) + rest);
    HexRoundTrip(lo, rest);
    SurrogateArithmetic(d);
    PairDecodes(HexEscape(hi), HexEscape(lo), hi, lo, rest);
  }

  lemma PairDecodes(h: bytes, l: bytes, hi: nat, lo: nat, rest: bytes)
    requires |h| == |l| == 6 && h[0] == l[0] == BACKSLASH && h[1] == l[1] == LETTER_U
    requires 0xD800 <= hi <= 0xDBFF
    requires DecodeEscapeSequence((h + (l + rest))[2..]) == CodePoint(hi, 4)
    requires DecodeEscapeSequence((l + rest)[2..]) == CodePoint(lo, 4)
    ensures Decode(h + l + rest) ==
            Prepend(CodePointToUtf8(0x10000 + hi % 1024 * 1024 + lo % 1024), Decode(rest))
  {
    hide DecodeEscapeSequence, CodePointToUtf8, Prepend;
    var b := h + l + rest;
    assert b == h + (l + rest);
    assert b[2..][4..] == l + rest;
    assert DecodeCodePoint(b[2..]) == CodePoint(0x10000 + hi % 1024 * 1024 + lo % 1024, 10);
    assert b[12..] == rest;
  }

  lemma SurrogateArithmetic(d: nat)
    ensures (0xD800 + d / 1024 % 1024) % 1024 * 1024 + (0xDC00 + d % 1024) % 1024 == d % 0x100000
    ensures d % 0x100000 / 1024 == d / 1024 % 1024 && d % 0x100000 % 1024 == d % 1024
  {
    var hi, lo := d / 1024 % 1024, d % 1024;
    var top := d / 1024 / 1024;
    assert d == top * 0x100000 + hi * 1024 + lo;
    DivMod(d, 0x100000, top, hi * 1024 + lo);
    DivMod(hi * 1024 + lo, 1024, hi, lo);
    DivMod(0xD800 + hi, 1024, 54, hi);
    DivMod(0xDC00 + lo, 1024, 55, lo);
  }

  lemma AsciiCodepoint(cp: nat)
    requires cp < 0x80
    ensures CodePointToUtf8(cp) == [cp]
  {
  }

  lemma DecodeCodepointEscape(cp: nat, rest: bytes)
    requires cp < 0x200000 && !(0xD800 <= cp <= 0xDFFF) && ShortEscape(cp).None?
    ensures Decode(EscapeCodepoint(cp) + rest) == Prepend(CodePointToUtf8(Emitted(cp)), Decode(rest))
  {
    hide HexEscape, CodePointToUtf8, DecodeCodePoint, UnescapeLetter, Prepend;
    if cp < 0x20 || 0x80 <= cp < 0x10000 {
      DecodeHexEscape(cp, rest);
    } else if cp < 0x80 {
      AsciiCodepoint(cp);
      assert ([cp] + rest)[1..] == rest;
    } else {
      DecodeSurrogatePair(cp - 0x10000, rest);
    }
  }

  lemma DecodePlain(c: byte, rest: bytes)
    requires c != QUOTE && c != BACKSLASH
    ensures Decode([c] + rest) == Prepend([c], Decode(rest))
  {
    assert ([c] + rest)[1..] == rest;
  }

  lemma DecodeShortEscape(c: byte, rest: bytes)
    requires ShortEscape(c).Some?
    ensures Decode([BACKSLASH, ShortEscape(c).value] + rest) == Prepend([c], Decode(rest))
  {
    hide Decode, DecodeCodePoint;
    var b := [BACKSLASH, ShortEscape(c).value] + rest;
    DecodeFirst(b);
    assert b[1..][0] == ShortEscape(c).value && b[2..] == rest;
  }

  lemma DecodeUnit(s: bytes, emitUtf8: bool, rest: bytes)
    requires s != []
    ensures Decode(Unit(s, emitUtf8).0 + rest) == Prepend(UnitMeaning(s, emitUtf8), Decode(rest))
  {
    hide Decode, HexEscape, EscapeCodepoint, Utf8ToCodepoint, CodePointToUtf8;
    CodepointRange(s);
    if s[0] < 0x80 {
      AsciiCodepoint(s[0]);
    }
    if ShortEscape(s[0]).Some? {
      DecodeShortEscape(s[0], rest);
    } else if !emitUtf8 {
      DecodeCodepointEscape(Utf8ToCodepoint(s).0, rest);
    } else if s[0] < 0x20 {
      DecodeHexEscape(s[0], rest);
    } else {
      DecodePlain(s[0], rest);
    }
  }

  /** Decoding what was printed gives the repaired string. */
  lemma {:induction false} DecodeEscaped(s: bytes, emitUtf8: bool)
    ensures Decode(Escape(s, emitUtf8)) == Chars(Repair(s, emitUtf8))
  {
    if s != [] {
      var (_, n) := Unit(s, emitUtf8);
      DecodeUnit(s, emitUtf8, Escape(s[n..], emitUtf8));
      DecodeEscaped(s[n..], emitUtf8);
    }
  }

  // ---------------------------------------------------------------- where the literal ends

  predicate Plain(c: byte) { c != QUOTE && c != BACKSLASH }

  lemma {:induction false} ScanPlain(doc: bytes, p: nat, n: nat)
    requires p + n <= |doc| && forall i :: p <= i < p + n ==> Plain(doc[i])
    ensures ScanString(doc, p, QUOTE) == ScanString(doc, p + n, QUOTE)
    decreases n
  {
    if n > 0 {
      ScanPlain(doc, p + 1, n - 1);
    }
  }

  lemma ScanHexEscape(doc: bytes, p: nat, x: nat)
    requires x < 0x10000 && p + 6 <= |doc| && doc[p..p + 6] == HexEscape(x)
    ensures ScanString(doc, p, QUOTE) == ScanString(doc, p + 6, QUOTE)
  {
    HexRoundTrip(x, []);
    assert forall i :: p <= i < p + 6 ==> doc[i] == HexEscape(x)[i - p];
    ScanPlain(doc, p + 2, 4);
  }

  lemma ScanUnit(doc: bytes, p: nat, s: bytes, emitUtf8: bool)
    requires s != [] && p + |Unit(s, emitUtf8).0| <= |doc| && doc[p..p + |Unit(s, emitUtf8).0|] == Unit(s, emitUtf8).0
    ensures ScanString(doc, p, QUOTE) == ScanString(doc, p + |Unit(s, emitUtf8).0|, QUOTE)
  {
    var u := Unit(s, emitUtf8).0;
    CodepointRange(s);
    if ShortEscape(s[0]).Some? || (emitUtf8 && 0x20 <= s[0]) {
      assert forall i :: p <= i < p + |u| ==> doc[i] == u[i - p];
    } else if emitUtf8 {
      ScanHexEscape(doc, p, s[0]);
    } else {
      ScanCodepoint(doc, p, Utf8ToCodepoint(s).0);
    }
  }

  lemma ScanCodepoint(doc: bytes, p: nat, cp: nat)
    requires cp < 0x200000 && ShortEscape(cp).None?
    requires p + |EscapeCodepoint(cp)| <= |doc| && doc[p..p + |EscapeCodepoint(cp)|] == EscapeCodepoint(cp)
    ensures ScanString(doc, p, QUOTE) == ScanString(doc, p + |EscapeCodepoint(cp)|, QUOTE)
  {
    var u := EscapeCodepoint(cp);
    if cp < 0x20 || 0x80 <= cp < 0x10000 {
      ScanHexEscape(doc, p, cp);
    } else if cp < 0x80 {
      assert doc[p] == u[0];
    } else {
      var hi, lo := 0xD800 + (cp - 0x10000) / 1024 % 1024, 0xDC00 + (cp - 0x10000) % 1024;
      ScanTwo(doc, p, hi, lo);
    }
  }

  lemma ScanTwo(doc: bytes, p: nat, hi: nat, lo: nat)
    requires hi < 0x10000 && lo < 0x10000 && p + 12 <= |doc| && doc[p..p + 12] == HexEscape(hi) + HexEscape(lo)
    ensures ScanString(doc, p, QUOTE) == ScanString(doc, p + 12, QUOTE)
  {
    assert doc[p..p + 6] == doc[p..p + 12][..6] == HexEscape(hi);
    assert doc[p + 6..p + 12] == doc[p..p + 12][6..] == HexEscape(lo);
    ScanHexEscape(doc, p, hi);
    ScanHexEscape(doc, p + 6, lo);
  }

  lemma {:induction false} ScanEscaped(doc: bytes, p: nat, s: bytes, emitUtf8: bool)
    requires var e := Escape(s, emitUtf8); p + |e| < |doc| && doc[p..p + |e|] == e && doc[p + |e|] == QUOTE
    ensures ScanString(doc, p, QUOTE) == (true, p + |Escape(s, emitUtf8)| + 1)
    decreases |s|
  {
    hide Unit;
    if s != [] {
      var (u, n) := Unit(s, emitUtf8);
      var e, tail := Escape(s, emitUtf8), Escape(s[n..], emitUtf8);
      assert doc[p..p + |u|] == doc[p..p + |e|][..|u|] == u;
      assert doc[p + |u|..p + |e|] == doc[p..p + |e|][|u|..] == tail;
      ScanUnit(doc, p, s, emitUtf8);
      ScanEscaped(doc, p + |u|, s[n..], emitUtf8);
    }
  }

  // ---------------------------------------------------------------- main results

  lemma SliceOfSlice(doc: bytes, p: nat, q: bytes, i: nat, j: nat)
    requires p + |q| <= |doc| && doc[p..p + |q|] == q && i <= j < |q|
    ensures doc[p + i..p + j] == q[i..j] && doc[p + j] == q[j]
  {
    assert forall k :: i <= k <= j ==> q[k] == doc[p..p + |q|][k] == doc[p + k];
  }

  lemma LiteralParts(doc: bytes, p: nat, e: bytes)
    requires var q := [QUOTE] + e + [QUOTE]; p + |q| <= |doc| && doc[p..p + |q|] == q
    ensures doc[p + 1..p + 1 + |e|] == e && doc[p + 1 + |e|] == QUOTE
    ensures Body([QUOTE] + e + [QUOTE]) == e
  {
    var q := [QUOTE] + e + [QUOTE];
    assert q[1..1 + |e|] == e && q[1 + |e|] == QUOTE;
    SliceOfSlice(doc, p, q, 1, 1 + |e|);
  }

  /** A printed literal is lexed exactly to its closing quote, and its body decodes to the repaired string. */
  lemma LiteralRoundTrip(doc: bytes, p: nat, s: bytes, emitUtf8: bool)
    requires var q := Quoted(s, emitUtf8); p + |q| <= |doc| && doc[p..p + |q|] == q
    ensures ScanString(doc, p + 1, QUOTE) == (true, p + |Quoted(s, emitUtf8)|)
    ensures Decode(Body(Quoted(s, emitUtf8))) == Chars(Repair(s, emitUtf8))
  {
    hide ScanString, Decode, Escape, Repair, Body;
    var e := Escape(s, emitUtf8);
    LiteralParts(doc, p, e);
    ScanEscaped(doc, p + 1, s, emitUtf8);
    DecodeEscaped(s, emitUtf8);
  }

  /** What becomes of any string, unit by unit: a rejected unit turns into U+FFFD, and every other one, well-formed or
      not, into the encoding of the number in its payload bits, of which twenty survive above U+FFFF. */
  lemma RepairExactly(s: bytes)
    requires s != []
    ensures var n := if Complete(s) then LeadLength(s[0]) else 1;
            var cp := if Rejected(s) then 0xFFFD else NumberRead(s);
            Repair(s, false) == CodePointToUtf8(Emitted(cp)) + Repair(s[n..], false)
  {
    hide CodePointToUtf8, Emitted;
    ReadExactly(s);
    CodepointRange(s);
  }

  lemma RepairOne(s: bytes)
    requires Complete(s) && LeadLength(s[0]) == |s|
    ensures Repair(s, false) == CodePointToUtf8(Emitted(if Rejected(s) then 0xFFFD else NumberRead(s)))
  {
    RepairExactly(s);
    assert s[|s|..] == [];
  }

  /** A byte that continues nothing is swallowed by the lead byte before it, be it a parenthesis or a quote. */
  lemma SwallowedByte()
    ensures !WellFormed([0xC3, 0x28]) && Repair([0xC3, 0x28], false) == [0xC3, 0xA8]
    ensures !WellFormed([0xC3, QUOTE]) && Repair([0xC3, QUOTE], false) == [0xC3, 0xA2]
  {
    hide Repair, Utf8ToCodepoint, Payload;
    BadPair(0x28);
    BadPair(QUOTE);
  }

  lemma BadPair(c: byte)
    requires c < 0x40
    ensures !WellFormed([0xC3, c]) && Repair([0xC3, c], false) == [0xC3, 0x80 + c]
  {
    hide Repair, Utf8ToCodepoint, Payload;
    var s: bytes := [0xC3, c];
    assert s[1..2] == [c];
    PayloadUnfolds(3, [c]);
    assert NumberRead(s) == 192 + c;
    RepairOne(s);
  }

  /** A number above U+10FFFF is printed as a surrogate pair of its lower bits. */
  lemma WrappedNumber()
    ensures var s := [0xF4, 0x90, 0x80, 0x80];
            !WellFormed(s) && Utf8ToCodepoint(s) == (0x110000, 4) && Repair(s, false) == CodePointToUtf8(0x10000)
  {
    hide Repair, Payload, CodePointToUtf8;
    var s: bytes := [0xF4, 0x90, 0x80, 0x80];
    assert s[1..4] == [0x90, 0x80, 0x80];
    PayloadUnfolds(4, [0x90, 0x80, 0x80]);
    assert NumberRead(s) == 0x110000;
    RepairOne(s);
  }

  /** The emitUTF8 printer is lossless on every byte string. */
  lemma {:induction false} RepairUtf8(s: bytes)
    ensures Repair(s, true) == s
  {
    if s != [] {
      RepairUtf8(s[1..]);
    }
  }

  /** The ASCII printer is lossless exactly on well-formed UTF-8. */
  lemma {:induction false} RepairWellFormed(s: bytes)
    requires WellFormed(s)
    ensures Repair(s, false) == s
  {
    if s != [] {
      WellFormedUnit(s);
      RepairWellFormed(s[UnitLength(s)..]);
    }
  }

  lemma WellFormedUnit(s: bytes)
    requires UnitLength(s) > 0
    ensures Unit(s, false).1 == UnitLength(s) && UnitMeaning(s, false) == s[..UnitLength(s)]
  {
    hide CodePointToUtf8, EscapeCodepoint;
    EncodeDecode(s);
    CodepointRange(s);
  }

  lemma {:induction false} RepairIsWellFormed(s: bytes)
    ensures WellFormed(Repair(s, false))
  {
    if s != [] {
      var rest := s[Unit(s, false).1..];
      RepairIsWellFormed(rest);
      CodepointRange(s);
      var cp := Emitted(Utf8ToCodepoint(s).0);
      DecodeEncode(cp, Repair(rest, false));
      assert (CodePointToUtf8(cp) + Repair(rest, false))[|CodePointToUtf8(cp)|..] == Repair(rest, false);
    }
  }

  /** The ASCII printer loses something from every string that is not well-formed UTF-8. */
  lemma LosslessExactlyOnWellFormed(s: bytes)
    ensures Decode(Escape(s, false)) == Chars(s) <==> WellFormed(s)
  {
    DecodeEscaped(s, false);
    RepairIsWellFormed(s);
    if WellFormed(s) {
      RepairWellFormed(s);
    }
  }

  /** Printing the repaired string prints the same literal: sanitising twice changes nothing. */
  lemma {:induction false} EscapeRepair(s: bytes)
    ensures Escape(Repair(s, false), false) == Escape(s, false)
  {
    if s != [] {
      var rest := s[Unit(s, false).1..];
      EscapeRepair(rest);
      CodepointRange(s);
      var cp := Emitted(Utf8ToCodepoint(s).0);
      var e, tail := CodePointToUtf8(cp), Repair(rest, false);
      DecodeEncode(cp, tail);
      UnitAgain(s, e + tail);
      assert (e + tail)[|e|..] == tail;
    }
  }

  lemma UnitAgain(s: bytes, t: bytes)
    requires s != [] && t != []
    requires Utf8ToCodepoint(t) == (Emitted(Utf8ToCodepoint(s).0), |CodePointToUtf8(Emitted(Utf8ToCodepoint(s).0))|)
    ensures Unit(t, false) == (Unit(s, false).0, |CodePointToUtf8(Emitted(Utf8ToCodepoint(s).0))|)
  {
    CodepointRange(s);
    CodepointRange(t);
    EscapeEmitted(Utf8ToCodepoint(s).0);
  }

  lemma EscapeEmitted(cp: nat)
    requires cp < 0x200000
    ensures Emitted(cp) < 0x110000 && EscapeCodepoint(Emitted(cp)) == EscapeCodepoint(cp)
  {
    hide HexEscape;
    if cp >= 0x10000 {
      var d := cp - 0x10000;
      SurrogateArithmetic(d);
      DivMod(d % 0x100000 / 1024, 1024, 0, d / 1024 % 1024);
    }
  }

  /** Only printable ASCII and DEL are emitted, and at most six bytes for each byte read. */
  lemma {:induction false} EscapeIsAscii(s: bytes)
    ensures forall i :: 0 <= i < |Escape(s, false)| ==> 0x20 <= Escape(s, false)[i] <= 0x7F
    ensures |Quoted(s, false)| <= 6 * |s| + 2
  {
    if s != [] {
      UnitIsAscii(s);
      EscapeIsAscii(s[Unit(s, false).1..]);
    }
  }

  lemma UnitIsAscii(s: bytes)
    requires s != []
    ensures var (u, n) := Unit(s, false); |u| <= 6 * n && forall i :: 0 <= i < |u| ==> 0x20 <= u[i] <= 0x7F
  {
    hide EscapeCodepoint;
    CodepointRange(s);
    if ShortEscape(s[0]).None? {
      EscapeCodepointIsAscii(Utf8ToCodepoint(s).0);
      if 0x10000 <= Utf8ToCodepoint(s).0 {
        WideUnits(s);
      }
    }
  }

  lemma WideUnits(s: bytes)
    requires s != [] && 0x10000 <= Utf8ToCodepoint(s).0
    ensures 4 == Utf8ToCodepoint(s).1
  {
  }

  lemma EscapeCodepointIsAscii(cp: nat)
    requires cp < 0x200000 && !(0xD800 <= cp <= 0xDFFF)
    ensures var u := EscapeCodepoint(cp);
            |u| <= (if cp < 0x10000 then 6 else 12) && forall i :: 0 <= i < |u| ==> 0x20 <= u[i] <= 0x7F
  {
    if cp < 0x20 || 0x80 <= cp < 0x10000 {
      HexRoundTrip(cp, []);
    } else if 0x10000 <= cp {
      HexRoundTrip(0xD800 + (cp - 0x10000) / 1024 % 1024, []);
      HexRoundTrip(0xDC00 + (cp - 0x10000) % 1024, []);
    }
  }
}
