/** String literals as section 7 of RFC 8259 has them, whoever wrote them: what the reader makes of every escape. */
module StringSyntax {
  import opened Arithmetic
  import opened ByteStrings
  import opened Wrappers
  import opened Utf8
  import opened Quoting

  // ---------------------------------------------------------------- hexadecimal digits

  const LOWER: string := "0123456789abcdef"
  const UPPER: string := "0123456789ABCDEF"

  /** The place of a digit in either row is its value. */
  predicate IsHex(c: byte, v: nat)
  {
    v < 16 && (c == LOWER[v] as int || c == UPPER[v] as int)
  }

  lemma HexValueExactly(c: byte, v: nat)
    ensures HexValue(c) == Some(v) <==> IsHex(c, v)
  {
  }

  /** Four digits, each in either case, spell a number. */
  predicate SpellsHex(b: bytes, x: nat)
  {
    && |b| == 4 && x < 0x1_0000
    && IsHex(b[0], x / 4096) && IsHex(b[1], x / 256 % 16) && IsHex(b[2], x / 16 % 16) && IsHex(b[3], x % 16)
  }

  lemma FourPlaces(x: nat)
    requires x < 0x1_0000
    ensures ((x / 4096 * 16 + x / 256 % 16) * 16 + x / 16 % 16) * 16 + x % 16 == x
  {
    assert x / 16 / 16 == x / 256 && x / 256 / 16 == x / 4096;
  }

  /** Every spelling of a number decodes to it. */
  lemma EscapeAnyCase(b: bytes, x: nat)
    requires 4 <= |b| && SpellsHex(b[..4], x)
    ensures DecodeEscapeSequence(b) == CodePoint(x, 4)
  {
    hide HexValue, IsHex, HexDigits;
    HexValueExactly(b[0], x / 4096);
    HexValueExactly(b[1], x / 256 % 16);
    HexValueExactly(b[2], x / 16 % 16);
    HexValueExactly(b[3], x % 16);
    FourDigits(b, x / 4096, x / 256 % 16, x / 16 % 16, x % 16);
    FourPlaces(x);
  }

  ghost predicate InARow(c: byte) { exists v: nat :: IsHex(c, v) }

  lemma {:induction false} HexDigitsExactly(b: bytes, i: nat, acc: nat)
    requires i <= 4 <= |b|
    ensures HexDigits(b, i, acc).CodePoint? <==> forall j :: i <= j < 4 ==> InARow(b[j])
    ensures forall j :: i <= j < 4 && !InARow(b[j]) && (forall k :: i <= k < j ==> InARow(b[k]))
              ==> HexDigits(b, i, acc) == BadCodePoint(HexDigitExpected, |b| - j - 1)
    decreases 4 - i
  {
    hide HexValue, IsHex;
    if i < 4 {
      forall v: nat ensures HexValue(b[i]) == Some(v) <==> IsHex(b[i], v) {
        HexValueExactly(b[i], v);
      }
      if HexValue(b[i]).Some? {
        var v := HexValue(b[i]).value;
        assert IsHex(b[i], v);
        HexDigitsExactly(b, i + 1, acc * 16 + v);
      }
    }
  }

  /** The escape fails exactly when there are not four bytes, or one of the four is in neither row; the first such byte
      is the one that is reported. */
  lemma EscapeFailsExactly(b: bytes)
    ensures DecodeEscapeSequence(b).BadCodePoint? <==> |b| < 4 || exists j :: 0 <= j < 4 && !InARow(b[j])
    ensures 4 <= |b| ==>
              forall j :: 0 <= j < 4 && !InARow(b[j]) && (forall k :: 0 <= k < j ==> InARow(b[k]))
                ==> DecodeEscapeSequence(b) == BadCodePoint(HexDigitExpected, |b| - j - 1)
  {
    hide HexDigits, InARow;
    if 4 <= |b| {
      HexDigitsExactly(b, 0, 0);
    }
  }

  // ---------------------------------------------------------------- letters

  const LETTERS: string := "\"\\/bfnrt"
  const MEANINGS: bytes := [0x22, 0x5C, 0x2F, 0x08, 0x0C, 0x0A, 0x0D, 0x09]

  /** Eight letters stand for a byte, a slash for itself among them, and no other. */
  lemma LettersExactly(c: byte, v: byte)
    ensures UnescapeLetter(c) == Some(v) <==> exists i: nat :: i < 8 && c == LETTERS[i] as int && v == MEANINGS[i]
  {
    forall i: nat | i < 8 ensures UnescapeLetter(LETTERS[i] as int) == Some(MEANINGS[i]) {
    }
    if UnescapeLetter(c) == Some(v) {
      var i: nat := if c == 0x22 then 0 else if c == 0x5C then 1 else if c == 0x2F then 2 else if c == 0x62 then 3
                    else if c == 0x66 then 4 else if c == 0x6E then 5 else if c == 0x72 then 6 else 7;
      assert c == LETTERS[i] as int && v == MEANINGS[i];
    }
  }

  /** An escape that means nothing: which error it gives, and how many bytes are left behind the place of the error. */
  lemma EscapeErrors(b: bytes)
    ensures b == [] ==> DecodeEscape(b) == BadEscaped(EmptyEscape, 0)
    ensures b != [] && b[0] != 'u' as int && (forall i: nat :: i < 8 ==> b[0] != LETTERS[i] as int) ==>
              DecodeEscape(b) == BadEscaped(BadEscape, |b| - 1)
    ensures b != [] && b[0] == 'u' as int && |b| < 5 ==> DecodeEscape(b) == BadEscaped(FourDigitsExpected, |b| - 1)
  {
    if b != [] && UnescapeLetter(b[0]).Some? {
      LettersExactly(b[0], UnescapeLetter(b[0]).value);
    }
  }

  /** The second half of a pair: a backslash, a u and four digits. The place of the error is behind the byte that is
      wrong. */
  lemma PairErrors(b: bytes, hi: nat)
    requires DecodeEscapeSequence(b) == CodePoint(hi, 4) && 0xD800 <= hi <= 0xDBFF
    ensures DecodeCodePoint(b).BadCodePoint? <==>
              |b| < 10 || b[4] != '\\' as int || b[5] != 'u' as int || exists j :: 6 <= j < 10 && !InARow(b[j])
    ensures |b| < 10 ==> DecodeCodePoint(b) == BadCodePoint(SixCharactersExpected, |b| - 4)
    ensures |b| >= 10 && b[4] != '\\' as int ==> DecodeCodePoint(b) == BadCodePoint(SecondEscapeExpected, |b| - 5)
    ensures |b| >= 10 && b[4] == '\\' as int && b[5] != 'u' as int ==>
              DecodeCodePoint(b) == BadCodePoint(SecondEscapeExpected, |b| - 6)
  {
    hide HexDigits, InARow;
    if |b| >= 10 {
      var second := b[4..][2..];
      assert forall j :: 6 <= j < 10 ==> b[j] == second[j - 6];
      assert (exists j :: 6 <= j < 10 && !InARow(b[j])) <==> exists j :: 0 <= j < 4 && !InARow(second[j]) by {
        if j :| 0 <= j < 4 && !InARow(second[j]) {
          assert !InARow(b[j + 6]);
        }
      }
      EscapeFailsExactly(second);
    }
  }

  // ---------------------------------------------------------------- whole literals

  /** What a literal is made of: bytes that stand for themselves, letters, and one or two hexadecimal escapes. */
  datatype Piece =
    | Plain(c: byte)
    | Letter(i: nat)
    | Unit(digits: bytes, x: nat)
    | Pair(high: bytes, hi: nat, low: bytes, lo: nat)

  predicate IsPiece(p: Piece)
  {
    match p
    case Plain(c) => c != QUOTE && c != BACKSLASH
    case Letter(i) => i < 8
    case Unit(digits, x) => SpellsHex(digits, x) && !(0xD800 <= x <= 0xDBFF)
    case Pair(high, hi, low, lo) => SpellsHex(high, hi) && 0xD800 <= hi <= 0xDBFF && SpellsHex(low, lo)
  }

  function Written(p: Piece): bytes
    requires IsPiece(p)
  {
    match p
    case Plain(c) => [c]
    case Letter(i) => [BACKSLASH, LETTERS[i] as int]
    case Unit(digits, _) => [BACKSLASH, LETTER_U] + digits
    case Pair(high, _, low, _) => [BACKSLASH, LETTER_U] + high + [BACKSLASH, LETTER_U] + low
  }

  /** A pair stands for ten bits of each half above U+10000; any second half will do. */
  function Meant(p: Piece): bytes
    requires IsPiece(p)
  {
    match p
    case Plain(c) => [c]
    case Letter(i) => [MEANINGS[i]]
    case Unit(_, x) => CodePointToUtf8(x)
    case Pair(_, hi, _, lo) => CodePointToUtf8(0x1_0000 + (hi - 0xD800) * 0x400 + lo % 0x400)
  }

  predicate ArePieces(ps: seq<Piece>) { forall i :: 0 <= i < |ps| ==> IsPiece(ps[i]) }

  function AllWritten(ps: seq<Piece>): bytes
    requires ArePieces(ps)
  {
    if ps == [] then [] else Written(ps[0]) + AllWritten(ps[1..])
  }

  function AllMeant(ps: seq<Piece>): bytes
    requires ArePieces(ps)
  {
    if ps == [] then [] else Meant(ps[0]) + AllMeant(ps[1..])
  }

  lemma PieceDecodes(p: Piece, rest: bytes)
    requires IsPiece(p)
    ensures Decode(Written(p) + rest) == Prepend(Meant(p), Decode(rest))
  {
    hide SpellsHex, CodePointToUtf8, UnescapeLetter, Prepend, DecodeEscapeSequence;
    var b := Written(p) + rest;
    match p
    case Plain(c) =>
      assert b[1..] == rest;
    case Letter(i) =>
      LettersExactly(LETTERS[i] as int, MEANINGS[i]);
      LetterIsNoU(i);
      assert b[1..][1..] == rest && b[2..] == rest;
    case Unit(digits, x) =>
      assert b[2..] == digits + rest && (digits + rest)[..4] == digits && b[6..] == rest by {
        FourBytesLong(digits, x);
      }
      EscapeAnyCase(b[2..], x);
      assert b[1..][1..] == b[2..];
    case Pair(high, hi, low, lo) =>
      PairIsRead(high, hi, low, lo, rest);
  }

  lemma LetterIsNoU(i: nat)
    requires i < 8
    ensures LETTERS[i] as int != LETTER_U
  {
  }

  lemma FourBytesLong(b: bytes, x: nat)
    requires SpellsHex(b, x)
    ensures |b| == 4
  {
  }

  lemma PairIsRead(high: bytes, hi: nat, low: bytes, lo: nat, rest: bytes)
    requires SpellsHex(high, hi) && 0xD800 <= hi <= 0xDBFF && SpellsHex(low, lo)
    ensures Decode([BACKSLASH, LETTER_U] + high + [BACKSLASH, LETTER_U] + low + rest)
            == Prepend(CodePointToUtf8(0x1_0000 + (hi - 0xD800) * 0x400 + lo % 0x400), Decode(rest))
  {
    hide SpellsHex, CodePointToUtf8, Prepend, DecodeEscapeSequence, Decode;
    FourBytesLong(high, hi);
    FourBytesLong(low, lo);
    var h, l := [BACKSLASH, LETTER_U] + high, [BACKSLASH, LETTER_U] + low;
    assert (h + (l + rest))[2..] == high + (l + rest) && (high + (l + rest))[..4] == high;
    assert (l + rest)[2..] == low + rest && (low + rest)[..4] == low;
    EscapeAnyCase((h + (l + rest))[2..], hi);
    EscapeAnyCase((l + rest)[2..], lo);
    PairDecodes(h, l, hi, lo, rest);
    assert h + l + rest == [BACKSLASH, LETTER_U] + high + [BACKSLASH, LETTER_U] + low + rest;
    assert hi % 1024 == hi - 0xD800;
  }

  /** The reader makes of any literal what its pieces mean. */
  lemma {:induction false} PiecesDecode(ps: seq<Piece>)
    requires ArePieces(ps)
    ensures Decode(AllWritten(ps)) == Chars(AllMeant(ps))
  {
    hide Decode, Written, Meant, IsPiece;
    if ps == [] {
      DecodeNothing();
    } else {
      PiecesDecode(ps[1..]);
      PieceDecodes(ps[0], AllWritten(ps[1..]));
    }
  }

  lemma DecodeNothing()
    ensures Decode([]) == Chars([])
  {
  }

  /** Whatever the reader decodes is made of pieces, up to the end or a quote. */
  lemma {:induction false} DecodedArePieces(b: bytes) returns (ps: seq<Piece>, rest: bytes)
    requires Decode(b).Chars?
    ensures ArePieces(ps) && b == AllWritten(ps) + rest && (rest == [] || rest[0] == QUOTE)
    ensures Decode(b) == Chars(AllMeant(ps))
    decreases |b|
  {
    if b == [] || b[0] == QUOTE {
      ps, rest := [], b;
      assert [] + b == b;
    } else {
      hide Decode, Written, Meant, IsPiece, AllWritten, AllMeant, ArePieces;
      var p, n := FirstPiece(b);
      var qs;
      qs, rest := DecodedArePieces(b[n..]);
      ps := [p] + qs;
      OnePieceMore(p, qs, rest);
      assert b == Written(p) + b[n..];
    }
  }

  lemma OnePieceMore(p: Piece, qs: seq<Piece>, rest: bytes)
    requires IsPiece(p) && ArePieces(qs)
    ensures ArePieces([p] + qs) && AllMeant([p] + qs) == Meant(p) + AllMeant(qs)
    ensures AllWritten([p] + qs) + rest == Written(p) + (AllWritten(qs) + rest)
  {
    hide Written, Meant, IsPiece;
    var ps := [p] + qs;
    assert ps[1..] == qs && ps[0] == p;
    assert Written(p) + AllWritten(qs) + rest == Written(p) + (AllWritten(qs) + rest);
  }

  lemma FirstPiece(b: bytes) returns (p: Piece, n: nat)
    requires b != [] && b[0] != QUOTE && Decode(b).Chars?
    ensures IsPiece(p) && 0 < n <= |b| && b[..n] == Written(p) && Decode(b) == Prepend(Meant(p), Decode(b[n..]))
    ensures Decode(b[n..]).Chars?
  {
    hide CodePointToUtf8, UnescapeLetter, HexDigits, SpellsHex;
    DecodeFirst(b);
    if b[0] != BACKSLASH {
      p, n := Plain(b[0]), 1;
    } else if b[1] == LETTER_U {
      p, n := FirstEscape(b);
    } else {
      var v := UnescapeLetter(b[1]).value;
      LettersExactly(b[1], v);
      var i: nat :| i < 8 && b[1] == LETTERS[i] as int && v == MEANINGS[i];
      p, n := Letter(i), 2;
    }
    assert b == b[..n] + b[n..];
    PieceDecodes(p, b[n..]);
  }

  lemma FirstEscape(b: bytes) returns (p: Piece, n: nat)
    requires 2 <= |b| && b[0] == BACKSLASH && b[1] == LETTER_U && Decode(b).Chars?
    ensures IsPiece(p) && 0 < n <= |b| && b[..n] == Written(p)
  {
    hide CodePointToUtf8, UnescapeLetter, HexDigits, SpellsHex, DecodeEscapeSequence;
    DecodeFirst(b);
    assert b[1..][1..] == b[2..];
    assert DecodeCodePoint(b[2..]).CodePoint?;
    var x := HexSpelled(b[2..]);
    assert b[2..][..4] == b[2..6];
    if 0xD800 <= x <= 0xDBFF {
      assert b[2..][4..] == b[6..] && b[6..][2..] == b[8..];
      var y := HexSpelled(b[8..]);
      assert b[8..][..4] == b[8..12];
      p, n := Pair(b[2..6], x, b[8..12], y), 12;
      assert b[..12] == [BACKSLASH, LETTER_U] + b[2..6] + [BACKSLASH, LETTER_U] + b[8..12];
    } else {
      p, n := Unit(b[2..6], x), 6;
      assert b[..6] == [BACKSLASH, LETTER_U] + b[2..6];
    }
  }

  /** What decodes is a spelling of the number it decodes to. */
  lemma HexSpelled(b: bytes) returns (x: nat)
    requires DecodeEscapeSequence(b).CodePoint?
    ensures 4 <= |b| && SpellsHex(b[..4], x) && DecodeEscapeSequence(b) == CodePoint(x, 4)
  {
    hide HexValue, IsHex, HexDigits, SpellsHex;
    HexDigitsExactly(b, 0, 0);
    assert InARow(b[0]) && InARow(b[1]) && InARow(b[2]) && InARow(b[3]);
    var d0: nat :| IsHex(b[0], d0);
    var d1: nat :| IsHex(b[1], d1);
    var d2: nat :| IsHex(b[2], d2);
    var d3: nat :| IsHex(b[3], d3);
    x := ((d0 * 16 + d1) * 16 + d2) * 16 + d3;
    HexOfDigits(b[..4], d0, d1, d2, d3);
    EscapeAnyCase(b, x);
  }

  lemma HexOfDigits(b: bytes, d0: nat, d1: nat, d2: nat, d3: nat)
    requires |b| == 4 && IsHex(b[0], d0) && IsHex(b[1], d1) && IsHex(b[2], d2) && IsHex(b[3], d3)
    ensures SpellsHex(b, ((d0 * 16 + d1) * 16 + d2) * 16 + d3)
  {
    assert d0 < 16 && d1 < 16 && d2 < 16 && d3 < 16;
    hide IsHex;
    PlacesOf(((d0 * 16 + d1) * 16 + d2) * 16 + d3, d0, d1, d2, d3);
  }

  lemma PlacesOf(x: nat, d0: nat, d1: nat, d2: nat, d3: nat)
    requires d0 < 16 && d1 < 16 && d2 < 16 && d3 < 16 && x == 4096 * d0 + 256 * d1 + 16 * d2 + d3
    ensures x < 0x1_0000 && x / 4096 == d0 && x / 256 % 16 == d1 && x / 16 % 16 == d2 && x % 16 == d3
  {
    DivMod(x, 4096, d0, 256 * d1 + 16 * d2 + d3);
    DivMod(x, 256, 16 * d0 + d1, 16 * d2 + d3);
    DivMod(16 * d0 + d1, 16, d0, d1);
    DivMod(x, 16, 256 * d0 + 16 * d1 + d2, d3);
    DivMod(256 * d0 + 16 * d1 + d2, 16, 16 * d0 + d1, d2);
  }

  // ---------------------------------------------------------------- printing

  /** The printer writes hexadecimal escapes with four digits of the lower row. */
  lemma HexEscapeExactly(x: nat)
    requires x < 0x1_0000
    ensures HexEscape(x) == ['\\' as int, 'u' as int, LOWER[x / 4096] as int, LOWER[x / 256 % 16] as int,
                             LOWER[x / 16 % 16] as int, LOWER[x % 16] as int]
  {
    hide Hex2;
    HexTable(x / 256);
    HexTable(x % 256);
    FourDigitsOf(x);
  }

  lemma FourDigitsOf(x: nat)
    requires x < 0x1_0000
    ensures x / 256 % 256 == x / 256 < 256
    ensures x / 4096 == x / 256 / 16 && x / 16 % 16 == x % 256 / 16 && x % 16 == x % 256 % 16
  {
    var a, b, c, d := x / 256 / 16, x / 256 % 16, x % 256 / 16, x % 256 % 16;
    assert x == 4096 * a + 256 * b + 16 * c + d;
    DivMod(x, 4096, a, 256 * b + 16 * c + d);
    DivMod(x, 16, 256 * a + 16 * b + c, d);
    DivMod(256 * a + 16 * b + c, 16, 16 * a + b, c);
  }

  lemma DigitTable(n: nat)
    requires n < 16
    ensures HexDigit(n) == LOWER[n] as int
  {
  }

  lemma HexTable(k: nat)
    requires k < 256
    ensures Hex2(2 * k) == LOWER[k / 16] as int && Hex2(2 * k + 1) == LOWER[k % 16] as int
  {
    hide HexDigit;
    DivMod(2 * k + 1, 2, k, 1);
    DivMod(2 * k, 2, k, 0);
    DigitTable(k / 16);
    DigitTable(k % 16);
    assert k / 16 % 16 == k / 16;
  }

  /** What the printer writes for the next character: a letter for the seven that have one, but none for the slash; an
      escape for the other control characters; the byte itself for the rest of ASCII, and for every other byte when
      UTF-8 is kept; else one escape, or two for what lies above U+FFFF. */
  lemma PrintedExactly(s: bytes, emitUtf8: bool)
    requires s != []
    ensures var (text, used) := Quoting.Unit(s, emitUtf8);
            var (cp, read) := Utf8ToCodepoint(s);
            if exists i: nat :: i < 8 && i != 2 && s[0] == MEANINGS[i]
            then used == 1 && exists i: nat :: i < 8 && s[0] == MEANINGS[i] && text == ['\\' as int, LETTERS[i] as int]
            else if s[0] < 32 then used == 1 && text == HexEscape(s[0])
            else if s[0] < 128 || emitUtf8 then used == 1 && text == [s[0]]
            else used == read && text == if cp < 128 then [cp] else if cp <= 0xFFFF then HexEscape(cp)
              else HexEscape(0xD800 + (cp - 0x1_0000) / 1024 % 1024) + HexEscape(0xDC00 + (cp - 0x1_0000) % 1024)
  {
    hide HexEscape, Utf8ToCodepoint;
    CodepointRange(s);
    if ShortEscape(s[0]).Some? {
      var i: nat := if s[0] == 0x22 then 0 else if s[0] == 0x5C then 1 else if s[0] == 0x08 then 3
                    else if s[0] == 0x0C then 4 else if s[0] == 0x0A then 5 else if s[0] == 0x0D then 6 else 7;
      assert s[0] == MEANINGS[i] && ShortEscape(s[0]) == Some(LETTERS[i] as int);
    }
  }
}
