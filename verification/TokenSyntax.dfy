/** The other tokens of the reader, by their characters: white space, punctuation, keywords, comments, strings
    and the byte order mark. */
module TokenSyntax {
  import opened ByteStrings
  import opened Quoting
  import opened StringSyntax
  import opened Lexer
  import opened NumberSyntax
  import Utf8
  import opened Values
  import opened Parser

  lemma SpacesExactly(c: byte)
    ensures IsSpace(c) <==> c in {' ' as int, '\t' as int, '\r' as int, '\n' as int}
  {
  }

  lemma PunctuationExactly(doc: bytes, f: Features, p: nat)
    requires p < |doc|
    ensures var t := TokenAt(doc, f, p);
            && (t == Token(ObjectBegin, p, p + 1) <==> doc[p] == '{' as int)
            && (t == Token(ObjectEnd, p, p + 1) <==> doc[p] == '}' as int)
            && (t == Token(ArrayBegin, p, p + 1) <==> doc[p] == '[' as int)
            && (t == Token(ArrayEnd, p, p + 1) <==> doc[p] == ']' as int)
            && (t == Token(ArraySeparator, p, p + 1) <==> doc[p] == ',' as int)
            && (t == Token(MemberSeparator, p, p + 1) <==> doc[p] == ':' as int)
  {
    hide ScanString, ReadComment, NumberEnd, Match;
  }

  // ---------------------------------------------------------------- keywords

  lemma Matches(doc: bytes, p: nat, first: byte, rest: bytes, text: bytes)
    requires p < |doc| && text == [first] + rest
    ensures Stands(doc, p, text) <==> doc[p] == first && Match(doc, p + 1, rest)
  {
    if Stands(doc, p, text) {
      assert doc[p] == doc[p..p + |text|][0];
      assert doc[p + 1..p + |text|] == doc[p..p + |text|][1..] == rest;
    }
    if doc[p] == first && Match(doc, p + 1, rest) {
      assert doc[p..p + |text|] == [doc[p]] + doc[p + 1..p + |text|];
    }
  }

  lemma KeywordTexts()
    ensures Ascii("true") == [0x74] + RUE && Ascii("false") == [0x66] + ALSE && Ascii("null") == [0x6E] + ULL
    ensures Ascii("NaN") == [0x4E] + AN && Ascii("Infinity") == [LETTER_I] + NFINITY
  {
  }

  /** A keyword token is found exactly where its text stands, and is as long as that. */
  lemma KeywordsExactly(doc: bytes, f: Features, p: nat)
    requires p < |doc|
    ensures TokenAt(doc, f, p).kind == True <==> Stands(doc, p, Ascii("true"))
    ensures TokenAt(doc, f, p).kind == False <==> Stands(doc, p, Ascii("false"))
    ensures TokenAt(doc, f, p).kind == NullToken <==> Stands(doc, p, Ascii("null"))
    ensures TokenAt(doc, f, p).kind == NaN <==> f.allowSpecialFloats && Stands(doc, p, Ascii("NaN"))
    ensures var t := TokenAt(doc, f, p);
            && (t.kind == True || t.kind == NullToken ==> t.end == p + 4)
            && (t.kind == False ==> t.end == p + 5) && (t.kind == NaN ==> t.end == p + 3)
  {
    hide ScanString, ReadComment, NumberEnd, Match;
    KeywordTexts();
    Matches(doc, p, 0x74, RUE, Ascii("true"));
    Matches(doc, p, 0x66, ALSE, Ascii("false"));
    Matches(doc, p, 0x6E, ULL, Ascii("null"));
    Matches(doc, p, 0x4E, AN, Ascii("NaN"));
  }

  lemma InfinitiesExactly(doc: bytes, f: Features, p: nat)
    requires p < |doc|
    ensures TokenAt(doc, f, p).kind == PosInf <==>
              f.allowSpecialFloats && (Stands(doc, p, Ascii("Infinity")) || Stands(doc, p, Ascii("+Infinity")))
    ensures TokenAt(doc, f, p).kind == NegInf <==> f.allowSpecialFloats && Stands(doc, p, Ascii("-Infinity"))
  {
    hide ScanString, ReadComment, NumberEnd, Match, Stands;
    KeywordTexts();
    Matches(doc, p, LETTER_I, NFINITY, Ascii("Infinity"));
    SignedInfinity(doc, p, PLUS, Ascii("+Infinity"));
    SignedInfinity(doc, p, MINUS, Ascii("-Infinity"));
  }

  lemma SignedInfinity(doc: bytes, p: nat, sign: byte, text: bytes)
    requires p < |doc| && text == [sign] + Ascii("Infinity")
    ensures Stands(doc, p, text) <==>
            doc[p] == sign && p + 1 < |doc| && doc[p + 1] == LETTER_I && Match(doc, p + 2, NFINITY)
  {
    hide Match;
    KeywordTexts();
    MatchIsStands(doc, p + 1, Ascii("Infinity"));
    Matches(doc, p, sign, Ascii("Infinity"), text);
    if p + 1 < |doc| {
      Matches(doc, p + 1, LETTER_I, NFINITY, Ascii("Infinity"));
    } else {
      assert !Stands(doc, p + 1, Ascii("Infinity"));
    }
  }

  lemma MatchIsStands(doc: bytes, p: nat, text: bytes)
    requires p <= |doc|
    ensures Match(doc, p, text) <==> Stands(doc, p, text)
  {
  }

  // ---------------------------------------------------------------- comments

  predicate OneLine(b: bytes) { forall i :: 0 <= i < |b| ==> b[i] !in {'\r' as int, '\n' as int} }

  /** The end of the line at `p`: nothing at the end of the document, else LF, CR LF or CR. */
  function LineEnd(doc: bytes, p: nat): nat
    requires p <= |doc|
  {
    if p == |doc| then p else if Stands(doc, p, Ascii("\r\n")) then p + 2 else p + 1
  }

  lemma {:induction false} LineIsRead(doc: bytes, p: nat, body: bytes)
    requires Stands(doc, p, body) && OneLine(body)
    requires var q := p + |body|; q == |doc| || doc[q] in {'\r' as int, '\n' as int}
    ensures CppStyleComment(doc, p) == LineEnd(doc, p + |body|)
    decreases |body|
  {
    if body == [] {
      assert p + 2 <= |doc| ==> doc[p..p + 2] == [doc[p], doc[p + 1]];
      assert Ascii("\r\n") == [CR, LF];
    } else {
      assert doc[p] == doc[p..p + |body|][0];
      assert doc[p + 1..p + |body|] == doc[p..p + |body|][1..];
      LineIsRead(doc, p + 1, body[1..]);
    }
  }

  /** A line comment ends after its line, however the line ends. */
  lemma LineComment(doc: bytes, f: Features, p: nat, body: bytes)
    requires Stands(doc, p, Ascii("//") + body) && OneLine(body)
    requires var q := p + 2 + |body|; q == |doc| || doc[q] in {'\r' as int, '\n' as int}
    ensures p < |doc| && TokenAt(doc, f, p) == Token(Comment, p, LineEnd(doc, p + 2 + |body|))
  {
    StandsInParts(doc, p, Ascii("//"), body);
    assert doc[p] == doc[p..p + 2][0] == SLASH && doc[p + 1] == doc[p..p + 2][1] == SLASH;
    LineIsRead(doc, p + 2, body);
  }

  predicate NoClose(b: bytes) { forall i :: 0 <= i < |b| - 1 ==> !(b[i] == '*' as int && b[i + 1] == '/' as int) }

  lemma NoCloseInside(b: bytes)
    requires b != [] && NoClose(b)
    ensures NoClose(b[1..])
  {
    forall i | 0 <= i < |b| - 2 ensures !(b[1..][i] == '*' as int && b[1..][i + 1] == '/' as int) {
      assert b[1..][i] == b[i + 1] && b[1..][i + 1] == b[i + 2];
    }
  }

  lemma {:induction false} BlockIsRead(doc: bytes, p: nat, body: bytes)
    requires Stands(doc, p, body + Ascii("*/")) && NoClose(body + ['*' as int])
    ensures CStyleComment(doc, p) == (true, p + |body| + 2)
    decreases |body|
  {
    var text := body + Ascii("*/");
    assert doc[p] == doc[p..p + |text|][0] && doc[p + 1] == doc[p..p + |text|][1];
    if body != [] {
      assert doc[p + 1..p + |text|] == doc[p..p + |text|][1..] == body[1..] + Ascii("*/");
      assert (body + ['*' as int])[0] == text[0] && (body + ['*' as int])[1] == text[1];
      assert body[1..] + ['*' as int] == (body + ['*' as int])[1..];
      NoCloseInside(body + ['*' as int]);
      BlockIsRead(doc, p + 1, body[1..]);
    }
  }

  /** A block comment ends at the first closing mark behind its opening. */
  lemma BlockComment(doc: bytes, f: Features, p: nat, body: bytes)
    requires Stands(doc, p, Ascii("/*") + (body + Ascii("*/"))) && NoClose(body + ['*' as int])
    ensures p < |doc| && TokenAt(doc, f, p) == Token(Comment, p, p + |body| + 4)
  {
    StandsInParts(doc, p, Ascii("/*"), body + Ascii("*/"));
    assert doc[p] == doc[p..p + 2][0] == SLASH && doc[p + 1] == doc[p..p + 2][1] == STAR;
    BlockIsRead(doc, p + 2, body);
  }

  // ---------------------------------------------------------------- strings

  lemma PieceScanned(doc: bytes, p: nat, piece: Piece)
    requires IsPiece(piece) && Stands(doc, p, Written(piece))
    ensures ScanString(doc, p, QUOTE) == ScanString(doc, p + |Written(piece)|, QUOTE)
  {
    hide IsHex;
    var text := Written(piece);
    assert forall i :: p <= i < p + |text| ==> doc[i] == text[i - p];
    match piece
    case Plain(c) =>
    case Letter(i) =>
    case Unit(digits, x) =>
      FourScanned(doc, p + 2, digits, x);
    case Pair(high, hi, low, lo) =>
      FourBytesLong(high, hi);
      FourBytesLong(low, lo);
      FourScanned(doc, p + 2, high, hi);
      FourScanned(doc, p + 8, low, lo);
  }

  lemma FourScanned(doc: bytes, p: nat, digits: bytes, x: nat)
    requires SpellsHex(digits, x) && p + 4 <= |doc| && forall i :: p <= i < p + 4 ==> doc[i] == digits[i - p]
    ensures ScanString(doc, p, QUOTE) == ScanString(doc, p + 4, QUOTE)
  {
    forall i | p <= i < p + 4 ensures doc[i] != QUOTE && doc[i] != BACKSLASH {
      HexIsPlain(doc[i]);
    }
    hide IsHex;
    assert ScanString(doc, p, QUOTE) == ScanString(doc, p + 1, QUOTE) == ScanString(doc, p + 2, QUOTE);
    assert ScanString(doc, p + 2, QUOTE) == ScanString(doc, p + 3, QUOTE) == ScanString(doc, p + 4, QUOTE);
  }

  lemma HexIsPlain(c: byte)
    ensures InARow(c) ==> c != QUOTE && c != BACKSLASH
  {
  }

  lemma {:induction false} PiecesScanned(doc: bytes, p: nat, ps: seq<Piece>)
    requires ArePieces(ps) && Stands(doc, p, AllWritten(ps) + Ascii("\""))
    ensures ScanString(doc, p, QUOTE) == (true, p + |AllWritten(ps)| + 1)
    decreases ps
  {
    hide ScanString, Written, IsPiece;
    if ps == [] {
      assert AllWritten(ps) + Ascii("\"") == Ascii("\"");
      assert doc[p] == doc[p..p + 1][0];
      QuoteScanned(doc, p);
    } else {
      var head, tail := Written(ps[0]), AllWritten(ps[1..]) + Ascii("\"");
      assert AllWritten(ps) + Ascii("\"") == head + tail;
      StandsInParts(doc, p, head, tail);
      PieceScanned(doc, p, ps[0]);
      PiecesScanned(doc, p + |head|, ps[1..]);
    }
  }

  lemma QuoteScanned(doc: bytes, p: nat)
    requires p < |doc| && doc[p] == QUOTE
    ensures ScanString(doc, p, QUOTE) == (true, p + 1)
  {
  }

  /** A literal made of pieces between quotes is one token, wherever it stands. */
  lemma StringToken(doc: bytes, f: Features, p: nat, ps: seq<Piece>)
    requires ArePieces(ps) && Stands(doc, p, Ascii("\"") + (AllWritten(ps) + Ascii("\"")))
    ensures p < |doc| && TokenAt(doc, f, p) == Token(String, p, p + |AllWritten(ps)| + 2)
  {
    hide ScanString, Written, IsPiece;
    StandsInParts(doc, p, Ascii("\""), AllWritten(ps) + Ascii("\""));
    assert doc[p] == doc[p..p + 1][0] == QUOTE;
    PiecesScanned(doc, p + 1, ps);
  }

  lemma {:induction false} SingleScanned(doc: bytes, p: nat, body: bytes)
    requires Stands(doc, p, body + Ascii("'")) && forall i :: 0 <= i < |body| ==> body[i] !in Ascii("'\\")
    ensures ScanString(doc, p, APOSTROPHE) == (true, p + |body| + 1)
    decreases |body|
  {
    var text := body + Ascii("'");
    assert doc[p] == doc[p..p + |text|][0];
    if body == [] {
      assert doc[p] == APOSTROPHE;
    } else {
      assert body[0] != Ascii("'\\")[0] && body[0] != Ascii("'\\")[1];
      assert doc[p + 1..p + |text|] == doc[p..p + |text|][1..] == body[1..] + Ascii("'");
      SingleScanned(doc, p + 1, body[1..]);
    }
  }

  /** Single quotes are string quotes only when they are allowed. */
  lemma SingleQuotes(doc: bytes, f: Features, p: nat, body: bytes)
    requires Stands(doc, p, Ascii("'") + (body + Ascii("'")))
    requires forall i :: 0 <= i < |body| ==> body[i] !in Ascii("'\\")
    ensures p < |doc|
    ensures TokenAt(doc, f, p) ==
            if f.allowSingleQuotes then Token(String, p, p + |body| + 2) else Token(Error, p, p + 1)
  {
    hide ScanString;
    StandsInParts(doc, p, Ascii("'"), body + Ascii("'"));
    assert doc[p] == doc[p..p + 1][0] == APOSTROPHE;
    SingleScanned(doc, p + 1, body);
  }

  // ---------------------------------------------------------------- what tokens stand for

  /** A double of 64 bits from its sign, its exponent and its fraction. */
  function DoubleBits(negative: bool, exponent: nat, fraction: nat): nat
  {
    (if negative then 9223372036854775808 else 0) + exponent * 4503599627370496 + fraction
  }

  /** The keywords stand for their values: the infinities have the greatest exponent and no fraction, and the quiet NaN
      the top bit of the fraction. */
  lemma KeywordValues(x: Context, t: Token, cur: Value)
    requires t.start < t.end <= |x.doc| && (t.kind == String ==> t.start + 2 <= t.end)
    ensures t.kind == True ==> Scalar(x, t, cur) == Done(t.end, Bool(true))
    ensures t.kind == False ==> Scalar(x, t, cur) == Done(t.end, Bool(false))
    ensures t.kind == NullToken ==> Scalar(x, t, cur) == Done(t.end, Null)
    ensures t.kind == PosInf ==> Scalar(x, t, cur) == Done(t.end, Real(DoubleBits(false, 2047, 0)))
    ensures t.kind == NegInf ==> Scalar(x, t, cur) == Done(t.end, Real(DoubleBits(true, 2047, 0)))
    ensures t.kind == NaN ==> Scalar(x, t, cur) == Done(t.end, Real(DoubleBits(false, 2047, 2251799813685248)))
  {
    hide Decode, NumberValue;
  }

  /** The byte order mark is the encoding of U+FEFF (section 6 of RFC 3629), and is skipped when it stands first and the
      features say so. */
  lemma ByteOrderMark(doc: bytes, f: Features)
    ensures BomLength(doc, f) == if f.skipBom && Stands(doc, 0, Utf8.CodePointToUtf8(0xFEFF)) then 3 else 0
  {
    assert Utf8.CodePointToUtf8(0xFEFF) == [0xEF, 0xBB, 0xBF];
  }
}
