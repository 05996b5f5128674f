/** How BuiltStyledStreamWriter breaks and indents its lines, told from the text alone. */
module Indentation {
  import opened ByteStrings
  import opened Quoting
  import opened Integers
  import opened Values
  import opened StyledWriter

  // ---------------------------------------------------------------- where a byte stands

  /** The number of open containers, and whether a string is open, with a backslash just read. */
  datatype Place = Place(open: int, quoted: bool, escaped: bool)

  function At(open: int): Place { Place(open, false, false) }

  predicate Opening(c: byte) { c == '{' as int || c == '[' as int }

  predicate Closing(c: byte) { c == '}' as int || c == ']' as int }

  function Next(p: Place, c: byte): Place
  {
    if p.escaped then p.(escaped := false)
    else if p.quoted then
      if c == '\\' as int then p.(escaped := true) else if c == '\"' as int then p.(quoted := false) else p
    else if c == '\"' as int then p.(quoted := true)
    else if Opening(c) then p.(open := p.open + 1)
    else if Closing(c) then p.(open := p.open - 1)
    else p
  }

  /** The place after the text `t` that starts at `p`. */
  function After(t: bytes, p: Place): Place
  {
    if t == [] then p else After(t[1..], Next(p, t[0]))
  }

  function Copies(w: bytes, n: nat): bytes { if n == 0 then [] else Copies(w, n - 1) + w }

  /** What follows a line feed: exactly `n` copies of the indentation, and then something else on the line or the next
      line feed. */
  predicate Starts(t: bytes, w: bytes, n: nat)
  {
    Copies(w, n) < t && (t[|Copies(w, n)|] == '\n' as int || !IsSpace(t[|Copies(w, n)|]))
  }

  /** As many copies of the indentation as containers are open, one fewer before a closing bracket. */
  predicate WellIndented(t: bytes, open: int, w: bytes)
  {
    && open >= 1
    && ((Starts(t, w, open) && !Closing(t[|Copies(w, open)|]))
        || (Starts(t, w, open - 1) && Closing(t[|Copies(w, open - 1)|])))
  }

  /** Every line feed of `t` stands outside strings and is followed by the indentation that belongs there. */
  predicate Lined(t: bytes, p: Place, w: bytes)
  {
    t == [] || ((t[0] == LF ==> !p.quoted && WellIndented(t[1..], p.open, w)) && Lined(t[1..], Next(p, t[0]), w))
  }

  /** Settings whose lines can be told from the text: the indentation is white space without a line feed, and the colon
      has no line feed, quote or bracket. */
  predicate Telling(l: Layout)
  {
    Sensible(l) && l.indentation != [] && LF !in l.indentation && Neutral(l.colonSymbol)
  }

  /** Text that opens and closes nothing. */
  predicate Neutral(t: bytes)
  {
    forall i :: 0 <= i < |t| ==> t[i] != LF && t[i] != QUOTE && !Opening(t[i]) && !Closing(t[i])
  }

  // ---------------------------------------------------------------- pieces of text

  lemma {:induction false} LinedAfter(a: bytes, c: bytes, p: Place, w: bytes)
    requires LF !in a && Lined(c, After(a, p), w)
    ensures Lined(a + c, p, w)
  {
    hide WellIndented;
    if a == [] {
      assert a + c == c;
    } else {
      LinedAfter(a[1..], c, Next(p, a[0]), w);
      assert (a + c)[1..] == a[1..] + c;
    }
  }

  lemma {:induction false} AfterJoined(a: bytes, b: bytes, p: Place)
    ensures After(a + b, p) == After(b, After(a, p))
  {
    if a == [] {
      assert a + b == b;
    } else {
      AfterJoined(a[1..], b, Next(p, a[0]));
      assert (a + b)[1..] == a[1..] + b;
    }
  }

  lemma {:induction false} NeutralStays(t: bytes, open: int)
    requires Neutral(t)
    ensures After(t, At(open)) == At(open)
  {
    if t != [] {
      NeutralStays(t[1..], open);
    }
  }

  lemma NeutralLined(t: bytes, c: bytes, open: int, w: bytes)
    requires Neutral(t) && Lined(c, At(open), w)
    ensures Lined(t + c, At(open), w)
  {
    NeutralStays(t, open);
    LinedAfter(t, c, At(open), w);
  }

  lemma BracketLined(b: byte, c: bytes, open: int, w: bytes)
    requires b != LF && b != QUOTE && Lined(c, Next(At(open), b), w)
    ensures Lined([b] + c, At(open), w)
  {
    assert ([b] + c)[1..] == c;
  }

  // ---------------------------------------------------------------- strings

  /** What is printed for a part of a string leaves it open. */
  predicate Inside(t: bytes, open: int)
  {
    LF !in t && After(t, Place(open, true, false)) == Place(open, true, false)
  }

  lemma InsideBoth(a: bytes, b: bytes, open: int)
    requires Inside(a, open) && Inside(b, open)
    ensures Inside(a + b, open)
  {
    AfterJoined(a, b, Place(open, true, false));
  }

  lemma ByteInside(c: byte, open: int)
    requires Plain(c) && c != LF
    ensures Inside([c], open)
  {
    assert After([c][1..], Place(open, true, false)) == Place(open, true, false);
  }

  lemma EscapeInside(c: byte, open: int)
    requires c != LF
    ensures Inside([BACKSLASH, c], open)
  {
    var t: bytes := [BACKSLASH, c];
    assert t[1..] == [c] && t[1..][1..] == [];
    assert After(t[1..], Place(open, true, true)) == Place(open, true, false);
  }

  lemma HexEscapeInside(x: nat, open: int)
    requires x < 0x10000
    ensures Inside(HexEscape(x), open)
  {
    hide Hex2, Next, After;
    HexRoundTrip(x, []);
    var h := HexEscape(x);
    EscapeInside(h[1], open);
    ByteInside(h[2], open);
    ByteInside(h[3], open);
    ByteInside(h[4], open);
    ByteInside(h[5], open);
    InsideBoth([h[0], h[1]], [h[2]], open);
    InsideBoth([h[0], h[1]] + [h[2]], [h[3]], open);
    InsideBoth([h[0], h[1]] + [h[2]] + [h[3]], [h[4]], open);
    InsideBoth([h[0], h[1]] + [h[2]] + [h[3]] + [h[4]], [h[5]], open);
    assert h == [h[0], h[1]] + [h[2]] + [h[3]] + [h[4]] + [h[5]];
  }

  lemma UnitInside(s: bytes, emitUtf8: bool, open: int)
    requires s != []
    ensures Inside(Unit(s, emitUtf8).0, open)
  {
    hide HexEscape, Inside, Utf8.Utf8ToCodepoint;
    CodepointRange(s);
    if ShortEscape(s[0]).Some? {
      EscapeInside(ShortEscape(s[0]).value, open);
    } else if emitUtf8 {
      if s[0] < 0x20 {
        HexEscapeInside(s[0], open);
      } else {
        ByteInside(s[0], open);
      }
    } else {
      var cp := Utf8.Utf8ToCodepoint(s).0;
      if cp < 0x20 || 0x80 <= cp < 0x10000 {
        HexEscapeInside(cp, open);
      } else if cp < 0x80 {
        ByteInside(cp, open);
      } else {
        HexEscapeInside(0xD800 + (cp - 0x10000) / 1024 % 1024, open);
        HexEscapeInside(0xDC00 + (cp - 0x10000) % 1024, open);
        InsideBoth(HexEscape(0xD800 + (cp - 0x10000) / 1024 % 1024), HexEscape(0xDC00 + (cp - 0x10000) % 1024), open);
      }
    }
  }

  lemma {:induction false} StringInside(s: bytes, emitUtf8: bool, open: int)
    ensures Inside(Escape(s, emitUtf8), open)
  {
    hide Unit;
    if s != [] {
      UnitInside(s, emitUtf8, open);
      StringInside(s[Unit(s, emitUtf8).1..], emitUtf8, open);
      InsideBoth(Unit(s, emitUtf8).0, Escape(s[Unit(s, emitUtf8).1..], emitUtf8), open);
    }
  }

  lemma QuotedLined(s: bytes, emitUtf8: bool, c: bytes, open: int, w: bytes)
    requires Lined(c, At(open), w)
    ensures Lined(Quoted(s, emitUtf8) + c, At(open), w)
  {
    hide Escape, After, Lined;
    var inside := Place(open, true, false);
    var body := Escape(s, emitUtf8);
    StringInside(s, emitUtf8, open);
    QuoteLined(c, inside, w);
    LinedAfter(body, [QUOTE] + c, inside, w);
    QuoteLined(body + ([QUOTE] + c), At(open), w);
    assert Quoted(s, emitUtf8) + c == [QUOTE] + (body + ([QUOTE] + c));
  }

  lemma QuoteLined(t: bytes, p: Place, w: bytes)
    requires !p.escaped && Lined(t, p.(quoted := !p.quoted), w)
    ensures Lined([QUOTE] + t, p, w)
  {
    assert ([QUOTE] + t)[1..] == t;
  }

  // ---------------------------------------------------------------- lines

  lemma {:induction false} CopiesAreSpace(w: bytes, n: nat)
    requires AllSpace(w) && LF !in w
    ensures AllSpace(Copies(w, n)) && LF !in Copies(w, n) && Neutral(Copies(w, n))
  {
    if n > 0 {
      CopiesAreSpace(w, n - 1);
    }
  }

  /** The first byte after the indentation of a line. */
  predicate StartsWell(t: bytes) { t != [] && (t[0] == LF || !IsSpace(t[0])) }

  lemma BreakLined(l: Layout, n: nat, t: bytes, open: int)
    requires Telling(l) && StartsWell(t) && open >= 1 && n == (if Closing(t[0]) then open - 1 else open)
    requires Lined(t, At(open), l.indentation)
    ensures Lined(Break(l, Copies(l.indentation, n)) + t, At(open), l.indentation)
  {
    var w := l.indentation;
    var c := Copies(w, n);
    CopiesAreSpace(w, n);
    NeutralLined(c, t, open, w);
    assert Break(l, c) + t == [LF] + (c + t);
    assert ([LF] + (c + t))[1..] == c + t;
    assert (c + t)[|c|] == t[0];
    assert Starts(c + t, w, n);
  }

  /** A text that is empty or starts a line well. */
  predicate Starting(t: bytes) { t == [] || (!IsSpace(t[0]) && !Closing(t[0])) }

  lemma PieceStarts(v: Value, l: Layout)
    requires Printable(v) && OnePiece(v) && Sensible(l)
    ensures Starting(Piece(v, l))
  {
    hide Digits;
    if v.Int? || v.UInt? {
      var n := if v.Int? then v.i else v.u;
      NatOfDigits(if n < 0 then -n else n);
      assert IsDigit(Digits(if n < 0 then -n else n)[0]);
    }
  }

  lemma TextStarts(v: Value, l: Layout, indent: bytes)
    requires Printable(v) && Sensible(l)
    ensures Starting(StyledText(v, l, indent, true))
  {
    hide Lines, Row, Fields, ManyLines, AllStored, AllRealFree, Sorted, Piece;
    if OnePiece(v) {
      PieceStarts(v, l);
    }
  }

  lemma PieceLined(v: Value, l: Layout, c: bytes, open: int)
    requires Printable(v) && OnePiece(v) && Telling(l) && Lined(c, At(open), l.indentation)
    ensures Lined(Piece(v, l) + c, At(open), l.indentation)
  {
    hide Digits, Quoted, Lined;
    if v.Int? || v.UInt? {
      var n := if v.Int? then v.i else v.u;
      NatOfDigits(if n < 0 then -n else n);
      NeutralLined(IntText(n), c, open, l.indentation);
    } else if v.Str? {
      QuotedLined(v.s, l.emitUtf8, c, open, l.indentation);
    } else if v.Arr? || v.Obj? {
      EmptyLined(if v.Arr? then LBRACKET else LBRACE, if v.Arr? then RBRACKET else RBRACE, c, open, l.indentation);
    } else {
      NeutralLined(Piece(v, l), c, open, l.indentation);
    }
  }

  lemma EmptyLined(b: byte, e: byte, c: bytes, open: int, w: bytes)
    requires Opening(b) && Closing(e) && Lined(c, At(open), w)
    ensures Lined([b, e] + c, At(open), w)
  {
    BracketLined(e, c, open + 1, w);
    BracketLined(b, [e] + c, open, w);
    assert [b] + ([e] + c) == [b, e] + c;
  }

  /** A container: what stands before it, its brackets and its parts. */
  lemma {:induction false} TextLined(v: Value, l: Layout, open: nat, indented: bool, c: bytes)
    requires Printable(v) && Telling(l) && Lined(c, At(open), l.indentation) && (open == 0 ==> indented)
    ensures Lined(StyledText(v, l, Copies(l.indentation, open), indented) + c, At(open), l.indentation)
    decreases Size(v), 0
  {
    hide Lined, Piece, Lines, Row, Fields, ManyLines, Break, AllStored, AllRealFree, Sorted, Telling;
    var w, indent := l.indentation, Copies(l.indentation, open);
    if OnePiece(v) {
      PieceLined(v, l, c, open);
    } else {
      match v
      case Arr(m) =>
        if ManyLines(m, l) {
          var inner := Break(l, indent) + ([RBRACKET] + c);
          ClosedLined(RBRACKET, l, open, c);
          LinesLined(m, 0, l, open + 1, inner);
          OpenedLined(LBRACKET, l, open, indented, Lines(m, 0, l, indent + w) + inner);
          assert StyledText(v, l, indent, indented) + c ==
                 (if indented then [] else Break(l, indent)) + ([LBRACKET] + (Lines(m, 0, l, indent + w) + inner));
        } else {
          AllPiecesOnOneLine(m, l);
          RowTextLined(m, l, open, c);
        }
      case Obj(m) =>
        var inner := Break(l, indent) + ([RBRACE] + c);
        ClosedLined(RBRACE, l, open, c);
        FieldsLined(m, 0, l, open + 1, inner);
        OpenedLined(LBRACE, l, open, indented, Fields(m, 0, l, indent + w) + inner);
        assert StyledText(v, l, indent, indented) + c ==
               (if indented then [] else Break(l, indent)) + ([LBRACE] + (Fields(m, 0, l, indent + w) + inner));
    }
  }

  lemma ClosedLined(e: byte, l: Layout, open: nat, c: bytes)
    requires Closing(e) && Telling(l) && Lined(c, At(open), l.indentation)
    ensures var t := Break(l, Copies(l.indentation, open)) + ([e] + c);
            Lined(t, At(open + 1), l.indentation) && t != [] && t[0] == LF
  {
    hide Lined, Copies;
    BracketLined(e, c, open + 1, l.indentation);
    BreakLined(l, open, [e] + c, open + 1);
  }

  lemma OpenedLined(b: byte, l: Layout, open: nat, indented: bool, t: bytes)
    requires Opening(b) && Telling(l) && Lined(t, At(open + 1), l.indentation) && (open == 0 ==> indented)
    ensures Lined((if indented then [] else Break(l, Copies(l.indentation, open))) + ([b] + t), At(open), l.indentation)
  {
    hide Lined, Copies;
    BracketLined(b, t, open, l.indentation);
    if indented {
      assert [] + ([b] + t) == [b] + t;
    } else {
      BreakLined(l, open, [b] + t, open);
    }
  }

  lemma {:induction false} LinesLined(m: seq<Member>, i: nat, l: Layout, open: nat, c: bytes)
    requires Indexed(m) && AllPrintable(m) && i <= ArraySize(m) && Telling(l) && open >= 1
    requires Lined(c, At(open), l.indentation) && c != [] && c[0] == LF
    ensures Lined(Lines(m, i, l, Copies(l.indentation, open)) + c, At(open), l.indentation)
    decreases MapSize(m), ArraySize(m) - i
  {
    hide Lined, StyledText, Lines, Break, Copies, Slot, AllStored, AllRealFree, Telling;
    var indent := Copies(l.indentation, open);
    LinesEnd(m, l, indent);
    if i == ArraySize(m) {
      assert [] + c == c;
    } else {
      SlotIsPart(m, Index(i));
      LinesStep(m, i, l, indent);
      LinesLined(m, i + 1, l, open, c);
      var rest := Lines(m, i + 1, l, indent) + c;
      var after := (if i + 1 < ArraySize(m) then [COMMA] else []) + rest;
      SeparatorLined(i + 1 < ArraySize(m), rest, open, l.indentation);
      assert after[0] == if i + 1 < ArraySize(m) then COMMA else LF;
      var text := StyledText(Slot(m, Index(i)), l, indent, true);
      TextLined(Slot(m, Index(i)), l, open, true, after);
      TellingIsSensible(l);
      TextStarts(Slot(m, Index(i)), l, indent);
      LineLined(l, open, text, after);
      assert Lines(m, i, l, indent) + c == Break(l, indent) + (text + after);
    }
  }

  lemma TellingIsSensible(l: Layout)
    requires Telling(l)
    ensures Sensible(l)
  {
  }

  lemma LineLined(l: Layout, open: nat, text: bytes, after: bytes)
    requires Telling(l) && open >= 1 && Starting(text) && Lined(text + after, At(open), l.indentation)
    requires after != [] && (after[0] == COMMA || after[0] == LF)
    ensures Lined(Break(l, Copies(l.indentation, open)) + (text + after), At(open), l.indentation)
  {
    hide Lined, Break, Copies, Telling;
    assert (text + after)[0] == if text == [] then after[0] else text[0];
    BreakLined(l, open, text + after, open);
  }

  lemma LinesEnd(m: seq<Member>, l: Layout, indent: bytes)
    requires Indexed(m) && AllPrintable(m)
    ensures Lines(m, ArraySize(m), l, indent) == []
  {
  }

  lemma SeparatorLined(comma: bool, rest: bytes, open: int, w: bytes)
    requires Lined(rest, At(open), w)
    ensures Lined((if comma then [COMMA] else []) + rest, At(open), w)
  {
    if comma {
      BracketLined(COMMA, rest, open, w);
    } else {
      assert [] + rest == rest;
    }
  }

  lemma {:induction false} FieldsLined(m: seq<Member>, i: nat, l: Layout, open: nat, c: bytes)
    requires AllNamed(m) && AllPrintable(m) && i <= |m| && Telling(l) && open >= 1
    requires Lined(c, At(open), l.indentation)
    ensures Lined(Fields(m, i, l, Copies(l.indentation, open)) + c, At(open), l.indentation)
    decreases MapSize(m), |m| - i
  {
    hide Lined, StyledText, Fields, Break, Copies, Quoted;
    var w, indent := l.indentation, Copies(l.indentation, open);
    if i == |m| {
      FieldsEnd(m, l, indent);
      assert [] + c == c;
    } else {
      MemberSize(m, i);
      FieldsStep(m, i, l, indent);
      FieldsLined(m, i + 1, l, open, c);
      var rest := Fields(m, i + 1, l, indent) + c;
      SeparatorLined(i + 1 < |m|, rest, open, w);
      var after := (if i + 1 < |m| then [COMMA] else []) + rest;
      var text := StyledText(m[i].val, l, indent, false);
      TextLined(m[i].val, l, open, false, after);
      NeutralLined(l.colonSymbol, text + after, open, w);
      var name := Quoted(m[i].key.s, l.emitUtf8);
      QuotedLined(m[i].key.s, l.emitUtf8, l.colonSymbol + (text + after), open, w);
      QuotedStarts(m[i].key.s, l.emitUtf8);
      BreakLined(l, open, name + (l.colonSymbol + (text + after)), open);
      assert Fields(m, i, l, indent) + c == Break(l, indent) + (name + (l.colonSymbol + (text + after)));
    }
  }

  lemma FieldsEnd(m: seq<Member>, l: Layout, indent: bytes)
    requires AllNamed(m) && AllPrintable(m)
    ensures Fields(m, |m|, l, indent) == []
  {
  }

  lemma QuotedStarts(s: bytes, emitUtf8: bool)
    ensures Quoted(s, emitUtf8) != [] && Quoted(s, emitUtf8)[0] == QUOTE
  {
  }

  lemma RowTextLined(m: seq<Member>, l: Layout, open: nat, c: bytes)
    requires Indexed(m) && AllPrintable(m) && AllPieces(m) && Telling(l) && Lined(c, At(open), l.indentation)
    ensures Lined([LBRACKET] + Gap(l) + Row(m, 0, l) + Gap(l) + [RBRACKET] + c, At(open), l.indentation)
  {
    hide Lined, Row, AllPieces, Telling;
    var w := l.indentation;
    BracketLined(RBRACKET, c, open + 1, w);
    NeutralLined(Gap(l), [RBRACKET] + c, open + 1, w);
    RowLined(m, 0, l, open + 1, Gap(l) + ([RBRACKET] + c));
    NeutralLined(Gap(l), Row(m, 0, l) + (Gap(l) + ([RBRACKET] + c)), open + 1, w);
    BracketLined(LBRACKET, Gap(l) + (Row(m, 0, l) + (Gap(l) + ([RBRACKET] + c))), open, w);
    assert [LBRACKET] + Gap(l) + Row(m, 0, l) + Gap(l) + [RBRACKET] + c ==
           [LBRACKET] + (Gap(l) + (Row(m, 0, l) + (Gap(l) + ([RBRACKET] + c))));
  }

  lemma {:induction false} RowLined(m: seq<Member>, i: nat, l: Layout, open: nat, c: bytes)
    requires Indexed(m) && AllPrintable(m) && AllPieces(m) && i <= ArraySize(m) && Telling(l)
    requires Lined(c, At(open), l.indentation)
    ensures Lined(Row(m, i, l) + c, At(open), l.indentation)
    decreases ArraySize(m) - i
  {
    hide Lined, Row, PieceAt, AllPieces, Telling, Slot;
    if i == ArraySize(m) {
      RowEnd(m, l);
      assert [] + c == c;
    } else {
      RowStep(m, i, l);
      RowLined(m, i + 1, l, open, c);
      PieceAtLined(m, i, l, open, Row(m, i + 1, l) + c);
      var rest := PieceAt(m, i, l) + (Row(m, i + 1, l) + c);
      if i > 0 {
        NeutralLined([COMMA] + Gap(l), rest, open, l.indentation);
        assert Row(m, i, l) + c == [COMMA] + Gap(l) + rest;
      } else {
        assert Row(m, i, l) + c == rest;
      }
    }
  }

  lemma PieceAtLined(m: seq<Member>, i: nat, l: Layout, open: nat, c: bytes)
    requires Indexed(m) && AllPrintable(m) && AllPieces(m) && i < ArraySize(m) && Telling(l)
    requires Lined(c, At(open), l.indentation)
    ensures Lined(PieceAt(m, i, l) + c, At(open), l.indentation)
  {
    hide Lined, Piece, Slot, Telling;
    SlotIsPart(m, Index(i));
    PieceLined(Slot(m, Index(i)), l, c, open);
  }

  /** Where one line feed stands. */
  lemma {:induction false} LineFeedAt(t: bytes, p: Place, w: bytes, i: nat)
    requires Lined(t, p, w) && i < |t| && t[i] == LF
    ensures var here := After(t[..i], p);
            !here.quoted && WellIndented(t[i + 1..], here.open, w)
  {
    hide WellIndented;
    if i == 0 {
      assert t[..0] == [];
    } else {
      LineFeedAt(t[1..], Next(p, t[0]), w, i - 1);
      assert t[1..][..i - 1] == t[..i][1..] && t[1..][i..] == t[i + 1..];
    }
  }

  /** Every line of a styled document is indented by as many copies of the indentation as containers are open where it
      starts, one fewer before a closing bracket. */
  lemma LinesIndented(v: Value, l: Layout, i: nat)
    requires Printable(v) && Telling(l)
    requires i < |StyledText(v, l, [], true)| && StyledText(v, l, [], true)[i] == '\n' as int
    ensures var t := StyledText(v, l, [], true);
            var here := After(t[..i], At(0));
            !here.quoted && WellIndented(t[i + 1..], here.open, l.indentation)
  {
    hide StyledText, Telling, WellIndented;
    var t := StyledText(v, l, [], true);
    TextLined(v, l, 0, true, []);
    assert Copies(l.indentation, 0) == [] && t + [] == t;
    LineFeedAt(t, At(0), l.indentation, i);
  }

  // ---------------------------------------------------------------- moving a text to the right

  /** `t` with `a` put after every line feed. */
  function Shifted(t: bytes, a: bytes): bytes
  {
    if t == [] then [] else [t[0]] + (if t[0] == '\n' as int then a else []) + Shifted(t[1..], a)
  }

  lemma ShiftedFirst(c: byte, t: bytes, a: bytes)
    ensures Shifted([c] + t, a) == ([c] + if c == LF then a else []) + Shifted(t, a)
    ensures Shifted([], a) == []
  {
    assert ([c] + t)[1..] == t;
  }

  lemma {:induction false} ShiftedJoined(t: bytes, u: bytes, a: bytes)
    ensures Shifted(t + u, a) == Shifted(t, a) + Shifted(u, a)
  {
    hide Shifted;
    if t == [] {
      ShiftedFirst(LF, [], a);
      assert t + u == u;
    } else {
      ShiftedFirst(t[0], t[1..], a);
      ShiftedFirst(t[0], t[1..] + u, a);
      ShiftedJoined(t[1..], u, a);
      assert t == [t[0]] + t[1..] && t + u == [t[0]] + (t[1..] + u);
    }
  }

  lemma {:induction false} ShiftedLine(t: bytes, a: bytes)
    requires LF !in t
    ensures Shifted(t, a) == t
  {
    if t != [] {
      ShiftedLine(t[1..], a);
    }
  }

  /** Settings whose only line feeds are the ones that start a line. */
  predicate Single(l: Layout) { LF !in l.indentation && LF !in l.colonSymbol && LF !in l.nullSymbol }

  lemma ShiftedBreak(l: Layout, indent: bytes, a: bytes)
    requires LF !in indent && l.indentation != []
    ensures Shifted(Break(l, indent), a) == Break(l, a + indent)
  {
    ShiftedLine(indent, a);
    assert Break(l, indent)[1..] == indent;
  }

  lemma PieceOnLine(v: Value, l: Layout)
    requires Printable(v) && OnePiece(v) && LF !in l.nullSymbol
    ensures LF !in Piece(v, l)
  {
    hide Digits, Escape;
    if v.Int? || v.UInt? {
      var n := if v.Int? then v.i else v.u;
      NatOfDigits(if n < 0 then -n else n);
    } else if v.Str? {
      StringInside(v.s, l.emitUtf8, 0);
    }
  }

  lemma NameOnLine(s: bytes, emitUtf8: bool)
    ensures LF !in Quoted(s, emitUtf8)
  {
    hide Escape;
    StringInside(s, emitUtf8, 0);
  }

  lemma {:induction false} RowOnLine(m: seq<Member>, i: nat, l: Layout)
    requires Indexed(m) && AllPrintable(m) && AllPieces(m) && i <= ArraySize(m) && LF !in l.nullSymbol
    ensures LF !in Row(m, i, l)
    decreases ArraySize(m) - i
  {
    hide Row, PieceAt, Slot;
    if i == ArraySize(m) {
      RowEnd(m, l);
    } else {
      RowStep(m, i, l);
      RowOnLine(m, i + 1, l);
      PieceAtOnLine(m, i, l);
    }
  }

  lemma PieceAtOnLine(m: seq<Member>, i: nat, l: Layout)
    requires Indexed(m) && AllPrintable(m) && AllPieces(m) && i < ArraySize(m) && LF !in l.nullSymbol
    ensures LF !in PieceAt(m, i, l)
  {
    hide Piece, Slot;
    SlotIsPart(m, Index(i));
    PieceOnLine(Slot(m, Index(i)), l);
  }

  /** A value further to the right has the same text, moved to the right. */
  lemma {:induction false} TextShifts(v: Value, l: Layout, indent: bytes, indented: bool, a: bytes)
    requires Printable(v) && Single(l) && l.indentation != [] && LF !in indent
    ensures StyledText(v, l, a + indent, indented) == Shifted(StyledText(v, l, indent, indented), a)
    decreases Size(v), 0
  {
    hide Shifted, Piece, Lines, Row, Fields, ManyLines, Break, AllStored, AllRealFree, Sorted;
    if OnePiece(v) {
      PieceOnLine(v, l);
      ShiftedLine(Piece(v, l), a);
    } else {
      var inner := indent + l.indentation;
      assert a + indent + l.indentation == a + inner;
      match v
      case Arr(m) =>
        if ManyLines(m, l) {
          LinesShift(m, 0, l, inner, a);
          BracketsShift(l, indent, indented, a, LBRACKET, Lines(m, 0, l, inner), RBRACKET);
        } else {
          AllPiecesOnOneLine(m, l);
          RowOnLine(m, 0, l);
          ShiftedLine([LBRACKET] + Gap(l) + Row(m, 0, l) + Gap(l) + [RBRACKET], a);
        }
      case Obj(m) =>
        FieldsShift(m, 0, l, inner, a);
        BracketsShift(l, indent, indented, a, LBRACE, Fields(m, 0, l, inner), RBRACE);
    }
  }

  lemma BracketsShift(l: Layout, indent: bytes, indented: bool, a: bytes, b: byte, t: bytes, e: byte)
    requires LF !in indent && l.indentation != [] && b != LF && e != LF
    ensures var start, end := if indented then [] else Break(l, indent), Break(l, indent);
            var newStart, newEnd := if indented then [] else Break(l, a + indent), Break(l, a + indent);
            Shifted(start + [b] + t + end + [e], a) == newStart + [b] + Shifted(t, a) + newEnd + [e]
  {
    hide Shifted, Break;
    var start := if indented then [] else Break(l, indent);
    ShiftedBreak(l, indent, a);
    ShiftedLine([], a);
    ShiftedLine([b], a);
    ShiftedLine([e], a);
    ShiftedJoined(start + [b] + t + Break(l, indent), [e], a);
    ShiftedJoined(start + [b] + t, Break(l, indent), a);
    ShiftedJoined(start + [b], t, a);
    ShiftedJoined(start, [b], a);
  }

  lemma {:induction false} LinesShift(m: seq<Member>, i: nat, l: Layout, indent: bytes, a: bytes)
    requires Indexed(m) && AllPrintable(m) && i <= ArraySize(m) && Single(l) && l.indentation != [] && LF !in indent
    ensures Lines(m, i, l, a + indent) == Shifted(Lines(m, i, l, indent), a)
    decreases MapSize(m), ArraySize(m) - i
  {
    hide Shifted, StyledText, Lines, Break, Slot, AllStored, AllRealFree;
    LinesEnd(m, l, indent);
    LinesEnd(m, l, a + indent);
    if i == ArraySize(m) {
      ShiftedLine([], a);
    } else {
      SlotIsPart(m, Index(i));
      LinesStep(m, i, l, indent);
      LinesStep(m, i, l, a + indent);
      TextShifts(Slot(m, Index(i)), l, indent, true, a);
      LinesShift(m, i + 1, l, indent, a);
      PartsShift(l, indent, a, StyledText(Slot(m, Index(i)), l, indent, true), i + 1 < ArraySize(m),
                 Lines(m, i + 1, l, indent));
    }
  }

  lemma PartsShift(l: Layout, indent: bytes, a: bytes, text: bytes, comma: bool, rest: bytes)
    requires LF !in indent && l.indentation != []
    ensures var sep := if comma then [COMMA] else [];
            Shifted(Break(l, indent) + (text + (sep + rest)), a) ==
            Break(l, a + indent) + (Shifted(text, a) + (sep + Shifted(rest, a)))
  {
    hide Shifted, Break;
    var sep := if comma then [COMMA] else [];
    ShiftedBreak(l, indent, a);
    ShiftedLine(sep, a);
    ShiftedJoined(sep, rest, a);
    ShiftedJoined(text, sep + rest, a);
    ShiftedJoined(Break(l, indent), text + (sep + rest), a);
  }

  lemma {:induction false} FieldsShift(m: seq<Member>, i: nat, l: Layout, indent: bytes, a: bytes)
    requires AllNamed(m) && AllPrintable(m) && i <= |m| && Single(l) && l.indentation != [] && LF !in indent
    ensures Fields(m, i, l, a + indent) == Shifted(Fields(m, i, l, indent), a)
    decreases MapSize(m), |m| - i
  {
    hide Shifted, StyledText, Fields, Break, Quoted;
    FieldsEnd(m, l, indent);
    FieldsEnd(m, l, a + indent);
    if i == |m| {
      ShiftedLine([], a);
    } else {
      MemberSize(m, i);
      FieldsStep(m, i, l, indent);
      FieldsStep(m, i, l, a + indent);
      TextShifts(m[i].val, l, indent, false, a);
      FieldsShift(m, i + 1, l, indent, a);
      var name := Quoted(m[i].key.s, l.emitUtf8);
      var text := StyledText(m[i].val, l, indent, false);
      NameOnLine(m[i].key.s, l.emitUtf8);
      ShiftedLine(name, a);
      ShiftedLine(l.colonSymbol, a);
      ShiftedJoined(l.colonSymbol, text, a);
      ShiftedJoined(name, l.colonSymbol + text, a);
      var head := name + (l.colonSymbol + text);
      PartsShift(l, indent, a, head, i + 1 < |m|, Fields(m, i + 1, l, indent));
      FieldsGrouped(m, i, l, indent);
      FieldsGrouped(m, i, l, a + indent);
    }
  }

  lemma FieldsGrouped(m: seq<Member>, i: nat, l: Layout, indent: bytes)
    requires AllNamed(m) && AllPrintable(m) && i < |m|
    ensures Fields(m, i, l, indent) ==
            Break(l, indent)
              + ((Quoted(m[i].key.s, l.emitUtf8) + (l.colonSymbol + StyledText(m[i].val, l, indent, false)))
                + ((if i + 1 < |m| then [COMMA] else []) + Fields(m, i + 1, l, indent)))
  {
    hide StyledText, Fields, Break, Quoted;
    FieldsStep(m, i, l, indent);
  }

  // ---------------------------------------------------------------- one line or many

  /** An array on one line: its elements between brackets, commas and blanks. */
  function OneLine(texts: seq<bytes>): bytes
  {
    Ascii("[ ") + Join(texts, Ascii(", ")) + Ascii(" ]")
  }

  function PieceTexts(m: seq<Member>, l: Layout): (texts: seq<bytes>)
    requires Indexed(m) && AllPrintable(m) && AllPieces(m)
    ensures |texts| == ArraySize(m)
  {
    seq(ArraySize(m), i requires 0 <= i < ArraySize(m) => SlotIsPart(m, Index(i)); Piece(Slot(m, Index(i)), l))
  }

  lemma {:induction false} JoinLast(texts: seq<bytes>, sep: bytes)
    requires texts != []
    ensures Join(texts, sep) ==
            Join(texts[..|texts| - 1], sep) + (if |texts| == 1 then [] else sep) + texts[|texts| - 1]
  {
    if |texts| > 1 {
      JoinLast(texts[1..], sep);
      assert texts[1..][..|texts| - 2] == texts[..|texts| - 1][1..];
    }
  }

  lemma {:induction false} JoinLength(m: seq<Member>, l: Layout, n: nat)
    requires Indexed(m) && AllPrintable(m) && AllPieces(m) && n <= ArraySize(m)
    ensures |Join(PieceTexts(m, l)[..n], [COMMA, SPACE])| == PiecesLength(m, n, l) + (if n == 0 then 0 else 2 * (n - 1))
  {
    hide Slot, Piece, AllPieces, Join;
    if n == 0 {
      JoinNothing([COMMA, SPACE]);
    } else {
      JoinLength(m, l, n - 1);
      JoinLast(PieceTexts(m, l)[..n], [COMMA, SPACE]);
      assert PieceTexts(m, l)[..n][..n - 1] == PieceTexts(m, l)[..n - 1];
      assert PieceTexts(m, l)[n - 1] == PieceAt(m, n - 1, l);
    }
  }

  lemma JoinNothing(sep: bytes)
    ensures Join([], sep) == []
  {
  }

  /** An array takes many lines exactly when comments are on, it has more than 24 elements, an element is a container
      that is not empty, or the one line would have 74 bytes or more. */
  lemma ManyLinesExactly(m: seq<Member>, l: Layout)
    requires Indexed(m) && AllPrintable(m) && m != []
    ensures ManyLines(m, l) <==>
            l.allComments || ArraySize(m) > 24
            || (exists i :: 0 <= i < ArraySize(m) && !OnePiece(Slot(m, Index(i))))
            || |OneLine(PieceTexts(m, l))| >= 74
  {
    hide Slot, Piece, PieceAt, Join, PieceTexts;
    if AllPieces(m) {
      var texts := PieceTexts(m, l);
      JoinLength(m, l, |texts|);
      assert texts[..|texts|] == texts && Ascii(", ") == [COMMA, SPACE];
    }
  }

  lemma {:induction false} RowJoins(m: seq<Member>, i: nat, l: Layout)
    requires Indexed(m) && AllPrintable(m) && AllPieces(m) && i < ArraySize(m) && l.indentation != []
    ensures Row(m, i, l) == (if i > 0 then [COMMA, SPACE] else []) + Join(PieceTexts(m, l)[i..], [COMMA, SPACE])
    decreases ArraySize(m) - i
  {
    hide Slot, Piece, AllPieces, Row;
    var texts := PieceTexts(m, l);
    RowStep(m, i, l);
    assert texts[i..][0] == PieceAt(m, i, l);
    if i + 1 < ArraySize(m) {
      RowJoins(m, i + 1, l);
      assert texts[i..][1..] == texts[i + 1..];
    } else {
      RowEnd(m, l);
      assert |texts[i..]| == 1;
    }
  }

  /** With indentation, an array that does not take many lines is one line. */
  lemma ArrayOnOneLine(m: seq<Member>, l: Layout, indent: bytes, indented: bool)
    requires Printable(Arr(m)) && m != [] && l.indentation != [] && !ManyLines(m, l)
    ensures AllPieces(m) && StyledText(Arr(m), l, indent, indented) == OneLine(PieceTexts(m, l))
  {
    hide Row, Join, PieceTexts, Slot, Piece, AllStored, AllRealFree, Sorted;
    AllPiecesOnOneLine(m, l);
    RowJoins(m, 0, l);
    assert PieceTexts(m, l)[0..] == PieceTexts(m, l);
    assert Ascii("[ ") == [LBRACKET, SPACE] && Ascii(" ]") == [SPACE, RBRACKET] && Ascii(", ") == [COMMA, SPACE];
  }

  /** A line feed and an indentation. */
  function NewLine(indent: bytes): bytes { ['\n' as int] + indent }

  /** Every element on a line of its own. */
  function ElementLines(m: seq<Member>, l: Layout, indent: bytes): (texts: seq<bytes>)
    requires Indexed(m) && AllPrintable(m)
    ensures |texts| == ArraySize(m)
  {
    seq(ArraySize(m), i requires 0 <= i < ArraySize(m) =>
      SlotIsPart(m, Index(i));
      NewLine(indent) + StyledText(Slot(m, Index(i)), l, indent, true))
  }

  lemma {:induction false} LinesJoin(m: seq<Member>, i: nat, l: Layout, indent: bytes)
    requires Indexed(m) && AllPrintable(m) && i <= ArraySize(m) && l.indentation != []
    ensures Lines(m, i, l, indent) == Join(ElementLines(m, l, indent)[i..], Ascii(","))
    decreases ArraySize(m) - i
  {
    hide Slot, StyledText, Lines, Break, NewLine, Join, Ascii;
    var texts := ElementLines(m, l, indent);
    LinesEnd(m, l, indent);
    JoinStep(texts, i);
    NewLineIs(l, indent);
    if i < ArraySize(m) {
      LinesStep(m, i, l, indent);
      LinesJoin(m, i + 1, l, indent);
      var text := StyledText(Slot(m, Index(i)), l, indent, true);
      assert texts[i] == NewLine(indent) + text;
      Regrouped(NewLine(indent), text, if i + 1 < ArraySize(m) then [COMMA] else [], Lines(m, i + 1, l, indent));
    }
  }

  /** With indentation, an array that takes many lines has each element and its closing bracket on a line of its own. */
  lemma ArrayOnManyLines(m: seq<Member>, l: Layout, indent: bytes, indented: bool)
    requires Printable(Arr(m)) && m != [] && l.indentation != [] && ManyLines(m, l)
    ensures StyledText(Arr(m), l, indent, indented) ==
            (if indented then [] else NewLine(indent))
              + Ascii("[") + Join(ElementLines(m, l, indent + l.indentation), Ascii(","))
              + NewLine(indent) + Ascii("]")
  {
    hide Lines, Join, ElementLines, ManyLines, AllStored, AllRealFree, Sorted;
    LinesJoin(m, 0, l, indent + l.indentation);
    assert ElementLines(m, l, indent + l.indentation)[0..] == ElementLines(m, l, indent + l.indentation);
  }

  /** Every member on a line of its own: its name, the colon and its value. */
  function MemberLines(m: seq<Member>, l: Layout, indent: bytes): (texts: seq<bytes>)
    requires AllNamed(m) && AllPrintable(m)
    ensures |texts| == |m|
  {
    seq(|m|, i requires 0 <= i < |m| =>
      NewLine(indent) + Quoted(m[i].key.s, l.emitUtf8) + l.colonSymbol + StyledText(m[i].val, l, indent, false))
  }

  lemma Regrouped(a: bytes, b: bytes, c: bytes, d: bytes)
    ensures a + (b + (c + d)) == (a + b) + c + d
  {
  }

  lemma JoinStep(texts: seq<bytes>, i: nat)
    requires i <= |texts|
    ensures Join(texts[i..], Ascii(",")) ==
            if i == |texts| then []
            else texts[i] + (if i + 1 < |texts| then [COMMA] else []) + Join(texts[i + 1..], Ascii(","))
  {
    if i < |texts| {
      assert texts[i..][1..] == texts[i + 1..];
    }
    assert Ascii(",") == [COMMA];
  }

  lemma NewLineIs(l: Layout, indent: bytes)
    requires l.indentation != []
    ensures Break(l, indent) == NewLine(indent)
  {
  }

  lemma {:induction false} FieldsJoin(m: seq<Member>, i: nat, l: Layout, indent: bytes)
    requires AllNamed(m) && AllPrintable(m) && i <= |m| && l.indentation != []
    ensures Fields(m, i, l, indent) == Join(MemberLines(m, l, indent)[i..], Ascii(","))
    decreases |m| - i
  {
    hide StyledText, Fields, Quoted, Break, NewLine, Join, Ascii;
    var texts := MemberLines(m, l, indent);
    FieldsEnd(m, l, indent);
    JoinStep(texts, i);
    NewLineIs(l, indent);
    if i < |m| {
      FieldsGrouped(m, i, l, indent);
      FieldsJoin(m, i + 1, l, indent);
      var field := Quoted(m[i].key.s, l.emitUtf8) + (l.colonSymbol + StyledText(m[i].val, l, indent, false));
      assert texts[i] == NewLine(indent) + field;
      Regrouped(NewLine(indent), field, if i + 1 < |m| then [COMMA] else [], Fields(m, i + 1, l, indent));
    }
  }

  /** With indentation, an object that is not empty has each member and its closing bracket on a line of its own. */
  lemma ObjectOnManyLines(m: seq<Member>, l: Layout, indent: bytes, indented: bool)
    requires Printable(Obj(m)) && m != [] && l.indentation != []
    ensures StyledText(Obj(m), l, indent, indented) ==
            (if indented then [] else NewLine(indent))
              + Ascii("{") + Join(MemberLines(m, l, indent + l.indentation), Ascii(","))
              + NewLine(indent) + Ascii("}")
  {
    hide Fields, Join, MemberLines, AllStored, AllRealFree, Sorted;
    FieldsJoin(m, 0, l, indent + l.indentation);
    assert MemberLines(m, l, indent + l.indentation)[0..] == MemberLines(m, l, indent + l.indentation);
  }
}
