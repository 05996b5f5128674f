/** The token sequence of a value, and texts that spell it with any white space in between. */
module Tokens {
  import opened ByteStrings
  import opened Quoting
  import opened Integers
  import opened Values
  import opened Lexer
  import opened NumberSyntax

  datatype Lexeme = Lexeme(kind: TokenType, text: bytes)

  const LB := Lexeme(ArrayBegin, [LBRACKET])
  const RB := Lexeme(ArrayEnd, [RBRACKET])
  const LC := Lexeme(ObjectBegin, [LBRACE])
  const RC := Lexeme(ObjectEnd, [RBRACE])
  const SEPARATOR := Lexeme(ArraySeparator, [COMMA])
  const NAME_SEPARATOR := Lexeme(MemberSeparator, [COLON])

  /** How a writer prints: whether strings keep their UTF-8, and whether nulls are left out. */
  datatype Style = Style(emitUtf8: bool, dropNulls: bool)

  /** The tokens of a value. A missing array element is printed as null. */
  ghost function TokensOf(v: Value, s: Style): (t: seq<Lexeme>)
    requires Printable(v)
    ensures t == [] <==> v.Null? && s.dropNulls
    decreases Size(v), 0
  {
    match v
    case Null => if s.dropNulls then [] else [Lexeme(NullToken, NULL_TEXT)]
    case Int(i) => [Lexeme(Number, IntText(i))]
    case UInt(u) => [Lexeme(Number, IntText(u))]
    case Str(b) => [Lexeme(String, Quoted(b, s.emitUtf8))]
    case Bool(b) => [if b then Lexeme(True, TRUE_TEXT) else Lexeme(False, FALSE_TEXT)]
    case Arr(m) => [LB] + ElementTokens(m, 0, s) + [RB]
    case Obj(m) => [LC] + MemberTokens(m, 0, s) + [RC]
  }

  /** The elements from index `i` on, separated by commas. */
  ghost function ElementTokens(m: seq<Member>, i: nat, s: Style): seq<Lexeme>
    requires Indexed(m) && AllPrintable(m) && i <= ArraySize(m)
    decreases MapSize(m), ArraySize(m) - i
  {
    if i == ArraySize(m) then []
    else
      SlotIsPart(m, Index(i));
      TokensOf(Slot(m, Index(i)), s) + (if i + 1 < ArraySize(m) then [SEPARATOR] else []) + ElementTokens(m, i + 1, s)
  }

  /** The members from `i` on, separated by commas. */
  ghost function MemberTokens(m: seq<Member>, i: nat, s: Style): seq<Lexeme>
    requires AllNamed(m) && AllPrintable(m) && i <= |m|
    decreases MapSize(m), |m| - i
  {
    if i == |m| then []
    else
      MemberSize(m, i);
      [Lexeme(String, Quoted(m[i].key.s, s.emitUtf8)), NAME_SEPARATOR] + TokensOf(m[i].val, s)
      + (if i + 1 < |m| then [SEPARATOR] else []) + MemberTokens(m, i + 1, s)
  }

  // ---------------------------------------------------------------- texts that spell a token sequence

  function Strip(s: bytes): bytes
  {
    if s != [] && IsSpace(s[0]) then Strip(s[1..]) else s
  }

  /** `s` is the texts of `t` in order, with white space anywhere between them and around them. */
  predicate Spells(s: bytes, t: seq<Lexeme>)
    decreases t
  {
    var r := Strip(s);
    if t == [] then r == [] else t[0].text <= r && Spells(r[|t[0].text|..], t[1..])
  }

  lemma {:induction false} StripAppend(a: bytes, b: bytes)
    ensures Strip(a + b) == if Strip(a) == [] then Strip(b) else Strip(a) + b
  {
    if a == [] {
      assert a + b == b;
    } else if IsSpace(a[0]) {
      assert (a + b)[1..] == a[1..] + b;
      StripAppend(a[1..], b);
    }
  }

  ghost predicate Solid(t: seq<Lexeme>)
  {
    forall i :: 0 <= i < |t| ==> t[i].text != [] && !IsSpace(t[i].text[0])
  }

  lemma {:induction false} SpellsAppend(a: bytes, t: seq<Lexeme>, b: bytes, u: seq<Lexeme>)
    requires Spells(a, t) && Spells(b, u) && Solid(t)
    ensures Spells(a + b, t + u)
    decreases t
  {
    StripAppend(a, b);
    if t == [] {
      assert t + u == u;
    } else {
      var r, n := Strip(a), |t[0].text|;
      assert (t + u)[0] == t[0] && (t + u)[1..] == t[1..] + u;
      assert (r + b)[n..] == r[n..] + b;
      SpellsAppend(r[n..], t[1..], b, u);
    }
  }

  lemma {:induction false} StripSpace(s: bytes)
    requires AllSpace(s)
    ensures Strip(s) == []
  {
    if s != [] {
      StripSpace(s[1..]);
    }
  }

  lemma SpellsSpace(s: bytes)
    requires AllSpace(s)
    ensures Spells(s, [])
  {
    StripSpace(s);
  }

  lemma SpellsOne(l: Lexeme)
    requires Solid([l])
    ensures Spells(l.text, [l])
  {
    assert [l][0] == l;
    assert l.text[|l.text|..] == [];
  }

  // ---------------------------------------------------------------- lexing

  ghost function Lex(doc: bytes, f: Features, p: nat): seq<Lexeme>
    requires p <= |doc|
    decreases |doc| - p
  {
    var t := ReadToken(doc, f, p);
    if t.kind == EndOfStream then [] else [Lexeme(t.kind, doc[t.start..t.end])] + Lex(doc, f, t.end)
  }

  /** From cursor `p` on, readToken gives the tokens `ts` and then stands at `q`, or before white space in front of
      `q`. */
  ghost predicate Reads(doc: bytes, f: Features, p: nat, ts: seq<Lexeme>, q: nat)
    requires p <= |doc|
    decreases ts
  {
    if ts == [] then p <= q <= SkipSpaces(doc, p)
    else
      var t := ReadToken(doc, f, p);
      ts[0] == Lexeme(t.kind, doc[t.start..t.end]) && Reads(doc, f, t.end, ts[1..], q)
  }

  lemma SkipSpacesAgain(doc: bytes, f: Features, p: nat, q: nat)
    requires p <= |doc| && p <= q <= SkipSpaces(doc, p)
    ensures SkipSpaces(doc, q) == SkipSpaces(doc, p) && ReadToken(doc, f, q) == ReadToken(doc, f, p)
    decreases q - p
  {
    if p < q {
      SkipSpacesAgain(doc, f, p + 1, q);
    }
  }

  /** White space before the first token does not matter. */
  lemma ReadsFrom(doc: bytes, f: Features, p: nat, p': nat, ts: seq<Lexeme>, q: nat)
    requires p <= |doc| && p' <= |doc| && SkipSpaces(doc, p) == SkipSpaces(doc, p') && ts != []
    ensures Reads(doc, f, p, ts, q) == Reads(doc, f, p', ts, q)
  {
    assert ReadToken(doc, f, p) == ReadToken(doc, f, p');
  }

  lemma {:induction false} ReadsSplit(doc: bytes, f: Features, p: nat, a: seq<Lexeme>, b: seq<Lexeme>,
                                      q: nat) returns (m: nat)
    requires p <= |doc| && Reads(doc, f, p, a + b, q)
    ensures p <= m <= |doc| && Reads(doc, f, p, a, m) && Reads(doc, f, m, b, q)
    decreases a
  {
    if a == [] {
      assert a + b == b;
      m := p;
    } else {
      assert (a + b)[0] == a[0] && (a + b)[1..] == a[1..] + b;
      m := ReadsSplit(doc, f, ReadToken(doc, f, p).end, a[1..], b, q);
    }
  }

  lemma {:induction false} ReadsJoin(doc: bytes, f: Features, p: nat, a: seq<Lexeme>, m: nat, b: seq<Lexeme>, q: nat)
    requires p <= |doc| && Reads(doc, f, p, a, m) && m <= |doc| && Reads(doc, f, m, b, q)
    ensures Reads(doc, f, p, a + b, q)
    decreases a
  {
    hide ReadToken, SkipSpaces;
    if a == [] {
      assert a + b == b;
      SkipSpacesAgain(doc, f, p, m);
      if b == [] {
        assert p <= q <= SkipSpaces(doc, p);
      }
    } else {
      assert (a + b)[0] == a[0] && (a + b)[1..] == a[1..] + b;
      ReadsJoin(doc, f, ReadToken(doc, f, p).end, a[1..], m, b, q);
    }
  }

  lemma ReadsOne(doc: bytes, f: Features, p: nat, l: Lexeme, rest: seq<Lexeme>, q: nat)
    requires p <= |doc| && Reads(doc, f, p, [l] + rest, q)
    ensures var t := ReadToken(doc, f, p); l == Lexeme(t.kind, doc[t.start..t.end]) && Reads(doc, f, t.end, rest, q)
  {
    assert ([l] + rest)[0] == l && ([l] + rest)[1..] == rest;
  }

  /** The lexemes that printing produces, and comments of the C kind. */
  ghost predicate Lexical(l: Lexeme)
  {
    match l.kind
    case ObjectBegin => l == LC
    case ObjectEnd => l == RC
    case ArrayBegin => l == LB
    case ArrayEnd => l == RB
    case ArraySeparator => l == SEPARATOR
    case MemberSeparator => l == NAME_SEPARATOR
    case NullToken => l.text == NULL_TEXT
    case True => l.text == TRUE_TEXT
    case False => l.text == FALSE_TEXT
    case Number => IsNumberText(l.text)
    case String => 2 <= |l.text| && l.text[0] == QUOTE && ScanString(l.text, 1, QUOTE) == (true, |l.text|)
    case Comment => ClosedComment(l.text)
    case _ => false
  }

  /** A comment in slashes and stars, closed at its end and not before. */
  predicate ClosedComment(s: bytes)
  {
    4 <= |s| && s[..2] == [SLASH, STAR] && s[|s| - 2..] == [STAR, SLASH]
    && forall i :: 2 <= i < |s| - 2 ==> !(s[i] == STAR && s[i + 1] == SLASH)
  }

  /** Every lexeme is lexical, and a number is followed by a comma, a closing bracket or a comment. */
  ghost predicate Separated(t: seq<Lexeme>)
  {
    && (forall i :: 0 <= i < |t| ==> Lexical(t[i]))
    && (forall i :: 0 <= i < |t| - 1 && t[i].kind == Number ==> Closing(t[i + 1].kind))
  }

  predicate Closing(k: TokenType) { k == ArraySeparator || k == ArrayEnd || k == ObjectEnd || k == Comment }

  lemma LexicalIsSolid(l: Lexeme)
    requires Lexical(l)
    ensures l.text != [] && !IsSpace(l.text[0])
  {
    if l.kind == Comment {
      assert l.text[0] == l.text[..2][0];
    }
    if l.kind == Number {
      NumberStarts(l.text);
    }
  }

  lemma {:induction false} StripIsSkip(doc: bytes, p: nat)
    requires p <= |doc|
    ensures Strip(doc[p..]) == doc[SkipSpaces(doc, p)..]
    decreases |doc| - p
  {
    if p < |doc| && IsSpace(doc[p]) {
      assert doc[p..][1..] == doc[p + 1..];
      StripIsSkip(doc, p + 1);
    }
  }

  lemma {:induction false} ScanLocal(doc: bytes, p: nat, text: bytes, k: nat)
    requires p + |text| <= |doc| && doc[p..p + |text|] == text && k <= |text|
    requires ScanString(text, k, QUOTE) == (true, |text|)
    ensures ScanString(doc, p + k, QUOTE) == (true, p + |text|)
    decreases |text| - k
  {
    assert k < |text| ==> doc[p + k] == text[k];
    if k < |text| && text[k] == BACKSLASH {
      ScanLocal(doc, p, text, if k + 2 <= |text| then k + 2 else |text|);
    } else if k < |text| && text[k] != QUOTE {
      ScanLocal(doc, p, text, k + 1);
    }
  }

  predicate EndsNumber(doc: bytes, p: nat)
  {
    p >= |doc| || (!IsDigit(doc[p]) && doc[p] !in {DOT, PLUS, MINUS, LETTER_I} && !IsExponent(doc[p]))
  }

  /** A printed token is lexed as itself wherever it stands. */
  lemma LexOne(doc: bytes, f: Features, p: nat, l: Lexeme)
    requires Lexical(l) && p + |l.text| <= |doc| && doc[p..p + |l.text|] == l.text
    requires l.kind == Number ==> EndsNumber(doc, p + |l.text|)
    ensures l.text != [] && p < |doc| && TokenAt(doc, f, p) == Token(l.kind, p, p + |l.text|)
  {
    LexicalIsSolid(l);
    if l.kind == String {
      LexString(doc, f, p, l.text);
    } else if l.kind == Number {
      LexNumber(doc, f, p, l.text);
    } else if l.kind == Comment {
      LexComment(doc, f, p, l.text);
    } else {
      LexFixed(doc, f, p, l);
    }
  }

  lemma LexFixed(doc: bytes, f: Features, p: nat, l: Lexeme)
    requires Lexical(l) && l.text != [] && l.kind !in {String, Number, Comment}
    requires p + |l.text| <= |doc| && doc[p..p + |l.text|] == l.text
    ensures p < |doc| && TokenAt(doc, f, p) == Token(l.kind, p, p + |l.text|)
  {
    assert doc[p] == l.text[0];
    if |l.text| > 1 {
      assert doc[p + 1..p + |l.text|] == l.text[1..];
    }
  }

  lemma LexString(doc: bytes, f: Features, p: nat, text: bytes)
    requires 2 <= |text| && text[0] == QUOTE && ScanString(text, 1, QUOTE) == (true, |text|)
    requires p + |text| <= |doc| && doc[p..p + |text|] == text
    ensures p < |doc| && TokenAt(doc, f, p) == Token(String, p, p + |text|)
  {
    assert doc[p] == text[0];
    ScanLocal(doc, p, text, 1);
  }

  lemma LexComment(doc: bytes, f: Features, p: nat, text: bytes)
    requires ClosedComment(text) && p + |text| <= |doc| && doc[p..p + |text|] == text
    ensures p < |doc| && TokenAt(doc, f, p) == Token(Comment, p, p + |text|)
  {
    assert text[..2][0] == text[0] && text[..2][1] == text[1];
    assert doc[p] == text[0] && doc[p + 1] == text[1];
    CommentLocal(doc, p, text, 2);
  }

  lemma {:induction false} CommentLocal(doc: bytes, p: nat, text: bytes, k: nat)
    requires ClosedComment(text) && p + |text| <= |doc| && doc[p..p + |text|] == text && 2 <= k <= |text| - 2
    ensures CStyleComment(doc, p + k) == (true, p + |text|)
    decreases |text| - k
  {
    assert doc[p + k] == text[k] && doc[p + k + 1] == text[k + 1];
    if k < |text| - 2 {
      CommentLocal(doc, p, text, k + 1);
    } else {
      assert text[k] == text[|text| - 2..][0] && text[k + 1] == text[|text| - 2..][1];
    }
  }

  lemma LexNumber(doc: bytes, f: Features, p: nat, text: bytes)
    requires IsNumberText(text)
    requires p + |text| <= |doc| && doc[p..p + |text|] == text && EndsNumber(doc, p + |text|)
    ensures p < |doc| && TokenAt(doc, f, p) == Token(Number, p, p + |text|)
  {
    hide TokenAt, AreParts;
    var n: Parts :| AreParts(n) && text == NumberText(n);
    NumberIsRead(doc, f, p, n);
  }

  /** A text that spells printed tokens lexes to them, under every feature setting. */
  lemma {:induction false} SpellsLex(doc: bytes, f: Features, p: nat, t: seq<Lexeme>)
    requires p <= |doc| && Spells(doc[p..], t) && Separated(t)
    ensures Lex(doc, f, p) == t
    decreases t
  {
    hide ReadToken, Strip, Spells, Lexical;
    if t == [] {
      LexedEnd(doc, f, p);
    } else {
      var q := LexedFirst(doc, f, p, t);
      SpellsLex(doc, f, q + |t[0].text|, t[1..]);
    }
  }

  /** ... which is what readToken gives, one after the other, up to the end of the document. */
  lemma {:induction false} SpellsReads(doc: bytes, f: Features, p: nat, t: seq<Lexeme>) returns (q: nat)
    requires p <= |doc| && Spells(doc[p..], t) && Separated(t)
    ensures q <= |doc| && Reads(doc, f, p, t, q) && ReadToken(doc, f, q).kind == EndOfStream
    decreases t
  {
    hide ReadToken, Strip, Spells, Lexical;
    if t == [] {
      LexedEnd(doc, f, p);
      q := p;
    } else {
      var r := LexedFirst(doc, f, p, t);
      q := SpellsReads(doc, f, r + |t[0].text|, t[1..]);
    }
  }

  lemma LexedEnd(doc: bytes, f: Features, p: nat)
    requires p <= |doc| && Spells(doc[p..], [])
    ensures ReadToken(doc, f, p).kind == EndOfStream
  {
    StripIsSkip(doc, p);
  }

  lemma LexedFirst(doc: bytes, f: Features, p: nat, t: seq<Lexeme>) returns (q: nat)
    requires p <= |doc| && t != [] && Spells(doc[p..], t) && Separated(t)
    ensures p <= q && q + |t[0].text| <= |doc| && doc[q..q + |t[0].text|] == t[0].text
    ensures ReadToken(doc, f, p) == Token(t[0].kind, q, q + |t[0].text|) && t[0].kind != EndOfStream
    ensures Spells(doc[q + |t[0].text|..], t[1..])
  {
    hide TokenAt, Strip, Lexical, EndsNumber;
    StripIsSkip(doc, p);
    q := SkipSpaces(doc, p);
    var l := t[0];
    var n := |l.text|;
    assert doc[q..q + n] == doc[q..][..n] == l.text;
    assert doc[q..][n..] == doc[q + n..];
    if l.kind == Number {
      NumberFollowed(doc, q + n, t[1..]);
    }
    LexOne(doc, f, q, l);
    NotEnd(l);
  }

  lemma NotEnd(l: Lexeme)
    requires Lexical(l)
    ensures l.kind != EndOfStream
  {
  }

  lemma NumberFollowed(doc: bytes, p: nat, t: seq<Lexeme>)
    requires p <= |doc| && Spells(doc[p..], t)
    requires forall i :: 0 <= i < |t| ==> Lexical(t[i])
    requires t != [] ==> Closing(t[0].kind)
    ensures EndsNumber(doc, p)
  {
    hide Lexical, Strip, Spells;
    StripIsSkip(doc, p);
    var q := SkipSpaces(doc, p);
    SpellsFirst(doc[p..], t);
    if p == q && t != [] {
      ClosingText(t[0]);
      assert doc[p] == doc[q..][0] == t[0].text[0];
    }
  }

  lemma SpellsFirst(s: bytes, t: seq<Lexeme>)
    requires Spells(s, t)
    ensures if t == [] then Strip(s) == [] else t[0].text <= Strip(s)
  {
  }

  lemma ClosingText(l: Lexeme)
    requires Lexical(l) && Closing(l.kind)
    ensures l.text != [] && (l.text[0] == COMMA || l.text[0] == RBRACKET || l.text[0] == RBRACE || l.text[0] == SLASH)
  {
    if l.kind == Comment {
      assert l.text[0] == l.text[..2][0];
    }
  }
}
