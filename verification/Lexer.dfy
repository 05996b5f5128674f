/** The tokens of OurReader, as functions of a document and a cursor position. */
module Lexer {
  import opened ByteStrings
  import opened Quoting

  datatype Features = Features(
    allowComments: bool,
    allowTrailingCommas: bool,
    strictRoot: bool,
    allowDroppedNullPlaceholders: bool,
    allowNumericKeys: bool,
    allowSingleQuotes: bool,
    failIfExtra: bool,
    rejectDupKeys: bool,
    allowSpecialFloats: bool,
    skipBom: bool,
    stackLimit: nat)

  datatype TokenType =
    | EndOfStream | ObjectBegin | ObjectEnd | ArrayBegin | ArrayEnd | String | Number | True | False | NullToken
    | NaN | PosInf | NegInf | ArraySeparator | MemberSeparator | Comment | Error

  datatype Token = Token(kind: TokenType, start: nat, end: nat)

  /** The text after the first letter of the keywords. */
  const RUE: bytes := TRUE_TEXT[1..]
  const ALSE: bytes := FALSE_TEXT[1..]
  const ULL: bytes := NULL_TEXT[1..]
  const AN: bytes := [0x61, 0x4E]
  const NFINITY: bytes := [0x6E, 0x66, 0x69, 0x6E, 0x69, 0x74, 0x79]

  function SkipSpaces(doc: bytes, p: nat): (q: nat)
    requires p <= |doc|
    ensures p <= q <= |doc|
    ensures forall i :: p <= i < q ==> IsSpace(doc[i])
    ensures q < |doc| ==> !IsSpace(doc[q])
    decreases |doc| - p
  {
    if p < |doc| && IsSpace(doc[p]) then SkipSpaces(doc, p + 1) else p
  }

  /** match: the pattern is at the cursor; the cursor moves only when it is. */
  function Match(doc: bytes, p: nat, pattern: bytes): bool
    requires p <= |doc|
  {
    p + |pattern| <= |doc| && doc[p..p + |pattern|] == pattern
  }

  /** readCStyleComment: success and the new cursor. An unterminated comment is accepted when its last byte is a
      slash. */
  function CStyleComment(doc: bytes, p: nat): (r: (bool, nat))
    requires p <= |doc|
    ensures p <= r.1 <= |doc|
    decreases |doc| - p
  {
    if p + 1 < |doc| then
      if doc[p] == STAR && doc[p + 1] == SLASH then (true, p + 2) else CStyleComment(doc, p + 1)
    else if p == |doc| then (false, p)
    else (doc[p] == SLASH, p + 1)
  }

  /** readCppStyleComment: the cursor after the line. */
  function CppStyleComment(doc: bytes, p: nat): (q: nat)
    requires p <= |doc|
    ensures p <= q <= |doc|
    decreases |doc| - p
  {
    if p == |doc| then p
    else if doc[p] == LF then p + 1
    else if doc[p] == CR then (if p + 1 < |doc| && doc[p + 1] == LF then p + 2 else p + 1)
    else CppStyleComment(doc, p + 1)
  }

  /** readComment after the first slash. */
  function ReadComment(doc: bytes, p: nat): (r: (bool, nat))
    requires p <= |doc|
    ensures p <= r.1 <= |doc|
  {
    if p == |doc| then (false, p)
    else if doc[p] == STAR then CStyleComment(doc, p + 1)
    else if doc[p] == SLASH then (true, CppStyleComment(doc, p + 1))
    else (false, p + 1)
  }

  function SkipDigits(doc: bytes, p: nat): (q: nat)
    requires p <= |doc|
    ensures p <= q <= |doc|
    ensures forall i :: p <= i < q ==> IsDigit(doc[i])
    ensures q < |doc| ==> !IsDigit(doc[q])
    decreases |doc| - p
  {
    if p < |doc| && IsDigit(doc[p]) then SkipDigits(doc, p + 1) else p
  }

  predicate IsExponent(c: byte) { c == 0x65 || c == 0x45 }

  /** readNumber after the first character: digits, a fraction, an exponent, each of them optional and possibly
      empty. */
  function NumberEnd(doc: bytes, p: nat): (q: nat)
    requires p <= |doc|
    ensures p <= q <= |doc|
  {
    ExponentEnd(doc, FractionEnd(doc, SkipDigits(doc, p)))
  }

  function FractionEnd(doc: bytes, p: nat): (q: nat)
    requires p <= |doc|
    ensures p <= q <= |doc|
  {
    if p < |doc| && doc[p] == DOT then SkipDigits(doc, p + 1) else p
  }

  function ExponentEnd(doc: bytes, p: nat): (q: nat)
    requires p <= |doc|
    ensures p <= q <= |doc|
  {
    if p < |doc| && IsExponent(doc[p]) then
      SkipDigits(doc, if p + 1 < |doc| && (doc[p + 1] == PLUS || doc[p + 1] == MINUS) then p + 2 else p + 1)
    else p
  }

  const LETTER_I: byte := 0x49

  function Keyword(doc: bytes, start: nat, p: nat, kind: TokenType, pattern: bytes): (t: Token)
    requires start < p <= |doc|
    ensures t.start == start < t.end <= |doc|
  {
    if Match(doc, p, pattern) then Token(kind, start, p + |pattern|) else Token(Error, start, p)
  }

  /** After a sign: a number, or an infinity when an `I` follows. */
  function Signed(doc: bytes, f: Features, start: nat, infinity: TokenType): (t: Token)
    requires start < |doc|
    ensures t.start == start < t.end <= |doc|
  {
    var p := start + 1;
    if p < |doc| && doc[p] == LETTER_I then
      if f.allowSpecialFloats then Keyword(doc, start, p + 1, infinity, NFINITY) else Token(Error, start, p + 1)
    else Token(Number, start, NumberEnd(doc, p))
  }

  function Literal(doc: bytes, start: nat, quote: byte): (t: Token)
    requires start < |doc|
    ensures t.start == start < t.end <= |doc| && (t.kind == String ==> start + 2 <= t.end)
  {
    var (ok, end) := ScanString(doc, start + 1, quote);
    Token(if ok then String else Error, start, end)
  }

  /** readToken from a position that is not white space. */
  function TokenAt(doc: bytes, f: Features, start: nat): (t: Token)
    requires start < |doc|
    ensures t.start == start < t.end <= |doc| && (t.kind == String ==> start + 2 <= t.end)
    ensures t.kind == EndOfStream <==> doc[start] == 0
  {
    var c, next := doc[start], start + 1;
    if c == LBRACE then Token(ObjectBegin, start, next)
    else if c == RBRACE then Token(ObjectEnd, start, next)
    else if c == LBRACKET then Token(ArrayBegin, start, next)
    else if c == RBRACKET then Token(ArrayEnd, start, next)
    else if c == QUOTE then Literal(doc, start, QUOTE)
    else if c == APOSTROPHE then if f.allowSingleQuotes then Literal(doc, start, APOSTROPHE)
      else Token(Error, start, next)
    else if c == SLASH then
      var (ok, end) := ReadComment(doc, next);
      Token(if ok then Comment else Error, start, end)
    else if IsDigit(c) then Token(Number, start, NumberEnd(doc, next))
    else if c == MINUS then Signed(doc, f, start, NegInf)
    else if c == PLUS then Signed(doc, f, start, PosInf)
    else if c == TRUE_TEXT[0] then Keyword(doc, start, next, True, RUE)
    else if c == FALSE_TEXT[0] then Keyword(doc, start, next, False, ALSE)
    else if c == NULL_TEXT[0] then Keyword(doc, start, next, NullToken, ULL)
    else if c == 0x4E && f.allowSpecialFloats then Keyword(doc, start, next, NaN, AN)
    else if c == LETTER_I && f.allowSpecialFloats then Keyword(doc, start, next, PosInf, NFINITY)
    else if c == COMMA then Token(ArraySeparator, start, next)
    else if c == COLON then Token(MemberSeparator, start, next)
    else if c == 0 then Token(EndOfStream, start, next)
    else Token(Error, start, next)
  }

  /** A string token has both its quotes, and only the end of the stream takes no byte. */
  predicate Shaped(doc: bytes, t: Token)
  {
    t.start <= t.end <= |doc| && (t.kind != EndOfStream ==> t.start < t.end)
      && (t.kind == String ==> t.start + 2 <= t.end)
  }

  /** readToken: white space, then one token. Every token but the end of the stream takes at least one byte. */
  function ReadToken(doc: bytes, f: Features, p: nat): (t: Token)
    requires p <= |doc|
    ensures p <= t.start && Shaped(doc, t)
    ensures t.kind == EndOfStream <==> t.start == |doc| || doc[t.start] == 0
  {
    var start := SkipSpaces(doc, p);
    if start == |doc| then Token(EndOfStream, start, start) else TokenAt(doc, f, start)
  }

  /** The first token that is no comment, from a token that was read. */
  function SkipCommentRun(doc: bytes, f: Features, t: Token): (r: Token)
    requires Shaped(doc, t)
    ensures t.start <= r.start && Shaped(doc, r)
    ensures t.end <= r.end && r.kind != Comment
    decreases |doc| - t.end
  {
    if t.kind == Comment then
      var next := ReadToken(doc, f, t.end);
      if next.kind == EndOfStream then next else SkipCommentRun(doc, f, next)
    else t
  }

  /** skipCommentTokens. */
  function NextToken(doc: bytes, f: Features, p: nat): (t: Token)
    requires p <= |doc|
    ensures p <= t.start && Shaped(doc, t)
  {
    var t := ReadToken(doc, f, p);
    if f.allowComments then SkipCommentRun(doc, f, t) else t
  }

  /** recoverFromError: the cursor after the next token of the given kind, or at the end of the stream. */
  function Recover(doc: bytes, f: Features, p: nat, until: TokenType): (q: nat)
    requires p <= |doc|
    ensures p <= q <= |doc|
    decreases |doc| - p
  {
    var t := ReadToken(doc, f, p);
    if t.kind == until || t.kind == EndOfStream then t.end else Recover(doc, f, t.end, until)
  }

  // ---------------------------------------------------------------- facts of the grammar

  /** A block comment is accepted exactly when it is closed, or when the document ends in a slash after its opening. */
  lemma {:induction false} CommentAcceptedExactly(doc: bytes, p: nat)
    requires p <= |doc|
    ensures CStyleComment(doc, p).0 <==>
            (exists i :: p <= i && i + 1 < |doc| && doc[i] == STAR && doc[i + 1] == SLASH)
              || (p < |doc| && doc[|doc| - 1] == SLASH)
    decreases |doc| - p
  {
    if p + 1 < |doc| && !(doc[p] == STAR && doc[p + 1] == SLASH) {
      CommentAcceptedExactly(doc, p + 1);
    }
  }
}
