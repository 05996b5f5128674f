/** Which check of the reader gives which error, at which token, and where reading goes on. */
module Errors {
  import opened ByteStrings
  import opened Wrappers
  import opened Quoting
  import opened Values
  import opened Lexer
  import opened Parser
  import opened Tokens

  /** The byte at `p`, and 0 at the end of the document. */
  function ByteAt(doc: bytes, p: nat): byte { if p < |doc| then doc[p] else 0 }

  /** Recovery skips tokens up to the first one of the wanted kind, or to the end of the stream. */
  lemma {:induction false} RecoverExactly(doc: bytes, f: Features, p: nat, until: TokenType)
    returns (skipped: seq<Lexeme>, m: nat)
    requires p <= |doc|
    ensures m <= |doc| && Reads(doc, f, p, skipped, m)
    ensures forall i :: 0 <= i < |skipped| ==> skipped[i].kind != until && skipped[i].kind != EndOfStream
    ensures var t := ReadToken(doc, f, m);
            (t.kind == until || t.kind == EndOfStream) && Recover(doc, f, p, until) == t.end
    decreases |doc| - p
  {
    hide ReadToken;
    var t := ReadToken(doc, f, p);
    if t.kind == until || t.kind == EndOfStream {
      skipped, m := [], p;
    } else {
      var rest;
      rest, m := RecoverExactly(doc, f, t.end, until);
      skipped := [Lexeme(t.kind, doc[t.start..t.end])] + rest;
    }
  }

  /** A token that starts no value is an error of its own, unless it stands for a dropped null. */
  lemma NoValue(x: Context, p: nat, depth: nat, cur: Value)
    requires p <= |x.doc| && depth <= x.f.stackLimit
    requires NextToken(x.doc, x.f, p).kind in {ObjectEnd, ArrayEnd, ArraySeparator, MemberSeparator, Comment, Error,
                                               EndOfStream}
    ensures var t, r := NextToken(x.doc, x.f, p), ReadValue(x, p, depth, cur);
            if x.f.allowDroppedNullPlaceholders && t.kind in {ArraySeparator, ArrayEnd, ObjectEnd}
            then r == Done(t.end - 1, Null)
            else r == Failed(t.end, cur, ErrorInfo(t, ValueExpected, None))
  {
    hide NextToken, ReadObject, ReadArray;
  }

  lemma {:induction false} LeftInside(b: bytes)
    ensures Decode(b).BadText? ==> Decode(b).left <= |b|
  {
    hide DecodeCodePoint, UnescapeLetter;
    if b != [] && b[0] != QUOTE {
      if b[0] != BACKSLASH {
        LeftInside(b[1..]);
      } else {
        EscapeLeftInside(b[1..]);
        match DecodeEscape(b[1..])
        case Escaped(_, used) => LeftInside(b[1 + used..]);
        case BadEscaped(_, _) =>
      }
    }
  }

  lemma EscapeLeftInside(b: bytes)
    ensures DecodeEscape(b).BadEscaped? ==> DecodeEscape(b).left <= |b|
  {
    hide HexDigits;
    if b != [] {
      var digits := b[1..];
      if |digits| >= 4 {
        DigitsLeftInside(digits, 0, 0);
        if |digits| >= 10 {
          DigitsLeftInside(digits[4..][2..], 0, 0);
        }
      }
    }
  }

  lemma {:induction false} DigitsLeftInside(b: bytes, i: nat, acc: nat)
    requires i <= 4 <= |b|
    ensures HexDigits(b, i, acc).BadCodePoint? ==> HexDigits(b, i, acc).left <= |b|
    decreases 4 - i
  {
    hide HexValue;
    if i < 4 && HexValue(b[i]).Some? {
      DigitsLeftInside(b, i + 1, acc * 16 + HexValue(b[i]).value);
    }
  }

  /** A string that does not decode gives the error of the decoder, at the place where it stopped: as far from the
      closing quote as there are bytes left. */
  lemma BadStringAt(x: Context, t: Token, cur: Value)
    requires t.kind == String && t.start + 2 <= t.end <= |x.doc|
    ensures match Decode(x.doc[t.start + 1..t.end - 1])
            case Chars(s) => Scalar(x, t, cur) == Done(t.end, Str(s)) && MemberName(x, t) == Named(s)
            case BadText(e, left) =>
              left <= t.end - t.start - 2
              && Scalar(x, t, cur) == Failed(t.end, cur, ErrorInfo(t, BadString(e), Some(t.end - 1 - left)))
              && MemberName(x, t) == BadName(ErrorInfo(t, BadString(e), Some(t.end - 1 - left)))
  {
    hide Decode;
    assert Body(TokenText(x.doc, t)) == x.doc[t.start + 1..t.end - 1];
    LeftInside(x.doc[t.start + 1..t.end - 1]);
  }

  /** What readObject checks after a name: its length, that it is new, and the colon; then its value is read. */
  lemma AfterName(x: Context, p: nat, t: Token, depth: nat, members: seq<Member>, name: bytes)
    requires p <= t.start < t.end <= |x.doc| && Sorted(members)
    ensures var r := ReadMember(x, p, t, depth, members, name);
            var q := SkipSpaces(x.doc, t.end);
            var taken := exists i :: 0 <= i < |members| && members[i].key == Name(name);
            if |name| >= 1073741824 then r == Thrown
            else if x.f.rejectDupKeys && taken then
              r.Failed? && r.error == ErrorInfo(t, DuplicateKey(name), None) && r.value == Obj(members)
              && r.pos == Recover(x.doc, x.f, t.end, ObjectEnd)
            else if ByteAt(x.doc, q) != ':' as int then
              r.Failed? && r.error == ErrorInfo(ReadToken(x.doc, x.f, t.end), MissingColon, None)
              && r.error.token.start == q && r.value == Obj(members)
              && r.pos == Recover(x.doc, x.f, r.error.token.end, ObjectEnd)
            else match ReadValue(x, q + 1, depth + 1, Slot(members, Name(name)))
              case Thrown => r == Thrown
              case Failed(p', v, e) =>
                r == Failed(Recover(x.doc, x.f, p', ObjectEnd), Obj(Put(members, Name(name), v)), e)
              case Done(p', v) => r == AfterMember(x, p', depth, Put(members, Name(name), v), name == [])
  {
    hide ReadValue, AfterMember, Put, Slot, Recover, TokenAt, Sorted;
    Taken(members, name);
    var q := SkipSpaces(x.doc, t.end);
    if q < |x.doc| {
      ColonOnly(x.doc, x.f, q);
    }
  }

  lemma Taken(members: seq<Member>, name: bytes)
    requires Sorted(members)
    ensures Has(members, Name(name)) <==> exists i :: 0 <= i < |members| && members[i].key == Name(name)
  {
    if i :| 0 <= i < |members| && members[i].key == Name(name) {
      FindsKey(members, Name(name), i);
    }
  }

  lemma ColonOnly(doc: bytes, f: Features, q: nat)
    requires q < |doc|
    ensures TokenAt(doc, f, q).kind == MemberSeparator <==> doc[q] == ':' as int
    ensures doc[q] == ':' as int ==> TokenAt(doc, f, q) == Token(MemberSeparator, q, q + 1)
  {
    hide ScanString, ReadComment, NumberEnd, Match;
  }

  /** What readObject checks after a value: a comma, a brace or a comment. Behind comments any token passes. */
  lemma AfterValue(x: Context, p: nat, depth: nat, members: seq<Member>, nameEmpty: bool)
    requires p <= |x.doc|
    ensures var r := AfterMember(x, p, depth, members, nameEmpty);
            var q, t := SkipSpaces(x.doc, p), ReadToken(x.doc, x.f, p);
            if ByteAt(x.doc, q) == '}' as int then r == Done(q + 1, Obj(members))
            else if ByteAt(x.doc, q) == ',' as int then r == ReadObject(x, q + 1, depth, members, nameEmpty)
            else if t.kind != Comment then
              t.start == q
              && r == Failed(Recover(x.doc, x.f, t.end, ObjectEnd), Obj(members),
                             ErrorInfo(t, MissingCommaOrBrace, None))
            else
              var u := SkipCommentRun(x.doc, x.f, t);
              r == if u.kind == ObjectEnd then Done(u.end, Obj(members))
                   else ReadObject(x, u.end, depth, members, nameEmpty)
  {
    hide ReadObject, Recover, TokenAt;
    var q := SkipSpaces(x.doc, p);
    if q < |x.doc| {
      Separators(x.doc, x.f, q);
    }
  }

  lemma Separators(doc: bytes, f: Features, q: nat)
    requires q < |doc|
    ensures TokenAt(doc, f, q).kind == ArraySeparator <==> doc[q] == ',' as int
    ensures TokenAt(doc, f, q).kind == ObjectEnd <==> doc[q] == '}' as int
    ensures TokenAt(doc, f, q).kind == ArrayEnd <==> doc[q] == ']' as int
    ensures doc[q] in {',' as int, '}' as int, ']' as int} ==> TokenAt(doc, f, q).end == q + 1
  {
    hide ScanString, ReadComment, NumberEnd, Match;
  }

  /** What readArray checks after an element, comments left aside: a comma or a bracket. */
  lemma AfterItem(x: Context, p: nat, depth: nat, elems: seq<Member>, index: nat)
    requires p <= |x.doc|
    ensures var t := SkipCommentRun(x.doc, x.f, ReadToken(x.doc, x.f, p));
            var r, c := AfterElement(x, p, depth, elems, index), ByteAt(x.doc, t.start);
            if c == ']' as int then r == Done(t.start + 1, Arr(elems))
            else if c == ',' as int then r == ReadArray(x, t.start + 1, depth, elems, index)
            else r == Failed(Recover(x.doc, x.f, t.end, ArrayEnd), Arr(elems),
                             ErrorInfo(t, MissingCommaOrBracket, None))
  {
    hide ReadArray, Recover, TokenAt, SkipCommentRun, ReadToken;
    RunIsToken(x.doc, x.f, ReadToken(x.doc, x.f, p), p);
    var t := SkipCommentRun(x.doc, x.f, ReadToken(x.doc, x.f, p));
    if t.start < |x.doc| {
      Separators(x.doc, x.f, t.start);
    }
  }

  /** Behind comments stands the token at its start. */
  lemma {:induction false} RunIsToken(doc: bytes, f: Features, t: Token, p: nat)
    requires p <= |doc| && t == ReadToken(doc, f, p)
    ensures var u := SkipCommentRun(doc, f, t);
            if u.start < |doc| then u == TokenAt(doc, f, u.start) else u == Token(EndOfStream, |doc|, |doc|)
    decreases |doc| - t.end
  {
    hide TokenAt;
    if t.kind == Comment && ReadToken(doc, f, t.end).kind != EndOfStream {
      RunIsToken(doc, f, ReadToken(doc, f, t.end), t.end);
    }
  }

  /** What readObject expects at the start of a turn: the closing brace where it may stand, else a string, or a number
      when those may be names. */
  lemma AtName(x: Context, p: nat, depth: nat, members: seq<Member>, nameEmpty: bool)
    requires p <= |x.doc|
    ensures var t := SkipCommentRun(x.doc, x.f, ReadToken(x.doc, x.f, p));
            var r := ReadObject(x, p, depth, members, nameEmpty);
            if ByteAt(x.doc, t.start) == '}' as int && (nameEmpty || x.f.allowTrailingCommas)
            then r == Done(t.start + 1, Obj(members))
            else if t.kind != String && !(t.kind == Number && x.f.allowNumericKeys)
            then r == Failed(Recover(x.doc, x.f, t.end, ObjectEnd), Obj(members),
                             ErrorInfo(t, MissingBraceOrName, None))
            else match MemberName(x, t)
              case BadName(e) =>
                e.token == t && (if t.kind == String then e.message.BadString? else e.message == NotANumber)
                && r == Failed(Recover(x.doc, x.f, t.end, ObjectEnd), Obj(members), e)
              case Named(name) => r == ReadMember(x, p, t, depth, members, name)
  {
    hide ReadMember, Recover, TokenAt, SkipCommentRun, ReadToken, Decode, NumberValue;
    RunIsToken(x.doc, x.f, ReadToken(x.doc, x.f, p), p);
    var t := SkipCommentRun(x.doc, x.f, ReadToken(x.doc, x.f, p));
    if t.start < |x.doc| {
      Separators(x.doc, x.f, t.start);
    }
  }

  /** The errors of a document are that of its value, if any, and then that of the first check behind it which fails:
      nothing but blanks and comments follows, and the root is a container. */
  lemma RootChecks(x: Context, root: Value)
    ensures var r := ParseDocument(x, root);
            match ReadValue(x, BomLength(x.doc, x.f), 1, root)
            case Thrown => r.ParseThrew?
            case Failed(p, v, e) =>
              r.Parsed? && r.root == v && r.errors != [] && r.errors[0] == e && EndFails(x, p, v, r.errors[1..])
            case Done(p, v) => r.Parsed? && r.root == v && EndFails(x, p, v, r.errors)
  {
    hide ReadValue, NextToken;
    match ReadValue(x, BomLength(x.doc, x.f), 1, root)
    case Thrown =>
    case Failed(p, v, e) =>
      EndOfInput(x, p);
      assert ([e] + EndErrors(x, p, v))[1..] == EndErrors(x, p, v);
    case Done(p, v) =>
      EndOfInput(x, p);
  }

  lemma EndOfInput(x: Context, p: nat)
    requires p <= |x.doc|
    ensures var t := NextToken(x.doc, x.f, p); t.kind == EndOfStream <==> ByteAt(x.doc, t.start) == 0
  {
    hide TokenAt, SkipCommentRun;
    RunIsToken(x.doc, x.f, ReadToken(x.doc, x.f, p), p);
  }

  predicate EndFails(x: Context, p: nat, root: Value, errors: seq<ErrorInfo>)
    requires p <= |x.doc|
  {
    var t := NextToken(x.doc, x.f, p);
    var extra := x.f.failIfExtra && ByteAt(x.doc, t.start) != 0;
    var scalar := x.f.strictRoot && !root.Arr? && !root.Obj?;
    && |errors| <= 1 && (errors != [] <==> extra || scalar)
    && (extra ==> errors[0] == ErrorInfo(t, ExtraAfterValue, None))
    && (scalar && !extra ==> errors[0].message == RootNotContainer && errors[0].token.start == 0
                             && errors[0].token.end == |x.doc|)
  }
}
