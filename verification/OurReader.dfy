/** OurReader: the recursive-descent JSON parser, moving a cursor and keeping errors and a stack of nodes. */
module OurReader {
  import opened ByteStrings
  import opened Wrappers
  import opened Utf8
  import opened Quoting
  import opened Integers
  import opened Values
  import opened Lexer
  import opened Parser

  /** The result of a bool function that may throw. */
  datatype Status = Yes | No | Threw

  class Reader {
    const features: Features
    const lib: Doubles
    var doc: bytes            // the bytes from beginDoc to endDoc
    var current: nat          // current_ - beginDoc
    var errors: seq<ErrorInfo>
    var nodes: seq<Value>     // the values that nodes_ points to, innermost last

    constructor (features: Features, lib: Doubles)
      ensures this.features == features && this.lib == lib && Valid()
    {
      this.features, this.lib := features, lib;
      doc, current, errors, nodes := [], 0, [], [];
    }

    /** The cursor is inside the document and the node stack is within one of its limit. */
    predicate Valid()
      reads this
    {
      current <= |doc| && |nodes| <= features.stackLimit + 1
    }

    ghost function Ctx(): Context
      reads this`doc
    {
      Context(doc, features, lib)
    }

    // ---------------------------------------------------------------- characters

    method GetNextChar() returns (c: byte)
      requires Valid()
      modifies this`current
      ensures Valid()
      ensures if old(current) == |doc| then c == 0 && current == old(current)
              else c == doc[old(current)] && current == old(current) + 1
    {
      if current == |doc| {
        return 0;
      }
      c := doc[current];
      current := current + 1;
    }

    method DoSkipSpaces()
      requires Valid()
      modifies this`current
      ensures Valid() && current == SkipSpaces(doc, old(current))
    {
      while current != |doc|
        invariant Valid() && SkipSpaces(doc, current) == SkipSpaces(doc, old(current))
        decreases |doc| - current
      {
        var c := doc[current];
        if c == SPACE || c == TAB || c == CR || c == LF {
          current := current + 1;
        } else {
          break;
        }
      }
    }

    /** match compares backwards and moves only on success. */
    method DoMatch(pattern: bytes) returns (ok: bool)
      requires Valid()
      modifies this`current
      ensures Valid() && ok == Match(doc, old(current), pattern)
      ensures current == if ok then old(current) + |pattern| else old(current)
    {
      if |doc| - current < |pattern| {
        return false;
      }
      var index := |pattern|;
      while index > 0
        invariant 0 <= index <= |pattern| && current == old(current)
        invariant forall i :: index <= i < |pattern| ==> doc[current + i] == pattern[i]
      {
        index := index - 1;
        if doc[current + index] != pattern[index] {
          assert doc[current..current + |pattern|][index] != pattern[index];
          return false;
        }
      }
      assert doc[current..current + |pattern|] == pattern;
      current := current + |pattern|;
      return true;
    }

    // ---------------------------------------------------------------- comments

    method ReadCStyleComment() returns (ok: bool)
      requires Valid()
      modifies this`current
      ensures Valid() && (ok, current) == CStyleComment(doc, old(current))
    {
      ghost var start := current;
      while current + 1 < |doc|
        invariant Valid() && CStyleComment(doc, current) == CStyleComment(doc, start)
        decreases |doc| - current
      {
        var c := GetNextChar();
        if c == STAR && doc[current] == SLASH {
          var slash := GetNextChar();
          return slash == SLASH;
        }
      }
      var last := GetNextChar();
      return last == SLASH;
    }

    method ReadCppStyleComment() returns (ok: bool)
      requires Valid()
      modifies this`current
      ensures Valid() && ok && current == CppStyleComment(doc, old(current))
    {
      while current != |doc|
        invariant Valid() && CppStyleComment(doc, current) == CppStyleComment(doc, old(current))
        decreases |doc| - current
      {
        var c := GetNextChar();
        if c == LF {
          return true;
        }
        if c == CR {
          if current != |doc| && doc[current] == LF {
            var _ := GetNextChar();
          }
          return true;
        }
      }
      return true;
    }

    method DoReadComment() returns (ok: bool)
      requires Valid()
      modifies this`current
      ensures Valid() && (ok, current) == ReadComment(doc, old(current))
    {
      var c := GetNextChar();
      ok := false;
      if c == STAR {
        ok := ReadCStyleComment();
      } else if c == SLASH {
        ok := ReadCppStyleComment();
      }
    }

    // ---------------------------------------------------------------- strings and numbers

    method ReadString(quote: byte) returns (ok: bool)
      requires Valid() && quote != 0 && quote != BACKSLASH
      modifies this`current
      ensures Valid() && (ok, current) == ScanString(doc, old(current), quote)
    {
      var c := 0;
      while current != |doc|
        invariant Valid() && c != quote
        invariant ScanString(doc, current, quote) == ScanString(doc, old(current), quote)
        decreases |doc| - current
      {
        c := GetNextChar();
        if c == BACKSLASH {
          var _ := GetNextChar();
        } else if c == quote {
          break;
        }
      }
      return c == quote;
    }

    /** `c` is the character at the cursor, 0 at the end, and `p` is just past it. */
    ghost predicate AtCursor(c: byte, p: nat)
      reads this`current, this`doc
    {
      if current < |doc| then c == doc[current] && p == current + 1 else c == 0 && p == current
    }

    // The cursor is set and one byte is read, or NUL at the end of the document.
    method Step(p: nat) returns (c: byte, p': nat)
      requires p <= |doc|
      modifies this`current
      ensures current == p
      ensures if p < |doc| then c == doc[p] && p' == p + 1 else c == 0 && p' == p
    {
      current := p;
      if p < |doc| {
        return doc[p], p + 1;
      }
      return 0, p;
    }

    /** A loop of readNumber: digits are stepped over; `c` is the character at the cursor and `p` just past it. */
    method StepDigits(c0: byte, p0: nat) returns (c: byte, p: nat)
      requires Valid() && p0 <= |doc|
      requires !IsDigit(c0) ==> AtCursor(c0, p0)
      modifies this`current
      ensures Valid() && current == if IsDigit(c0) then SkipDigits(doc, p0) else old(current)
      ensures AtCursor(c, p)
    {
      c, p := c0, p0;
      while IsDigit(c)
        invariant p <= |doc| && current <= |doc|
        invariant !IsDigit(c) ==> AtCursor(c, p)
        invariant IsDigit(c0) ==> SkipDigits(doc, p0) == if IsDigit(c) then SkipDigits(doc, p) else current
        invariant !IsDigit(c0) ==> c == c0 && current == old(current)
        decreases IsDigit(c), |doc| - p
      {
        c, p := Step(p);
      }
    }

    method ReadNumber(checkInf: bool) returns (ok: bool)
      requires Valid()
      modifies this`current
      ensures Valid()
      ensures ok <==> !(checkInf && old(current) < |doc| && doc[old(current)] == LETTER_I)
      ensures current == if ok then NumberEnd(doc, old(current)) else old(current) + 1
    {
      var p := current;
      if checkInf && p != |doc| && doc[p] == LETTER_I {
        p := p + 1;
        current := p;
        return false;
      }
      var c: byte := 0x30;  // stands for the first digit, which was read before
      c, p := StepDigits(c, p);
      c, p := StepFraction(c, p);
      StepExponent(c, p);
      return true;
    }

    method StepFraction(c0: byte, p0: nat) returns (c: byte, p: nat)
      requires Valid() && AtCursor(c0, p0)
      modifies this`current
      ensures Valid() && AtCursor(c, p) && current == FractionEnd(doc, old(current))
    {
      c, p := c0, p0;
      if c == DOT {
        c, p := Step(p);
        c, p := StepDigits(c, p);
      }
    }

    method StepExponent(c0: byte, p0: nat)
      requires Valid() && AtCursor(c0, p0)
      modifies this`current
      ensures Valid() && current == ExponentEnd(doc, old(current))
    {
      var c, p := c0, p0;
      if IsExponent(c) {
        c, p := Step(p);
        if c == PLUS || c == MINUS {
          c, p := Step(p);
        }
        c, p := StepDigits(c, p);
      }
    }

    // ---------------------------------------------------------------- tokens

    method DoReadToken() returns (ok: bool, token: Token)
      requires Valid()
      modifies this`current
      ensures Valid() && token == ReadToken(doc, features, old(current)) && current == token.end
      ensures ok <==> token.kind != Error
    {
      DoSkipSpaces();
      var start := current;
      if start == |doc| {
        return true, Token(EndOfStream, start, start);
      }
      var kind;
      ok, kind := DoTokenAt(start);
      token := Token(if ok then kind else Error, start, current);
    }

    /** The switch of readToken; the kind counts only when `ok`. */
    method DoTokenAt(start: nat) returns (ok: bool, kind: TokenType)
      requires Valid() && start == current < |doc|
      modifies this`current
      ensures Valid() && TokenAt(doc, features, start) == Token(if ok then kind else Error, start, current)
      ensures kind != Error
    {
      var c := GetNextChar();
      ok, kind := true, EndOfStream;
      if c == LBRACE {
        kind := ObjectBegin;
      } else if c == RBRACE {
        kind := ObjectEnd;
      } else if c == LBRACKET {
        kind := ArrayBegin;
      } else if c == RBRACKET {
        kind := ArrayEnd;
      } else if c == QUOTE {
        kind := String;
        ok := ReadString(QUOTE);
      } else if c == APOSTROPHE {
        kind := String;
        ok := false;
        if features.allowSingleQuotes {
          ok := ReadString(APOSTROPHE);
        }
      } else if c == SLASH {
        kind := Comment;
        ok := DoReadComment();
      } else if IsDigit(c) {
        kind := Number;
        var _ := ReadNumber(false);
      } else if c == MINUS {
        ok, kind := ReadSigned(NegInf);
      } else if c == PLUS {
        ok, kind := ReadSigned(PosInf);
      } else if c == COMMA {
        kind := ArraySeparator;
      } else if c == COLON {
        kind := MemberSeparator;
      } else if c != 0 {
        ok, kind := ReadKeyword(c);
      }
    }

    method ReadSigned(infinity: TokenType) returns (ok: bool, kind: TokenType)
      requires Valid() && 0 < current && infinity != Error
      modifies this`current
      ensures Valid() && kind != Error
      ensures Signed(doc, features, old(current) - 1, infinity)
              == Token(if ok then kind else Error, old(current) - 1, current)
    {
      ok := ReadNumber(true);
      if ok {
        return true, Number;
      }
      kind := infinity;
      if features.allowSpecialFloats {
        ok := DoMatch(NFINITY);
      }
    }

    // The cases of readToken that start with a letter, and its default case.
    method ReadKeyword(c: byte) returns (ok: bool, kind: TokenType)
      requires Valid() && 0 < current && c == doc[current - 1]
               && c !in {LBRACE, RBRACE, LBRACKET, RBRACKET, QUOTE, APOSTROPHE, SLASH, MINUS, PLUS, COMMA, COLON, 0}
      requires !IsDigit(c)
      modifies this`current
      ensures Valid() && kind != Error
      ensures TokenAt(doc, features, old(current) - 1) == Token(if ok then kind else Error, old(current) - 1, current)
    {
      ok, kind := false, EndOfStream;
      if c == TRUE_TEXT[0] {
        kind := True;
        ok := DoMatch(RUE);
      } else if c == FALSE_TEXT[0] {
        kind := False;
        ok := DoMatch(ALSE);
      } else if c == NULL_TEXT[0] {
        kind := NullToken;
        ok := DoMatch(ULL);
      } else if c == 0x4E {
        if features.allowSpecialFloats {
          kind := NaN;
          ok := DoMatch(AN);
        }
      } else if c == LETTER_I {
        if features.allowSpecialFloats {
          kind := PosInf;
          ok := DoMatch(NFINITY);
        }
      }
    }

    /** The loops that go on to the next token while they meet comments. */
    method SkipComments(token: Token) returns (ok: bool, next: Token)
      requires Valid() && Shaped(doc, token) && current == token.end
      modifies this`current
      ensures Valid() && next == SkipCommentRun(doc, features, token) && current == next.end
      ensures ok <==> next.kind != Error
    {
      ok, next := token.kind != Error, token;
      while next.kind == Comment && ok
        invariant Valid() && Shaped(doc, next) && current == next.end && (ok <==> next.kind != Error)
        invariant SkipCommentRun(doc, features, next) == SkipCommentRun(doc, features, token)
        decreases |doc| - current, next.kind == Comment
      {
        ok, next := DoReadToken();
      }
    }

    method SkipCommentTokens() returns (token: Token)
      requires Valid()
      modifies this`current
      ensures Valid() && token == NextToken(doc, features, old(current)) && current == token.end
    {
      var ok;
      ok, token := DoReadToken();
      if features.allowComments {
        ok, token := SkipComments(token);
      }
    }

    // ---------------------------------------------------------------- errors

    method AddError(message: Message, token: Token, extra: Option<nat>) returns (status: Status)
      modifies this`errors
      ensures status == No && errors == old(errors) + [ErrorInfo(token, message, extra)]
    {
      errors := errors + [ErrorInfo(token, message, extra)];
      status := No;
    }

    method RecoverFromError(until: TokenType) returns (status: Status)
      requires Valid()
      modifies this`current, this`errors
      ensures Valid() && status == No && errors == old(errors) && current == Recover(doc, features, old(current), until)
    {
      var errorCount := |errors|;
      while true
        invariant Valid() && errors == old(errors)
        invariant Recover(doc, features, current, until) == Recover(doc, features, old(current), until)
        decreases |doc| - current
      {
        var ok, skip := DoReadToken();
        if !ok {
          errors := errors[..errorCount];  // what the skipping itself reported is dropped
        }
        if skip.kind == until || skip.kind == EndOfStream {
          break;
        }
      }
      errors := errors[..errorCount];
      return No;
    }

    method AddErrorAndRecover(message: Message, token: Token, until: TokenType) returns (status: Status)
      requires Valid()
      modifies this`current, this`errors
      ensures Valid() && status == No && errors == old(errors) + [ErrorInfo(token, message, None)]
      ensures current == Recover(doc, features, old(current), until)
    {
      var _ := AddError(message, token, None);
      status := RecoverFromError(until);
    }

    // ---------------------------------------------------------------- scalars

    method DecodeNumberToken(token: Token) returns (status: Status, decoded: Value)
      requires Shaped(doc, token)
      modifies this`errors
      ensures match NumberValue(TokenText(doc, token), lib)
              case Some(v) => status == Yes && decoded == v && errors == old(errors)
              case None => status == No && errors == old(errors) + [ErrorInfo(token, NotANumber, None)]
    {
      decoded := Null;
      var integer := DecodeNumber(doc[token.start..token.end]);
      match integer
      case Some(v) =>
        return Yes, v;
      case None =>
        match lib.parse(doc[token.start..token.end])
        case Some(bits) =>
          return Yes, Real(bits);
        case None =>
          status := AddError(NotANumber, token, None);
    }

    method DecodeUnicodeEscapeSequence(token: Token, start: nat, end: nat)
      returns (status: Status, unicode: nat, cursor: nat)
      requires start <= end <= |doc| && end + 1 == token.end
      modifies this`errors
      ensures match DecodeEscapeSequence(doc[start..end])
              case CodePoint(cp, _) => status == Yes && unicode == cp && cursor == start + 4 <= end
                && errors == old(errors)
              case BadCodePoint(e, left) => status == No && errors == old(errors) + [StringErrorAt(token, e, left)]
    {
      unicode, cursor := 0, start;
      if end - start < 4 {
        status := AddError(BadString(FourDigitsExpected), token, Some(cursor));
        return;
      }
      ghost var b := doc[start..end];
      var index := 0;
      while index < 4
        invariant 0 <= index <= 4 && cursor == start + index && errors == old(errors)
        invariant HexDigits(b, index, unicode) == HexDigits(b, 0, 0)
      {
        var c := doc[cursor];
        assert c == b[index];
        cursor := cursor + 1;
        var digit := HexValue(c);
        if digit.None? {
          status := AddError(BadString(HexDigitExpected), token, Some(cursor));
          return;
        }
        unicode := unicode * 16 + digit.value;
        index := index + 1;
      }
      status := Yes;
    }

    method DecodeUnicodeCodePoint(token: Token, start: nat, end: nat)
      returns (status: Status, unicode: nat, cursor: nat)
      requires start <= end <= |doc| && end + 1 == token.end
      modifies this`errors
      ensures match DecodeCodePoint(doc[start..end])
              case CodePoint(cp, used) => status == Yes && unicode == cp && cursor == start + used <= end
                && errors == old(errors)
              case BadCodePoint(e, left) => status == No && errors == old(errors) + [StringErrorAt(token, e, left)]
    {
      hide DecodeEscapeSequence;
      status, unicode, cursor := DecodeUnicodeEscapeSequence(token, start, end);
      if status == Yes && 0xD800 <= unicode <= 0xDBFF {
        assert doc[start..end][4..] == doc[cursor..end];
        if end - cursor < 6 {
          status := AddError(BadString(SixCharactersExpected), token, Some(cursor));
          return;
        }
        cursor := cursor + 1;
        if doc[cursor - 1] == BACKSLASH {
          cursor := cursor + 1;
          if doc[cursor - 1] == LETTER_U {
            assert doc[start..end][4..][2..] == doc[cursor..end];
            var surrogatePair;
            status, surrogatePair, cursor := DecodeUnicodeEscapeSequence(token, cursor, end);
            if status == Yes {
              unicode := 0x10000 + unicode % 1024 * 1024 + surrogatePair % 1024;
            }
            return;
          }
        }
        status := AddError(BadString(SecondEscapeExpected), token, Some(cursor));
      }
    }

    /** One turn of the loop of decodeString: the bytes it appends, or the closing break, or an error. */
    method DecodeStep(token: Token, start: nat, end: nat)
      returns (status: Status, closed: bool, piece: bytes, cursor: nat)
      requires start < end <= |doc| && end + 1 == token.end
      modifies this`errors
      ensures status == Yes ==> errors == old(errors) && start < cursor <= end
      ensures status == Yes && closed ==> Decode(doc[start..end]) == Chars([])
      ensures status == Yes && !closed ==> Decode(doc[start..end]) == Prepend(piece, Decode(doc[cursor..end]))
      ensures status == Yes || status == No
      ensures status == No ==> Decode(doc[start..end]).BadText?
      ensures status == No ==>
                var d := Decode(doc[start..end]); errors == old(errors) + [StringErrorAt(token, d.error, d.left)]
    {
      hide Decode, DecodeEscape, StringErrorAt, Prepend;
      ghost var b := doc[start..end];
      DecodeFirst(b);
      var c := doc[start];
      assert b[0] == c && b[1..] == doc[start + 1..end];
      status, closed, piece, cursor := Yes, false, [], start + 1;
      if c == QUOTE {
        closed := true;
      } else if c != BACKSLASH {
        piece := [c];
      } else {
        status, piece, cursor := ReadEscape(token, cursor, end);
      }
    }

    /** The rest of a turn of decodeString after a backslash. */
    method ReadEscape(token: Token, start: nat, end: nat) returns (status: Status, piece: bytes, cursor: nat)
      requires start <= end <= |doc| && end + 1 == token.end
      modifies this`errors
      ensures match DecodeEscape(doc[start..end])
              case Escaped(bytes, used) => status == Yes && errors == old(errors) && piece == bytes
                && cursor == start + used <= end
              case BadEscaped(e, left) => status == No && errors == old(errors) + [StringErrorAt(token, e, left)]
    {
      hide DecodeCodePoint, CodePointToUtf8, UnescapeLetter, StringErrorAt;
      ghost var b := doc[start..end];
      piece, cursor := [], start;
      if cursor == end {
        status := AddError(BadString(EmptyEscape), token, Some(cursor));
        ErrorPlace(token, EmptyEscape, 0, cursor);
        return;
      }
      var escape := doc[cursor];
      cursor := cursor + 1;
      assert b[0] == escape && b[1..] == doc[cursor..end];
      if escape == LETTER_U {
        var unicode;
        status, unicode, cursor := DecodeUnicodeCodePoint(token, cursor, end);
        piece := CodePointToUtf8(unicode);
      } else {
        status := Yes;
        var letter := UnescapeLetter(escape);
        if letter.None? {
          status := AddError(BadString(BadEscape), token, Some(cursor));
          ErrorPlace(token, BadEscape, end - cursor, cursor);
        } else {
          piece := [letter.value];
        }
      }
    }

    /** decodeString: the bytes of the literal, or one error. */
    method DecodeStringToken(token: Token) returns (status: Status, decoded: bytes)
      requires Shaped(doc, token) && token.kind == String
      modifies this`errors
      ensures match Decode(Body(TokenText(doc, token)))
              case Chars(t) => status == Yes && decoded == t && errors == old(errors)
              case BadText(e, left) => status == No && errors == old(errors) + [StringErrorAt(token, e, left)]
    {
      hide Decode;
      var cursor, end := token.start + 1, token.end - 1;
      decoded := [];
      ghost var body := Body(TokenText(doc, token));
      assert body == doc[cursor..end] by {
        BodySlice(doc, token);
      }
      PrependNothing(Decode(body));
      while cursor != end
        invariant token.start + 1 <= cursor <= end && errors == old(errors)
        invariant Decode(body) == Prepend(decoded, Decode(doc[cursor..end]))
        decreases end - cursor
      {
        var closed, piece;
        ghost var rest := doc[cursor..end];
        status, closed, piece, cursor := DecodeStep(token, cursor, end);
        if status == No {
          return;
        }
        if closed {
          return;
        }
        PrependTwice(decoded, piece, Decode(doc[cursor..end]));
        decoded := decoded + piece;
      }
      DecodeEmpty();
      assert doc[cursor..end] == [];
      status := Yes;
    }

    // ---------------------------------------------------------------- the node stack

    /** The stack with `v` in place of the value on top. */
    static function WithTop(nodes: seq<Value>, v: Value): seq<Value>
      requires nodes != []
    {
      nodes[..|nodes| - 1] + [v]
    }

    predicate TopIs(v: Value)
      reads this`nodes
    {
      nodes != [] && nodes[|nodes| - 1] == v
    }

    method SetCurrentValue(v: Value)
      requires nodes != []
      modifies this`nodes
      ensures nodes == WithTop(old(nodes), v)
    {
      nodes := nodes[..|nodes| - 1] + [v];
    }

    /** How a reading method ends, against the outcome that the specification gives: the value on top of the stack is
        replaced and the rest of the stack kept; nothing is added to the errors on success, one error on failure. */
    ghost predicate Ended(o: Outcome, status: Status, errors0: seq<ErrorInfo>, nodes0: seq<Value>)
      requires nodes0 != []
      reads this
    {
      match o
      case Done(p, v) => status == Yes && current == p && errors == errors0 && nodes == WithTop(nodes0, v)
      case Failed(p, v, e) => status == No && current == p && errors == errors0 + [e] && nodes == WithTop(nodes0, v)
      case Thrown => status == Threw && errors == errors0
    }

    // ---------------------------------------------------------------- values

    method DoReadValue() returns (status: Status)
      requires Valid() && nodes != []
      modifies this`current, this`errors, this`nodes
      ensures Valid()
      ensures Ended(ReadValue(Ctx(), old(current), |old(nodes)|, old(nodes)[|old(nodes)| - 1]), status, old(errors),
                    old(nodes))
      decreases |doc| - current, 1
    {
      if |nodes| > features.stackLimit {
        return Threw;
      }
      var token := SkipCommentTokens();
      if token.kind == ObjectBegin {
        status := DoReadObject();
      } else if token.kind == ArrayBegin {
        status := DoReadArray();
      } else if token.kind != EndOfStream && Unread(features, token) {
        current := current - 1;  // the separator is left for the caller, with a null before it
        SetCurrentValue(Null);
        status := Yes;
      } else {
        status := ReadScalar(token);
      }
    }

    method ReadScalar(token: Token) returns (status: Status)
      requires Valid() && nodes != [] && Shaped(doc, token) && current == token.end
      modifies this`errors, this`nodes
      ensures Valid()
      ensures token.kind == EndOfStream ==>
                Ended(Failed(current, old(nodes)[|old(nodes)| - 1], ErrorInfo(token, ValueExpected, None)), status,
                      old(errors), old(nodes))
      ensures token.kind != EndOfStream ==>
                Ended(Scalar(Ctx(), token, old(nodes)[|old(nodes)| - 1]), status, old(errors), old(nodes))
    {
      hide Decode, NumberValue;
      assert nodes == WithTop(nodes, nodes[|nodes| - 1]);
      status := Yes;
      match token.kind
      case Number =>
        var decoded;
        status, decoded := DecodeNumberToken(token);
        if status == Yes {
          SetCurrentValue(decoded);
        }
      case String =>
        var text;
        status, text := DecodeStringToken(token);
        if status == Yes {
          SetCurrentValue(Str(text));
        }
      case True => SetCurrentValue(Bool(true));
      case False => SetCurrentValue(Bool(false));
      case NullToken => SetCurrentValue(Null);
      case NaN => SetCurrentValue(Real(NAN_BITS));
      case PosInf => SetCurrentValue(Real(POS_INF_BITS));
      case NegInf => SetCurrentValue(Real(NEG_INF_BITS));
      case _ =>
        status := AddError(ValueExpected, token, None);
    }

    /** The part of readArray and readObject around the nested readValue: the slot of the key is created when missing,
        filled on top of the stack, and written back into its container. */
    method ReadSlot(key: Key) returns (status: Status)
      requires Valid() && nodes != [] && |nodes| <= features.stackLimit && IsContainer(nodes[|nodes| - 1])
      modifies this`current, this`errors, this`nodes
      ensures Valid()
      ensures var top := old(nodes)[|old(nodes)| - 1];
              var o := ReadValue(Ctx(), old(current), |old(nodes)| + 1, Slot(MembersOf(top), key));
              Ended(Into(o, top, key), status, old(errors), old(nodes))
      decreases |doc| - current, 2
    {
      hide ReadValue, Put, Has, Get;
      var n := |nodes|;
      var m := MembersOf(nodes[n - 1]);
      var slot := Slot(m, key);
      SetCurrentValue(WithMembers(nodes[n - 1], if Has(m, key) then m else Put(m, key, Null)));
      nodes := nodes + [slot];
      status := DoReadValue();
      if status == Threw {
        return;
      }
      var value := nodes[n];
      nodes := nodes[..n];
      PutTwice(m, key, value);
      SetCurrentValue(WithMembers(nodes[n - 1], Put(MembersOf(nodes[n - 1]), key, value)));
    }

    method DoReadArray() returns (status: Status)
      requires Valid() && nodes != [] && |nodes| <= features.stackLimit
      modifies this`current, this`errors, this`nodes
      ensures Valid()
      ensures Ended(ReadArray(Ctx(), old(current), |old(nodes)|, [], 0), status, old(errors), old(nodes))
      decreases |doc| - current, 5
    {
      hide ReadArray, ReadToken;
      SetCurrentValue(Arr([]));
      var index := 0;
      var more := true;
      status := Yes;
      ghost var x, nodes0, start := Ctx(), old(nodes), current;
      ghost var elems: seq<Member> := [];
      while more
        invariant Valid() && x == Ctx()
        invariant more ==> errors == old(errors) && nodes == WithTop(nodes0, Arr(elems)) && start <= current
        invariant more ==> ReadArray(x, current, |nodes0|, elems, index) == ReadArray(x, start, |nodes0|, [], 0)
        invariant !more ==> Ended(ReadArray(x, start, |nodes0|, [], 0), status, old(errors), nodes0)
        decreases more, |doc| - current
      {
        status, more := ReadElement(elems, index);
        if more {
          elems := MembersOf(nodes[|nodes| - 1]);
        }
        index := index + 1;
      }
    }

    /** A turn of the loop of readArray: the closing bracket, or an element up to and including the separator. */
    method ReadElement(ghost elems: seq<Member>, index: nat) returns (status: Status, more: bool)
      requires Valid() && TopIs(Arr(elems)) && |nodes| <= features.stackLimit
      modifies this`current, this`errors, this`nodes
      ensures Valid()
      ensures var o := ReadArray(Ctx(), old(current), |old(nodes)|, elems, index);
              if !more then Ended(o, status, old(errors), old(nodes))
              else errors == old(errors) && nodes != [] && nodes[|nodes| - 1].Arr? && old(current) < current
                   && nodes == WithTop(old(nodes), nodes[|nodes| - 1])
                   && o == ReadArray(Ctx(), current, |old(nodes)|, nodes[|nodes| - 1].elems, index + 1)
      decreases |doc| - current, 4
    {
      hide AfterElement, ReadValue, Put, Get, ReadToken, SkipSpaces, Recover, Slot, Has, Shaped, ReadArray;
      assert nodes == WithTop(nodes, Arr(elems));
      ArrayTurn(Ctx(), current, |nodes|, elems, index);
      DoSkipSpaces();
      if current != |doc| && doc[current] == RBRACKET
         && (index == 0 || (features.allowTrailingCommas && !features.allowDroppedNullPlaceholders)) {
        EndArrayToken(doc, features, current);
        var _, _ := DoReadToken();
        return Yes, false;
      }
      status, more := NextElement(elems, index);
    }

    // The rest of the turn: the element and its separator.
    method NextElement(ghost elems: seq<Member>, index: nat) returns (status: Status, more: bool)
      requires Valid() && TopIs(Arr(elems)) && |nodes| <= features.stackLimit
      modifies this`current, this`errors, this`nodes
      ensures Valid()
      ensures var o := ElementTurn(Ctx(), old(current), |old(nodes)|, elems, index);
              if !more then Ended(o, status, old(errors), old(nodes))
              else errors == old(errors) && nodes != [] && nodes[|nodes| - 1].Arr? && old(current) < current
                   && nodes == WithTop(old(nodes), nodes[|nodes| - 1])
                   && o == ReadArray(Ctx(), current, |old(nodes)|, nodes[|nodes| - 1].elems, index + 1)
      decreases |doc| - current, 3
    {
      hide AfterElement, ReadValue, Put, Get, Recover, Slot, Has, ReadArray;
      more := false;
      status := ReadSlot(Index(index));
      if status == Threw {
        return;
      }
      if status == No {
        status := RecoverFromError(ArrayEnd);
        return;
      }
      status, more := EndElement(nodes[|nodes| - 1].elems, index + 1);
    }

    /** The end of a turn of the loop of readArray; `more` says that the loop goes on. */
    method EndElement(ghost elems: seq<Member>, ghost index: nat) returns (status: Status, more: bool)
      requires Valid() && TopIs(Arr(elems))
      modifies this`current, this`errors
      ensures Valid()
      ensures var o := AfterElement(Ctx(), old(current), |nodes|, elems, index);
              if more then errors == old(errors) && old(current) < current
                && o == ReadArray(Ctx(), current, |nodes|, elems, index)
              else Ended(o, status, old(errors), nodes)
    {
      hide ReadArray, ReadToken, SkipCommentRun, Recover;
      assert nodes == WithTop(nodes, Arr(elems));
      var ok, token := DoReadToken();
      ok, token := SkipComments(token);
      if !ok || (token.kind != ArraySeparator && token.kind != ArrayEnd) {
        status := AddErrorAndRecover(MissingCommaOrBracket, token, ArrayEnd);
        return status, false;
      }
      return Yes, token.kind != ArrayEnd;
    }

    method DoReadObject() returns (status: Status)
      requires Valid() && nodes != [] && |nodes| <= features.stackLimit
      modifies this`current, this`errors, this`nodes
      ensures Valid()
      ensures Ended(ReadObject(Ctx(), old(current), |old(nodes)|, [], true), status, old(errors), old(nodes))
      decreases |doc| - current, 5
    {
      hide ReadObject, ReadToken;
      SetCurrentValue(Obj([]));
      var name: bytes := [];
      ghost var x, nodes0, start := Ctx(), old(nodes), current;
      ghost var members: seq<Member> := [];
      var more := true;
      status := Yes;
      while more
        invariant Valid() && x == Ctx()
        invariant more ==> errors == old(errors) && nodes == WithTop(nodes0, Obj(members)) && start <= current
        invariant more ==>
                  ReadObject(x, current, |nodes0|, members, name == []) == ReadObject(x, start, |nodes0|, [], true)
        invariant !more ==> Ended(ReadObject(x, start, |nodes0|, [], true), status, old(errors), nodes0)
        decreases more, |doc| - current
      {
        status, more, name := ReadNamed(name, members);
        if more {
          members := MembersOf(nodes[|nodes| - 1]);
        }
      }
    }

    /** A turn of the loop of readObject, with the name of the member before: the closing brace, or a name and its
        member. */
    method ReadNamed(name0: bytes, ghost members: seq<Member>) returns (status: Status, more: bool, name: bytes)
      requires Valid() && TopIs(Obj(members)) && |nodes| <= features.stackLimit
      modifies this`current, this`errors, this`nodes
      ensures Valid()
      ensures var o := ReadObject(Ctx(), old(current), |old(nodes)|, members, name0 == []);
              if !more then Ended(o, status, old(errors), old(nodes))
              else errors == old(errors) && nodes != [] && nodes[|nodes| - 1].Obj? && old(current) < current
                   && nodes == WithTop(old(nodes), nodes[|nodes| - 1])
                   && o == ReadObject(Ctx(), current, |old(nodes)|, nodes[|nodes| - 1].members, name == [])
      decreases |doc| - current, 4
    {
      hide ReadMember, MemberName, ReadToken, SkipCommentRun, Recover, ReadValue, ReadObject;
      assert nodes == WithTop(nodes, Obj(members));
      ghost var p := current;
      ObjectTurn(Ctx(), p, |nodes|, members, name0 == []);
      name, more := name0, false;
      var ok, token := DoReadToken();
      ok, token := SkipComments(token);
      if token.kind == ObjectEnd && (name0 == [] || features.allowTrailingCommas) {
        return Yes, false, name;
      }
      status, name := ReadName(token);
      if status == No {
        status := RecoverFromError(ObjectEnd);
        return;
      }
      NamedTokens(Ctx(), token);
      status, more := ReadRest(token, name, members, p);
    }

    /** The name of a member: a string, or a number when the features allow one. */
    method ReadName(token: Token) returns (status: Status, name: bytes)
      requires Valid() && Shaped(doc, token)
      modifies this`errors
      ensures match MemberName(Ctx(), token)
              case Named(s) => status == Yes && name == s && errors == old(errors)
              case BadName(e) => status == No && errors == old(errors) + [e]
    {
      hide Decode, NumberValue;
      name := [];
      if token.kind == String {
        status, name := DecodeStringToken(token);
      } else if token.kind == Number && features.allowNumericKeys {
        var numberName;
        status, numberName := DecodeNumberToken(token);
        if status == Yes {
          name := NumberName(numberName, lib);
        }
      } else {
        status := AddError(MissingBraceOrName, token, None);
      }
    }

    /** A member after its name, up to and including the separator; `more` says that the loop goes on. */
    method ReadRest(token: Token, name: bytes, ghost members: seq<Member>, ghost p: nat)
      returns (status: Status, more: bool)
      requires Valid() && TopIs(Obj(members)) && |nodes| <= features.stackLimit
      requires p <= token.start < token.end == current
      modifies this`current, this`errors, this`nodes
      ensures Valid()
      ensures var o := ReadMember(Ctx(), p, token, |old(nodes)|, members, name);
              if !more then Ended(o, status, old(errors), old(nodes))
              else errors == old(errors) && nodes != [] && nodes[|nodes| - 1].Obj? && old(current) < current
                   && nodes == WithTop(old(nodes), nodes[|nodes| - 1])
                   && o == ReadObject(Ctx(), current, |old(nodes)|, nodes[|nodes| - 1].members, name == [])
      decreases |doc| - current, 3
    {
      hide ReadValue, AfterMember, Put, Has, Get, ReadToken, Recover, ReadObject, Slot, SkipSpaces;
      assert nodes == WithTop(nodes, Obj(members));
      more := false;
      if |name| >= KEY_LENGTH_LIMIT {
        return Threw, false;
      }
      if features.rejectDupKeys && Has(MembersOf(nodes[|nodes| - 1]), Name(name)) {
        status := AddErrorAndRecover(DuplicateKey(name), token, ObjectEnd);
        return;
      }
      var ok, colon := DoReadToken();
      if !ok || colon.kind != MemberSeparator {
        status := AddErrorAndRecover(MissingColon, colon, ObjectEnd);
        return;
      }
      status, more := NextMember(name, members);
    }

    // The rest of the turn: the value and its separator.
    method NextMember(name: bytes, ghost members: seq<Member>) returns (status: Status, more: bool)
      requires Valid() && TopIs(Obj(members)) && |nodes| <= features.stackLimit
      modifies this`current, this`errors, this`nodes
      ensures Valid()
      ensures var o := MemberTurn(Ctx(), old(current), |old(nodes)|, members, name);
              if !more then Ended(o, status, old(errors), old(nodes))
              else errors == old(errors) && nodes != [] && nodes[|nodes| - 1].Obj? && old(current) < current
                   && nodes == WithTop(old(nodes), nodes[|nodes| - 1])
                   && o == ReadObject(Ctx(), current, |old(nodes)|, nodes[|nodes| - 1].members, name == [])
      decreases |doc| - current, 3
    {
      hide ReadValue, AfterMember, Put, Has, Get, Recover, ReadObject, Slot;
      more := false;
      status := ReadSlot(Name(name));
      if status == Threw {
        return;
      }
      if status == No {
        status := RecoverFromError(ObjectEnd);
        return;
      }
      status, more := EndMember(nodes[|nodes| - 1].members, name == []);
    }

    /** The end of a turn of the loop of readObject. */
    method EndMember(ghost members: seq<Member>, ghost nameEmpty: bool) returns (status: Status, more: bool)
      requires Valid() && TopIs(Obj(members))
      modifies this`current, this`errors
      ensures Valid()
      ensures var o := AfterMember(Ctx(), old(current), |nodes|, members, nameEmpty);
              if more then errors == old(errors) && old(current) < current
                && o == ReadObject(Ctx(), current, |nodes|, members, nameEmpty)
              else Ended(o, status, old(errors), nodes)
    {
      hide ReadObject, ReadToken, SkipCommentRun, Recover;
      assert nodes == WithTop(nodes, Obj(members));
      var ok, comma := DoReadToken();
      if !ok || (comma.kind != ObjectEnd && comma.kind != ArraySeparator && comma.kind != Comment) {
        status := AddErrorAndRecover(MissingCommaOrBrace, comma, ObjectEnd);
        return status, false;
      }
      ok, comma := SkipComments(comma);
      return Yes, comma.kind != ObjectEnd;
    }

    // ---------------------------------------------------------------- documents

    method DoSkipBom() returns (begin: nat)
      requires Valid() && current == 0
      modifies this`current
      ensures Valid() && current == begin == BomLength(doc, features)
    {
      begin := 0;
      if features.skipBom && |doc| >= 3 && doc[..3] == BOM {
        begin := 3;
        current := begin;
      }
    }

    /** parse: the value of the root is returned along with the status. */
    method Parse(document: bytes, root: Value) returns (status: Status, value: Value)
      modifies this
      ensures doc == document && |nodes| <= features.stackLimit + 1
      ensures match ParseDocument(Context(document, features, lib), root)
              case Parsed(v, e) => value == v && errors == e && nodes == [] && status == if e == [] then Yes else No
              case ParseThrew => status == Threw && errors == []
    {
      hide ReadValue, NextToken, BomLength;
      doc, current, errors := document, 0, [];
      nodes := [root];
      value := root;
      var _ := DoSkipBom();
      status := DoReadValue();
      if status == Threw {
        return;
      }
      value := nodes[0];
      nodes := [];
      var token := SkipCommentTokens();
      if features.failIfExtra && token.kind != EndOfStream {
        status := AddError(ExtraAfterValue, token, None);
        return;
      }
      if features.strictRoot && !value.Arr? && !value.Obj? {
        status := AddError(RootNotContainer, Token(Error, 0, |doc|), None);
        return;
      }
    }
  }

  predicate IsContainer(v: Value) { v.Arr? || v.Obj? }

  function MembersOf(v: Value): seq<Member>
    requires IsContainer(v)
  {
    if v.Arr? then v.elems else v.members
  }

  function WithMembers(v: Value, m: seq<Member>): Value
    requires IsContainer(v)
  {
    if v.Arr? then Arr(m) else Obj(m)
  }

  /** The outcome for a container when `o` is the outcome for its slot `key`. */
  function Into(o: Outcome, container: Value, key: Key): Outcome
    requires IsContainer(container)
  {
    match o
    case Done(p, v) => Done(p, WithMembers(container, Put(MembersOf(container), key, v)))
    case Failed(p, v, e) => Failed(p, WithMembers(container, Put(MembersOf(container), key, v)), e)
    case Thrown => Thrown
  }

  lemma PutTwice(m: seq<Member>, k: Key, v: Value)
    ensures Put(if Has(m, k) then m else Put(m, k, Null), k, v) == Put(m, k, v)
  {
    if !Has(m, k) {
      var p := LowerBound(m, k);
      var n := Put(m, k, Null);
      KeyTrichotomy(k, k);
      LowerBoundUnique(n, k, p);
    }
  }

  lemma EndArrayToken(doc: bytes, f: Features, p: nat)
    requires p < |doc| && doc[p] == RBRACKET
    ensures ReadToken(doc, f, p) == Token(ArrayEnd, p, p + 1)
  {
  }

  /** What one turn of the loops of readArray and readObject amounts to. */
  lemma ArrayTurn(x: Context, p: nat, depth: nat, elems: seq<Member>, index: nat)
    requires p <= |x.doc|
    ensures var q := SkipSpaces(x.doc, p);
            ReadArray(x, p, depth, elems, index) ==
            if q < |x.doc| && x.doc[q] == RBRACKET
               && (index == 0 || (x.f.allowTrailingCommas && !x.f.allowDroppedNullPlaceholders))
            then Done(q + 1, Arr(elems))
            else ElementTurn(x, q, depth, elems, index)
  {
    hide AfterElement, ReadValue, Put, Slot, SkipSpaces, Recover;
  }

  lemma ObjectTurn(x: Context, p: nat, depth: nat, members: seq<Member>, nameEmpty: bool)
    requires p <= |x.doc|
    ensures var t := SkipCommentRun(x.doc, x.f, ReadToken(x.doc, x.f, p));
            ReadObject(x, p, depth, members, nameEmpty) ==
            if t.kind == ObjectEnd && (nameEmpty || x.f.allowTrailingCommas) then Done(t.end, Obj(members))
            else match MemberName(x, t)
              case BadName(e) => Failed(Recover(x.doc, x.f, t.end, ObjectEnd), Obj(members), e)
              case Named(name) => ReadMember(x, p, t, depth, members, name)
  {
    hide ReadMember, MemberName, ReadToken, SkipCommentRun, Recover;
  }

  lemma NamedTokens(x: Context, t: Token)
    requires Shaped(x.doc, t) && MemberName(x, t).Named?
    ensures t.start < t.end
  {
  }

  lemma BodySlice(doc: bytes, t: Token)
    requires Shaped(doc, t) && t.kind == String
    ensures Body(TokenText(doc, t)) == doc[t.start + 1..t.end - 1]
  {
    var text := doc[t.start..t.end];
    assert text[1..|text| - 1] == doc[t.start + 1..t.end - 1];
  }

  lemma ErrorPlace(t: Token, e: StringError, left: nat, cursor: nat)
    requires cursor + left + 1 == t.end
    ensures StringErrorAt(t, e, left) == ErrorInfo(t, BadString(e), Some(cursor))
  {
  }

  lemma PrependNothing(d: Decoded)
    ensures Prepend([], d) == d
  {
    if d.Chars? {
      assert [] + d.s == d.s;
    }
  }

  lemma PrependTwice(s: bytes, t: bytes, d: Decoded)
    ensures Prepend(s + t, d) == Prepend(s, Prepend(t, d))
  {
    if d.Chars? {
      assert s + t + d.s == s + (t + d.s);
    }
  }

  lemma DecodeEmpty()
    ensures Decode([]) == Chars([])
  {
  }
}
