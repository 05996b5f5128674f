/** What OurReader makes of a document, as functions of the cursor and of the value being filled. */
module Parser {
  import opened Arithmetic
  import opened ByteStrings
  import opened Wrappers
  import opened Quoting
  import opened Integers
  import opened Values
  import opened Lexer

  /** The two conversions of doubles, which belong to the C++ library. */
  datatype Doubles = Doubles(parse: bytes -> Option<nat>, show: nat -> bytes)

  const NAN_BITS: nat := 0x7FF8_0000_0000_0000
  const POS_INF_BITS: nat := 0x7FF0_0000_0000_0000
  const NEG_INF_BITS: nat := 0xFFF0_0000_0000_0000

  datatype Message =
    | ValueExpected
    | NotANumber
    | BadString(error: StringError)
    | MissingCommaOrBracket
    | MissingCommaOrBrace
    | MissingColon
    | MissingBraceOrName
    | DuplicateKey(name: bytes)
    | ExtraAfterValue
    | RootNotContainer

  datatype ErrorInfo = ErrorInfo(token: Token, message: Message, extra: Option<nat>)

  /** How readValue ends: with the new cursor and the value of the node; or by an exception. */
  datatype Outcome =
    | Done(pos: nat, value: Value)
    | Failed(pos: nat, value: Value, error: ErrorInfo)
    | Thrown

  datatype Context = Context(doc: bytes, f: Features, lib: Doubles)

  function TokenText(doc: bytes, t: Token): bytes
    requires t.start <= t.end <= |doc|
  {
    doc[t.start..t.end]
  }

  /** decodeNumber: the integer path, else a double, else nothing. */
  function NumberValue(text: bytes, lib: Doubles): Option<Value>
  {
    match IntegerValue(text, MAX_INT64)
    case Some(v) => Some(v)
    case None => match lib.parse(text) case Some(bits) => Some(Real(bits)) case None => None
  }

  /** Value::asString on a number. */
  function NumberName(v: Value, lib: Doubles): bytes
  {
    match v case Int(i) => IntText(i) case UInt(u) => IntText(u) case Real(bits) => lib.show(bits) case _ => []
  }

  function StringErrorAt(t: Token, e: StringError, left: nat): ErrorInfo
    requires 1 <= t.end
  {
    ErrorInfo(t, BadString(e), Some(if left < t.end then t.end - 1 - left else 0))
  }

  /** The value of a token that stands alone, if it is one. */
  function Scalar(x: Context, t: Token, cur: Value): Outcome
    requires t.start < t.end <= |x.doc| && (t.kind == String ==> t.start + 2 <= t.end)
  {
    match t.kind
    case Number => (match NumberValue(TokenText(x.doc, t), x.lib)
                    case Some(v) => Done(t.end, v)
                    case None => Failed(t.end, cur, ErrorInfo(t, NotANumber, None)))
    case String => (match Decode(Body(TokenText(x.doc, t)))
                    case Chars(s) => Done(t.end, Str(s))
                    case BadText(e, left) => Failed(t.end, cur, StringErrorAt(t, e, left)))
    case True => Done(t.end, Bool(true))
    case False => Done(t.end, Bool(false))
    case NullToken => Done(t.end, Null)
    case NaN => Done(t.end, Real(NAN_BITS))
    case PosInf => Done(t.end, Real(POS_INF_BITS))
    case NegInf => Done(t.end, Real(NEG_INF_BITS))
    case _ => Failed(t.end, cur, ErrorInfo(t, ValueExpected, None))
  }

  predicate Unread(f: Features, t: Token)
  {
    f.allowDroppedNullPlaceholders && (t.kind == ArraySeparator || t.kind == ObjectEnd || t.kind == ArrayEnd)
  }

  /** readValue with `depth` nodes on the stack, `cur` being the one on top. */
  function ReadValue(x: Context, p: nat, depth: nat, cur: Value): (r: Outcome)
    requires p <= |x.doc|
    ensures !r.Thrown? ==> p <= r.pos <= |x.doc|
    decreases |x.doc| - p, 1
  {
    if depth > x.f.stackLimit then Thrown
    else
      var t := NextToken(x.doc, x.f, p);
      if t.kind == ObjectBegin then ReadObject(x, t.end, depth, [], true)
      else if t.kind == ArrayBegin then ReadArray(x, t.end, depth, [], 0)
      else if t.kind == EndOfStream then Failed(t.end, cur, ErrorInfo(t, ValueExpected, None))
      else if Unread(x.f, t) then Done(t.end - 1, Null)
      else Scalar(x, t, cur)
  }

  /** readArray from the head of its loop, with the elements read so far. */
  function ReadArray(x: Context, p: nat, depth: nat, elems: seq<Member>, index: nat): (r: Outcome)
    requires p <= |x.doc|
    ensures !r.Thrown? ==> p <= r.pos <= |x.doc|
    decreases |x.doc| - p, 2
  {
    var q := SkipSpaces(x.doc, p);
    if q < |x.doc| && x.doc[q] == RBRACKET
       && (index == 0 || (x.f.allowTrailingCommas && !x.f.allowDroppedNullPlaceholders))
    then Done(q + 1, Arr(elems))
    else
      match ReadValue(x, q, depth + 1, Slot(elems, Index(index)))
      case Thrown => Thrown
      case Failed(p', v, e) => Failed(Recover(x.doc, x.f, p', ArrayEnd), Arr(Put(elems, Index(index), v)), e)
      case Done(p', v) => AfterElement(x, p', depth, Put(elems, Index(index), v), index + 1)
  }

  /** The part of readArray's loop that follows the peek for a bracket. */
  ghost function ElementTurn(x: Context, q: nat, depth: nat, elems: seq<Member>, index: nat): Outcome
    requires q <= |x.doc|
  {
    match ReadValue(x, q, depth + 1, Slot(elems, Index(index)))
    case Thrown => Thrown
    case Failed(p', v, e) => Failed(Recover(x.doc, x.f, p', ArrayEnd), Arr(Put(elems, Index(index), v)), e)
    case Done(p', v) => AfterElement(x, p', depth, Put(elems, Index(index), v), index + 1)
  }

  /** readArray after an element: a separator and the rest of the array, or its end. */
  function AfterElement(x: Context, p: nat, depth: nat, elems: seq<Member>, index: nat): (r: Outcome)
    requires p <= |x.doc|
    ensures !r.Thrown? ==> p <= r.pos <= |x.doc|
    decreases |x.doc| - p, 0
  {
    var t := SkipCommentRun(x.doc, x.f, ReadToken(x.doc, x.f, p));
    if t.kind == ArrayEnd then Done(t.end, Arr(elems))
    else if t.kind == ArraySeparator then ReadArray(x, t.end, depth, elems, index)
    else Failed(Recover(x.doc, x.f, t.end, ArrayEnd), Arr(elems), ErrorInfo(t, MissingCommaOrBracket, None))
  }

  /** The name of a member, or the error that its token gives. */
  datatype NameResult = Named(name: bytes) | BadName(error: ErrorInfo)

  function MemberName(x: Context, t: Token): NameResult
    requires t.start <= t.end <= |x.doc| && (t.kind == String ==> t.start + 2 <= t.end)
  {
    if t.kind == String then
      match Decode(Body(TokenText(x.doc, t)))
      case Chars(s) => Named(s)
      case BadText(e, left) => BadName(StringErrorAt(t, e, left))
    else if t.kind == Number && x.f.allowNumericKeys then
      match NumberValue(TokenText(x.doc, t), x.lib)
      case Some(v) => Named(NumberName(v, x.lib))
      case None => BadName(ErrorInfo(t, NotANumber, None))
    else BadName(ErrorInfo(t, MissingBraceOrName, None))
  }

  const KEY_LENGTH_LIMIT: nat := 0x4000_0000

  /** readObject from the head of its loop; `nameEmpty` says that the last name read was empty. */
  function ReadObject(x: Context, p: nat, depth: nat, members: seq<Member>, nameEmpty: bool): (r: Outcome)
    requires p <= |x.doc|
    ensures !r.Thrown? ==> p <= r.pos <= |x.doc|
    decreases |x.doc| - p, 2
  {
    var t := SkipCommentRun(x.doc, x.f, ReadToken(x.doc, x.f, p));
    if t.kind == ObjectEnd && (nameEmpty || x.f.allowTrailingCommas) then Done(t.end, Obj(members))
    else match MemberName(x, t)
      case BadName(e) => Failed(Recover(x.doc, x.f, t.end, ObjectEnd), Obj(members), e)
      case Named(name) => ReadMember(x, p, t, depth, members, name)
  }

  /** The rest of a member after its name token `t`, and then the rest of the object. */
  function ReadMember(x: Context, ghost p: nat, t: Token, depth: nat, members: seq<Member>, name: bytes): (r: Outcome)
    requires p <= t.start < t.end <= |x.doc|
    ensures !r.Thrown? ==> p <= r.pos <= |x.doc|
    decreases |x.doc| - p, 1
  {
    var colon := ReadToken(x.doc, x.f, t.end);
    if |name| >= KEY_LENGTH_LIMIT then Thrown
    else if x.f.rejectDupKeys && Has(members, Name(name)) then
      Failed(Recover(x.doc, x.f, t.end, ObjectEnd), Obj(members), ErrorInfo(t, DuplicateKey(name), None))
    else if colon.kind != MemberSeparator then
      Failed(Recover(x.doc, x.f, colon.end, ObjectEnd), Obj(members), ErrorInfo(colon, MissingColon, None))
    else
      match ReadValue(x, colon.end, depth + 1, Slot(members, Name(name)))
      case Thrown => Thrown
      case Failed(p', v, e) => Failed(Recover(x.doc, x.f, p', ObjectEnd), Obj(Put(members, Name(name), v)), e)
      case Done(p', v) => AfterMember(x, p', depth, Put(members, Name(name), v), name == [])
  }

  /** The part of readObject's loop that follows the colon. */
  ghost function MemberTurn(x: Context, q: nat, depth: nat, members: seq<Member>, name: bytes): Outcome
    requires q <= |x.doc|
  {
    match ReadValue(x, q, depth + 1, Slot(members, Name(name)))
    case Thrown => Thrown
    case Failed(p', v, e) => Failed(Recover(x.doc, x.f, p', ObjectEnd), Obj(Put(members, Name(name), v)), e)
    case Done(p', v) => AfterMember(x, p', depth, Put(members, Name(name), v), name == [])
  }

  /** readObject after a member's value. Once a comment has been read, any token passes for the separator. */
  function AfterMember(x: Context, p: nat, depth: nat, members: seq<Member>, nameEmpty: bool): (r: Outcome)
    requires p <= |x.doc|
    ensures !r.Thrown? ==> p <= r.pos <= |x.doc|
    decreases |x.doc| - p, 0
  {
    var comma := ReadToken(x.doc, x.f, p);
    if comma.kind != ObjectEnd && comma.kind != ArraySeparator && comma.kind != Comment then
      Failed(Recover(x.doc, x.f, comma.end, ObjectEnd), Obj(members), ErrorInfo(comma, MissingCommaOrBrace, None))
    else
      var after := SkipCommentRun(x.doc, x.f, comma);
      if after.kind == ObjectEnd then Done(after.end, Obj(members))
      else ReadObject(x, after.end, depth, members, nameEmpty)
  }

  const BOM: bytes := [0xEF, 0xBB, 0xBF]

  /** skipBom: the length of the mark that is skipped. */
  function BomLength(doc: bytes, f: Features): (n: nat)
    ensures n <= |doc|
  {
    if f.skipBom && |doc| >= 3 && doc[..3] == BOM then 3 else 0
  }

  datatype ParseResult = Parsed(root: Value, errors: seq<ErrorInfo>) | ParseThrew

  /** parse: the root and the errors; it succeeds when there are none. */
  function ParseDocument(x: Context, root: Value): ParseResult
  {
    match ReadValue(x, BomLength(x.doc, x.f), 1, root)
    case Thrown => ParseThrew
    case Done(p, v) => Parsed(v, EndErrors(x, p, v))
    case Failed(p, v, e) => Parsed(v, [e] + EndErrors(x, p, v))
  }

  /** The checks after the root value; the first one that fails adds an error. */
  function EndErrors(x: Context, p: nat, root: Value): seq<ErrorInfo>
    requires p <= |x.doc|
  {
    var t := NextToken(x.doc, x.f, p);
    if x.f.failIfExtra && t.kind != EndOfStream then [ErrorInfo(t, ExtraAfterValue, None)]
    else if x.f.strictRoot && !root.Arr? && !root.Obj? then
      [ErrorInfo(Token(Error, 0, |x.doc|), RootNotContainer, None)]
    else []
  }
}
