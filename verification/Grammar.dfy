/** The language that OurReader accepts under each feature setting, and what its sentences mean. */
module Grammar {
  import opened ByteStrings
  import opened Wrappers
  import opened Quoting
  import opened Values
  import opened Lexer
  import opened NumberSyntax
  import opened Parser
  import opened Tokens

  /** A document as the reader takes it apart. `lead` are the comments in front of a value, `gap` those behind it. */
  datatype Syntax =
    | Blank(lead: seq<Lexeme>)                                                          // a null that was left out
    | Atom(lead: seq<Lexeme>, token: Lexeme)
    | List(lead: seq<Lexeme>, items: seq<Item>, trailing: bool)
    | Record(lead: seq<Lexeme>, entries: seq<Entry>, trailing: bool, close: seq<Lexeme>) // `close`: before the brace

  datatype Item = Item(val: Syntax, gap: seq<Lexeme>)

  /** `pre` are the comments in front of the name, `sep` is what stands between this entry and the next. */
  datatype Entry = Entry(pre: seq<Lexeme>, name: Lexeme, val: Syntax, gap: seq<Lexeme>, sep: Lexeme)

  // ---------------------------------------------------------------- tokens

  ghost function Yield(s: Syntax): seq<Lexeme>
    decreases s
  {
    match s
    case Blank(lead) => lead
    case Atom(lead, token) => lead + [token]
    case List(lead, items, trailing) => lead + ([LB] + ItemsYield(items, 0, trailing))
    case Record(lead, entries, trailing, close) => lead + ([LC] + EntriesYield(entries, 0, trailing, close))
  }

  /** The items from `i` on and the closing bracket. */
  ghost function ItemsYield(items: seq<Item>, i: nat, trailing: bool): seq<Lexeme>
    requires i <= |items|
    decreases items, |items| - i
  {
    if i == |items| then [RB]
    else
      assert (items decreases to items[i]);
      Yield(items[i].val) + (items[i].gap
        + ((if i + 1 < |items| || trailing then [SEPARATOR] else []) + ItemsYield(items, i + 1, trailing)))
  }

  /** The entries from `i` on and the closing brace. */
  ghost function EntriesYield(entries: seq<Entry>, i: nat, trailing: bool, close: seq<Lexeme>): seq<Lexeme>
    requires i <= |entries|
    decreases entries, |entries| - i
  {
    if i == |entries| then (if i == 0 || trailing then close else []) + [RC]
    else
      assert (entries decreases to entries[i]);
      var e := entries[i];
      e.pre + ([e.name] + ([NAME_SEPARATOR] + (Yield(e.val)
      + (e.gap
        + ((if i + 1 < |entries| || trailing then [e.sep] else []) + EntriesYield(entries, i + 1, trailing, close))))))
  }

  // ---------------------------------------------------------------- one tree for each token sequence

  ghost predicate Comments(ts: seq<Lexeme>)
  {
    forall i :: 0 <= i < |ts| ==> ts[i].kind == Comment
  }

  predicate Ending(k: TokenType) { k == ArraySeparator || k == ArrayEnd || k == ObjectEnd }

  /** The trees that a reader with these features can have in mind: comments are comments, what stands for a value or a
      separator is no bracket, and a comma before a closing bracket either trails or is followed by a null, but not
      both. */
  ghost predicate Shape(f: Features, s: Syntax)
    decreases s
  {
    Comments(s.lead)
    && match s
       case Blank(_) => true
       case Atom(_, token) => !Ending(token.kind) && token.kind !in {ObjectBegin, ArrayBegin, Comment, EndOfStream}
       case List(_, items, trailing) =>
         ItemsShape(f, items)
         && (trailing ==> items != [] && !f.allowDroppedNullPlaceholders)
         && (!trailing && items != [] && items[|items| - 1].val == Blank([]) ==>
            |items| > 1 && f.allowDroppedNullPlaceholders)
       case Record(_, entries, trailing, close) =>
         EntriesShape(f, entries) && Comments(close) && (trailing ==> entries != [])
  }

  ghost predicate ItemsShape(f: Features, items: seq<Item>)
    decreases items
  {
    forall i :: 0 <= i < |items| ==>
      (assert (items decreases to items[i]);
       Shape(f, items[i].val) && Comments(items[i].gap) && (items[i].val.Blank? ==> items[i].gap == []))
  }

  ghost predicate EntriesShape(f: Features, entries: seq<Entry>)
    decreases entries
  {
    forall i :: 0 <= i < |entries| ==> (assert (entries decreases to entries[i]); EntryShape(f, entries[i]))
  }

  ghost predicate EntryShape(f: Features, e: Entry)
    decreases e
  {
    && Comments(e.pre) && e.name.kind !in {Comment, ObjectEnd} && Shape(f, e.val) && Comments(e.gap)
    && e.sep.kind !in {Comment, ObjectEnd} && (e.val.Blank? ==> e.gap == [] && Ending(e.sep.kind))
  }

  // ---------------------------------------------------------------- meaning

  /** What reading comes to: a value, an exception, or an error. */
  datatype Result = Gives(value: Value) | Throws | Fails

  function AtomValue(token: Lexeme, lib: Doubles): Result
  {
    match token.kind
    case Number => (match NumberValue(token.text, lib) case Some(v) => Gives(v) case None => Fails)
    case String =>
      if |token.text| < 2 then Fails
      else (match Decode(Body(token.text)) case Chars(s) => Gives(Str(s)) case BadText(_, _) => Fails)
    case True => Gives(Bool(true))
    case False => Gives(Bool(false))
    case NullToken => Gives(Null)
    case NaN => Gives(Real(NAN_BITS))
    case PosInf => Gives(Real(POS_INF_BITS))
    case NegInf => Gives(Real(NEG_INF_BITS))
    case _ => Fails
  }

  function NameOf(token: Lexeme, f: Features, lib: Doubles): Option<bytes>
  {
    if token.kind == String && 2 <= |token.text| then
      match Decode(Body(token.text)) case Chars(s) => Some(s) case BadText(_, _) => None
    else if token.kind == Number && f.allowNumericKeys then
      match NumberValue(token.text, lib) case Some(v) => Some(NumberName(v, lib)) case None => None
    else None
  }

  /** The meaning of a tree when `room` more levels of nesting are left. Comments in front of a value need
      allowComments; those in front of names, separators and closing braces, and behind elements, do not. */
  ghost function Eval(f: Features, lib: Doubles, room: int, s: Syntax): Result
    decreases s
  {
    if room <= 0 then Throws
    else if s.lead != [] && !f.allowComments then Fails
    else match s
      case Blank(_) => if f.allowDroppedNullPlaceholders then Gives(Null) else Fails
      case Atom(_, token) => AtomValue(token, lib)
      case List(_, items, trailing) => EvalItems(f, lib, room - 1, items, 0, trailing, [])
      case Record(_, entries, trailing, _) => EvalEntries(f, lib, room - 1, entries, 0, trailing, true, [])
  }

  /** The items from `i` on, after those that made `elems`. A comma may trail when the features allow it. */
  ghost function EvalItems(f: Features, lib: Doubles, room: int, items: seq<Item>, i: nat, trailing: bool,
                           elems: seq<Member>): Result
    requires i <= |items|
    decreases items, |items| - i
  {
    if i == |items| then if trailing && !f.allowTrailingCommas then Fails else Gives(Arr(elems))
    else
      assert (items decreases to items[i]);
      match Eval(f, lib, room, items[i].val)
      case Throws => Throws
      case Fails => Fails
      case Gives(v) => EvalItems(f, lib, room, items, i + 1, trailing, Put(elems, Index(i), v))
  }

  /** The entries from `i` on, after those that made `members`; `nameEmpty` tells of the last name. After an empty name
      a comma may trail under any features, and after a comment anything counts as a separator. */
  ghost function EvalEntries(f: Features, lib: Doubles, room: int, entries: seq<Entry>, i: nat, trailing: bool,
                             nameEmpty: bool, members: seq<Member>): Result
    requires i <= |entries|
    decreases entries, |entries| - i
  {
    if i == |entries| then if trailing && !nameEmpty && !f.allowTrailingCommas then Fails else Gives(Obj(members))
    else
      assert (entries decreases to entries[i]);
      var e := entries[i];
      match NameOf(e.name, f, lib)
      case None => Fails
      case Some(name) =>
        if |name| >= KEY_LENGTH_LIMIT then Throws
        else if f.rejectDupKeys && Has(members, Name(name)) then Fails
        else
          match Eval(f, lib, room, e.val)
          case Throws => Throws
          case Fails => Fails
          case Gives(v) =>
            if (i + 1 < |entries| || trailing) && !Separates(e) then Fails
            else EvalEntries(f, lib, room, entries, i + 1, trailing, name == [], Put(members, Name(name), v))
  }

  ghost predicate Separates(e: Entry)
  {
    e.gap != [] || e.sep.kind == ArraySeparator
  }

  // ---------------------------------------------------------------- single tokens

  /** Comments and the token behind them. */
  lemma {:induction false} Run(doc: bytes, f: Features, p: nat, gap: seq<Lexeme>, l: Lexeme, rest: seq<Lexeme>,
                               q: nat) returns (t: Token)
    requires p <= |doc| && Reads(doc, f, p, gap + ([l] + rest), q) && Comments(gap) && l.kind != Comment
    ensures t == SkipCommentRun(doc, f, ReadToken(doc, f, p)) && l == Lexeme(t.kind, TokenText(doc, t))
            && Reads(doc, f, t.end, rest, q)
    ensures if gap == [] then t == ReadToken(doc, f, p) else ReadToken(doc, f, p).kind == Comment
    decreases gap
  {
    hide ReadToken, Reads;
    if gap == [] {
      assert gap + ([l] + rest) == [l] + rest;
      ReadsOne(doc, f, p, l, rest, q);
      t := ReadToken(doc, f, p);
    } else {
      assert gap + ([l] + rest) == [gap[0]] + (gap[1..] + ([l] + rest));
      ReadsOne(doc, f, p, gap[0], gap[1..] + ([l] + rest), q);
      t := Run(doc, f, ReadToken(doc, f, p).end, gap[1..], l, rest, q);
      assert gap[1..] != [] ==> ReadToken(doc, f, ReadToken(doc, f, p).end).kind == Comment;
    }
  }

  lemma EndingIsOneByte(doc: bytes, f: Features, p: nat)
    requires p <= |doc| && Ending(ReadToken(doc, f, p).kind)
    ensures ReadToken(doc, f, p).start == SkipSpaces(doc, p) && ReadToken(doc, f, p).end == SkipSpaces(doc, p) + 1
    ensures SkipSpaces(doc, SkipSpaces(doc, p)) == SkipSpaces(doc, p)
  {
    var q := SkipSpaces(doc, p);
    SkipSpacesAgain(doc, f, p, q);
    EndingByte(doc, f, q);
  }

  lemma EndingByte(doc: bytes, f: Features, q: nat)
    requires q < |doc| && Ending(TokenAt(doc, f, q).kind)
    ensures TokenAt(doc, f, q).end == q + 1
  {
  }

  /** The peek of readArray: the next byte is a bracket exactly when the next token is. */
  lemma PeekBracket(doc: bytes, f: Features, p: nat)
    requires p <= |doc|
    ensures var q := SkipSpaces(doc, p);
            var t := ReadToken(doc, f, p);
            (q < |doc| && doc[q] == RBRACKET <==> t.kind == ArrayEnd) && (t.kind == ArrayEnd ==> t.end == q + 1)
  {
    var q := SkipSpaces(doc, p);
    if q < |doc| && doc[q] != RBRACKET {
      NotBracket(doc, f, q);
    }
  }

  lemma NotBracket(doc: bytes, f: Features, q: nat)
    requires q < |doc| && doc[q] != RBRACKET
    ensures TokenAt(doc, f, q).kind != ArrayEnd
  {
  }

  // ---------------------------------------------------------------- every tree is read as it means

  /** The outcome of reading is the one that the meaning predicts, and the cursor has passed the tokens. */
  ghost predicate Meets(x: Context, r: Outcome, e: Result, q: nat)
    requires q <= |x.doc|
  {
    match e
    case Gives(v) => r.Done? && r.value == v && r.pos <= |x.doc| && SkipSpaces(x.doc, r.pos) == SkipSpaces(x.doc, q)
    case Throws => r.Thrown?
    case Fails => r.Failed?
  }

  /** The first token of a value that is no blank. */
  ghost function Head(s: Syntax): Lexeme
    requires !s.Blank?
  {
    match s case Atom(_, token) => token case List(_, _, _) => LB case Record(_, _, _, _) => LC
  }

  ghost function Tail(s: Syntax): seq<Lexeme>
    requires !s.Blank?
  {
    match s
    case Atom(_, _) => []
    case List(_, items, trailing) => ItemsYield(items, 0, trailing)
    case Record(_, entries, trailing, close) => EntriesYield(entries, 0, trailing, close)
  }

  lemma HeadAndTail(s: Syntax)
    requires !s.Blank?
    ensures Yield(s) == s.lead + ([Head(s)] + Tail(s))
  {
    hide ItemsYield, EntriesYield;
    assert s.Atom? ==> [Head(s)] + Tail(s) == [s.token];
  }

  lemma {:induction false} Understand(x: Context, p: nat, depth: nat, cur: Value, s: Syntax, q: nat)
    requires p <= |x.doc| && q <= |x.doc| && Shape(x.f, s) && Reads(x.doc, x.f, p, Yield(s), q)
    requires s.Blank? ==> Ending(ReadToken(x.doc, x.f, q).kind)
    ensures Meets(x, ReadValue(x, p, depth, cur), Eval(x.f, x.lib, x.f.stackLimit + 1 - depth, s), q)
    decreases s, 0
  {
    hide ReadToken, Reads, Yield, ReadArray, ReadObject, Scalar, EvalItems, EvalEntries, AtomValue, SkipSpaces;
    if depth > x.f.stackLimit {
      return;
    }
    if s.Blank? {
      assert Yield(s) == s.lead by { BlankYield(s); }
      BlankRead(x, p, depth, cur, s, q);
    } else {
      HeadAndTail(s);
      var t := Run(x.doc, x.f, p, s.lead, Head(s), Tail(s), q);
      if s.lead != [] && !x.f.allowComments {
        CommentFails(x, p, depth, cur);
      } else {
        assert NextToken(x.doc, x.f, p) == t;
        match s
        case Atom(_, token) => AtomRead(x, t, token, cur, q);
        case List(_, items, trailing) => UnderstandItems(x, t.end, depth, items, 0, trailing, [], q);
        case Record(_, entries, trailing, close) => UnderstandEntries(x, t.end, depth, entries, 0, trailing, close,
            true, [], q);
      }
    }
  }

  lemma BlankYield(s: Syntax)
    requires s.Blank?
    ensures Yield(s) == s.lead
  {
  }

  lemma CommentFails(x: Context, p: nat, depth: nat, cur: Value)
    requires p <= |x.doc| && depth <= x.f.stackLimit && ReadToken(x.doc, x.f, p).kind == Comment && !x.f.allowComments
    ensures ReadValue(x, p, depth, cur).Failed?
  {
    hide ReadToken;
  }

  lemma BlankRead(x: Context, p: nat, depth: nat, cur: Value, s: Syntax, q: nat)
    requires p <= |x.doc| && q <= |x.doc| && s.Blank? && Comments(s.lead) && Reads(x.doc, x.f, p, s.lead, q)
    requires depth <= x.f.stackLimit && Ending(ReadToken(x.doc, x.f, q).kind)
    ensures Meets(x, ReadValue(x, p, depth, cur), Eval(x.f, x.lib, x.f.stackLimit + 1 - depth, s), q)
  {
    hide ReadToken, Reads, SkipSpaces, SkipCommentRun, Recover, ReadArray, ReadObject, Slot;
    var u := ReadToken(x.doc, x.f, q);
    var l := Lexeme(u.kind, TokenText(x.doc, u));
    ReadsToken(x.doc, x.f, q);
    ReadsJoin(x.doc, x.f, p, s.lead, q, [l], u.end);
    assert [l] + [] == [l];
    var t := Run(x.doc, x.f, p, s.lead, l, [], u.end);
    RunEnds(x.doc, x.f, p, s.lead, q);
    if s.lead != [] && !x.f.allowComments {
      CommentFails(x, p, depth, cur);
    } else {
      assert NextToken(x.doc, x.f, p) == u;
      EndingIsOneByte(x.doc, x.f, q);
    }
  }

  lemma ReadsToken(doc: bytes, f: Features, q: nat)
    requires q <= |doc|
    ensures var u := ReadToken(doc, f, q); Reads(doc, f, q, [Lexeme(u.kind, TokenText(doc, u))], u.end)
  {
    hide ReadToken;
    var u := ReadToken(doc, f, q);
    assert Reads(doc, f, u.end, [], u.end);
  }

  /** A run of comments ends at the token at its end. */
  lemma {:induction false} RunEnds(doc: bytes, f: Features, p: nat, gap: seq<Lexeme>, q: nat)
    requires p <= |doc| && q <= |doc| && Reads(doc, f, p, gap, q) && Comments(gap)
             && ReadToken(doc, f, q).kind != Comment
    ensures SkipCommentRun(doc, f, ReadToken(doc, f, p)) == ReadToken(doc, f, q)
    decreases gap
  {
    hide ReadToken;
    if gap == [] {
      SkipSpacesAgain(doc, f, p, q);
    } else {
      RunEnds(doc, f, ReadToken(doc, f, p).end, gap[1..], q);
      assert gap[1..] != [] ==> ReadToken(doc, f, ReadToken(doc, f, p).end).kind == Comment;
    }
  }

  lemma AtomRead(x: Context, t: Token, token: Lexeme, cur: Value, q: nat)
    requires Shaped(x.doc, t) && token == Lexeme(t.kind, TokenText(x.doc, t)) && q <= |x.doc|
             && Reads(x.doc, x.f, t.end, [], q)
    requires !Ending(t.kind) && t.kind !in {ObjectBegin, ArrayBegin, Comment, EndOfStream}
    ensures Meets(x, Scalar(x, t, cur), AtomValue(token, x.lib), q) && !Unread(x.f, t)
  {
    hide NumberValue, Decode;
    SkipSpacesAgain(x.doc, x.f, t.end, q);
  }

  // ---------------------------------------------------------------- arrays

  lemma {:induction false} UnderstandItems(x: Context, p: nat, depth: nat, items: seq<Item>, i: nat, trailing: bool,
                                           elems: seq<Member>, q: nat)
    requires p <= |x.doc| && q <= |x.doc| && i <= |items| && depth <= x.f.stackLimit
    requires Shape(x.f, List([], items, trailing)) && Reads(x.doc, x.f, p, ItemsYield(items, i, trailing), q)
    requires (i == |items| ==> i == 0 || trailing) && (i > 0 ==> depth < x.f.stackLimit)
    ensures Meets(x, ReadArray(x, p, depth, elems, i),
                  EvalItems(x.f, x.lib, x.f.stackLimit - depth, items, i, trailing, elems), q)
    decreases items, |items| - i, 1
  {
    hide ReadToken, Reads, Yield, ReadValue, ReadArray, AfterElement, Eval, EvalItems, Shape, SkipSpaces, ItemsYield;
    if i == |items| {
      ItemsEnd(x, p, depth, items, trailing, elems, q);
    } else {
      UnderstandItem(x, p, depth, items, i, trailing, elems, q);
    }
  }

  /** The head of the loop at the closing bracket: of an empty array, or behind a comma. */
  lemma ItemsEnd(x: Context, p: nat, depth: nat, items: seq<Item>, trailing: bool, elems: seq<Member>, q: nat)
    requires p <= |x.doc| && q <= |x.doc| && depth <= x.f.stackLimit
    requires Shape(x.f, List([], items, trailing)) && Reads(x.doc, x.f, p, ItemsYield(items, |items|, trailing), q)
    requires (items == [] || trailing) && (items != [] ==> depth < x.f.stackLimit)
    ensures Meets(x, ReadArray(x, p, depth, elems, |items|),
                  EvalItems(x.f, x.lib, x.f.stackLimit - depth, items, |items|, trailing, elems), q)
  {
    hide ReadToken, Reads, Eval, AfterElement, SkipSpaces, ReadValue, ItemsYield, ItemsShape;
    BracketNext(x, p, items, trailing, q);
    if trailing && !x.f.allowTrailingCommas {
      BracketFails(x, SkipSpaces(x.doc, p), depth + 1, Slot(elems, Index(|items|)));
    }
  }

  /** Where only the bracket is left, it is the next token. */
  lemma BracketNext(x: Context, p: nat, items: seq<Item>, trailing: bool, q: nat)
    requires p <= |x.doc| && q <= |x.doc| && Reads(x.doc, x.f, p, ItemsYield(items, |items|, trailing), q)
    ensures var s := SkipSpaces(x.doc, p);
            s < |x.doc| && x.doc[s] == RBRACKET && SkipSpaces(x.doc, s + 1) == SkipSpaces(x.doc, q)
              && ReadToken(x.doc, x.f, s).kind == ArrayEnd
  {
    hide ReadToken, Reads, Yield, SkipSpaces;
    assert ItemsYield(items, |items|, trailing) == [RB] + [];
    ReadsOne(x.doc, x.f, p, RB, [], q);
    PeekBracket(x.doc, x.f, p);
    SkipSpacesAgain(x.doc, x.f, p, SkipSpaces(x.doc, p));
    var t := ReadToken(x.doc, x.f, p);
    NothingRead(x.doc, x.f, t.end, q);
    SkipSpacesAgain(x.doc, x.f, t.end, q);
  }

  lemma BracketFails(x: Context, p: nat, depth: nat, cur: Value)
    requires p <= |x.doc| && depth <= x.f.stackLimit && ReadToken(x.doc, x.f, p).kind == ArrayEnd
             && !x.f.allowDroppedNullPlaceholders
    ensures ReadValue(x, p, depth, cur).Failed?
  {
    hide ReadToken;
  }

  /** What follows the value of item `i`. */
  ghost function ItemRest(items: seq<Item>, i: nat, trailing: bool): (t: seq<Lexeme>)
    requires i < |items|
    ensures t != []
  {
    items[i].gap + (if i + 1 < |items| || trailing then [SEPARATOR] + ItemsYield(items, i + 1, trailing) else [RB] + [])
  }

  lemma ItemSplit(items: seq<Item>, i: nat, trailing: bool)
    requires i < |items|
    ensures ItemsYield(items, i, trailing) == Yield(items[i].val) + ItemRest(items, i, trailing)
  {
    hide Yield;
    if i + 1 == |items| && !trailing {
      assert [] + ItemsYield(items, i + 1, trailing) == [RB] + [];
    }
  }

  /** No item is mistaken for the closing bracket. */
  lemma ItemHead(x: Context, p: nat, depth: nat, items: seq<Item>, i: nat, trailing: bool, elems: seq<Member>,
                 q: nat) returns (q': nat)
    requires p <= |x.doc| && i < |items| && Shape(x.f, List([], items, trailing))
    requires Reads(x.doc, x.f, p, Yield(items[i].val) + ItemRest(items, i, trailing), q)
    ensures q' <= |x.doc| && Reads(x.doc, x.f, q', Yield(items[i].val) + ItemRest(items, i, trailing), q)
    ensures ReadArray(x, p, depth, elems, i) == ElementTurn(x, q', depth, elems, i)
  {
    hide ReadToken, ReadValue, AfterElement, SkipSpaces, ItemsYield;
    q' := SkipSpaces(x.doc, p);
    SkipSpacesAgain(x.doc, x.f, p, q');
    ReadsFrom(x.doc, x.f, p, q', Yield(items[i].val) + ItemRest(items, i, trailing), q);
    PeekBracket(x.doc, x.f, p);
    FirstOfItem(x.f, items, i, trailing);
  }

  /** The first token of an item is a closing bracket only for a dropped null after a comma. */
  lemma FirstOfItem(f: Features, items: seq<Item>, i: nat, trailing: bool)
    requires i < |items| && Shape(f, List([], items, trailing))
    ensures (Yield(items[i].val) + ItemRest(items, i, trailing))[0].kind == ArrayEnd ==>
            i > 0 && f.allowDroppedNullPlaceholders
    ensures Yield(items[i].val) == [] <==> items[i].val == Blank([])
  {
    hide ItemsYield, EntriesYield;
    var v, rest := items[i].val, ItemRest(items, i, trailing);
    assert ItemsShape(f, items) && Shape(f, v) && Comments(v.lead);
    if v.lead != [] {
      if !v.Blank? {
        HeadAndTail(v);
      }
      assert (Yield(v) + rest)[0] == v.lead[0];
    } else if !v.Blank? {
      HeadAndTail(v);
      assert (Yield(v) + rest)[0] == Head(v);
    } else {
      assert (Yield(v) + rest)[0] == rest[0];
      assert v == Blank([]) && items[i].gap == [];
    }
  }

  lemma {:induction false} UnderstandItem(x: Context, p: nat, depth: nat, items: seq<Item>, i: nat, trailing: bool,
                                          elems: seq<Member>, q: nat)
    requires p <= |x.doc| && q <= |x.doc| && i < |items| && depth <= x.f.stackLimit
    requires Shape(x.f, List([], items, trailing)) && Reads(x.doc, x.f, p, ItemsYield(items, i, trailing), q)
    requires i > 0 ==> depth < x.f.stackLimit
    ensures Meets(x, ReadArray(x, p, depth, elems, i),
                  EvalItems(x.f, x.lib, x.f.stackLimit - depth, items, i, trailing, elems), q)
    decreases items, |items| - i, 0
  {
    hide ReadToken, Reads, Yield, ReadValue, ReadArray, AfterElement, Eval, SkipSpaces, ItemsYield, ItemRest, Put, Slot,
         Recover;
    ItemSplit(items, i, trailing);
    var q' := ItemHead(x, p, depth, items, i, trailing, elems, q);
    var m := ReadsSplit(x.doc, x.f, q', Yield(items[i].val), ItemRest(items, i, trailing), q);
    assert (items decreases to items[i]);
    if items[i].val.Blank? {
      BlankItem(x, m, items, i, trailing, q);
    }
    var slot := Slot(elems, Index(i));
    Understand(x, q', depth + 1, slot, items[i].val, m);
    var r := ReadValue(x, q', depth + 1, slot);
    if r.Done? {
      RoomLeft(x, depth + 1, items[i].val);
      ReadsFrom(x.doc, x.f, m, r.pos, ItemRest(items, i, trailing), q);
      UnderstandSeparator(x, r.pos, depth, items, i, trailing, Put(elems, Index(i), r.value), q);
    }
  }

  lemma RoomLeft(x: Context, depth: nat, s: Syntax)
    requires Eval(x.f, x.lib, x.f.stackLimit + 1 - depth, s).Gives?
    ensures depth <= x.f.stackLimit
  {
  }

  lemma BlankItem(x: Context, m: nat, items: seq<Item>, i: nat, trailing: bool, q: nat)
    requires m <= |x.doc| && i < |items| && ItemsShape(x.f, items) && items[i].val.Blank?
    requires Reads(x.doc, x.f, m, ItemRest(items, i, trailing), q)
    ensures Ending(ReadToken(x.doc, x.f, m).kind)
  {
    hide ReadToken, ItemsYield;
    assert items[i].gap == [];
    assert ItemRest(items, i, trailing)[0].kind in {ArraySeparator, ArrayEnd};
  }

  lemma {:induction false} UnderstandSeparator(x: Context, p: nat, depth: nat, items: seq<Item>, i: nat,
                                               trailing: bool, elems: seq<Member>, q: nat)
    requires p <= |x.doc| && q <= |x.doc| && i < |items| && depth < x.f.stackLimit
    requires Shape(x.f, List([], items, trailing)) && Reads(x.doc, x.f, p, ItemRest(items, i, trailing), q)
    ensures Meets(x, AfterElement(x, p, depth, elems, i + 1),
                  EvalItems(x.f, x.lib, x.f.stackLimit - depth, items, i + 1, trailing, elems), q)
    decreases items, |items| - i - 1, 2
  {
    hide ReadToken, Reads, ReadArray, SkipCommentRun, SkipSpaces, ItemsYield, Eval;
    assert ItemsShape(x.f, items) && Comments(items[i].gap);
    if i + 1 < |items| || trailing {
      var t := Run(x.doc, x.f, p, items[i].gap, SEPARATOR, ItemsYield(items, i + 1, trailing), q);
      UnderstandItems(x, t.end, depth, items, i + 1, trailing, elems, q);
    } else {
      var t := Run(x.doc, x.f, p, items[i].gap, RB, [], q);
      assert t.end <= q <= SkipSpaces(x.doc, t.end) by { NothingRead(x.doc, x.f, t.end, q); }
      SkipSpacesAgain(x.doc, x.f, t.end, q);
    }
  }

  lemma NothingRead(doc: bytes, f: Features, p: nat, q: nat)
    requires p <= |doc| && Reads(doc, f, p, [], q)
    ensures p <= q <= SkipSpaces(doc, p)
  {
  }

  // ---------------------------------------------------------------- objects

  lemma {:induction false} UnderstandEntries(x: Context, p: nat, depth: nat, entries: seq<Entry>, i: nat,
                                             trailing: bool, close: seq<Lexeme>, nameEmpty: bool, members: seq<Member>,
                                               q: nat)
    requires p <= |x.doc| && q <= |x.doc| && i <= |entries| && depth <= x.f.stackLimit
    requires EntriesShape(x.f, entries) && Comments(close)
             && Reads(x.doc, x.f, p, EntriesYield(entries, i, trailing, close), q)
    requires (i == |entries| ==> i == 0 || trailing) && (i == 0 ==> nameEmpty)
    ensures Meets(x, ReadObject(x, p, depth, members, nameEmpty),
                  EvalEntries(x.f, x.lib, x.f.stackLimit - depth, entries, i, trailing, nameEmpty, members), q)
    decreases entries, |entries| - i, 1
  {
    hide ReadToken, Reads, Yield, ReadValue, ReadObject, AfterMember, Eval, EvalEntries, SkipSpaces, EntriesYield;
    if i == |entries| {
      EntriesEnd(x, p, depth, entries, trailing, close, nameEmpty, members, q);
    } else {
      UnderstandEntry(x, p, depth, entries, i, trailing, close, nameEmpty, members, q);
    }
  }

  /** The head of the loop at the closing brace: of an empty object, or behind a separator. */
  lemma EntriesEnd(x: Context, p: nat, depth: nat, entries: seq<Entry>, trailing: bool, close: seq<Lexeme>,
                   nameEmpty: bool, members: seq<Member>, q: nat)
    requires p <= |x.doc| && q <= |x.doc| && depth <= x.f.stackLimit && Comments(close)
    requires Reads(x.doc, x.f, p, EntriesYield(entries, |entries|, trailing, close), q)
    requires (entries == [] || trailing) && (entries == [] ==> nameEmpty)
    ensures Meets(x, ReadObject(x, p, depth, members, nameEmpty),
                  EvalEntries(x.f, x.lib, x.f.stackLimit - depth, entries, |entries|, trailing, nameEmpty, members), q)
  {
    hide ReadToken, Reads, Yield, ReadValue, SkipSpaces, SkipCommentRun;
    assert close + [RC] == close + ([RC] + []);
    var t := Run(x.doc, x.f, p, close, RC, [], q);
    NothingRead(x.doc, x.f, t.end, q);
    SkipSpacesAgain(x.doc, x.f, t.end, q);
  }

  /** What follows the value of entry `i`. */
  ghost function EntryRest(entries: seq<Entry>, i: nat, trailing: bool, close: seq<Lexeme>): (t: seq<Lexeme>)
    requires i < |entries|
    ensures t != []
  {
    entries[i].gap
    + (if i + 1 < |entries| || trailing then [entries[i].sep] + EntriesYield(entries, i + 1, trailing, close)
       else [RC] + [])
  }

  lemma EntrySplit(entries: seq<Entry>, i: nat, trailing: bool, close: seq<Lexeme>)
    requires i < |entries|
    ensures var e := entries[i];
            EntriesYield(entries, i, trailing, close) ==
            e.pre + ([e.name] + ([NAME_SEPARATOR] + (Yield(e.val) + EntryRest(entries, i, trailing, close))))
  {
    hide Yield;
    if i + 1 == |entries| && !trailing {
      assert [] + EntriesYield(entries, i + 1, trailing, close) == [RC] + [];
    }
  }

  /** The value of a member and what follows it. */
  ghost function AfterName(x: Context, p: nat, depth: nat, members: seq<Member>, s: bytes): Outcome
    requires p <= |x.doc|
  {
    match ReadValue(x, p, depth + 1, Slot(members, Name(s)))
    case Thrown => Thrown
    case Failed(p', v, e) => Failed(Recover(x.doc, x.f, p', ObjectEnd), Obj(Put(members, Name(s), v)), e)
    case Done(p', v) => AfterMember(x, p', depth, Put(members, Name(s), v), s == [])
  }

  lemma NameIsName(x: Context, t: Token)
    requires Shaped(x.doc, t)
    ensures match NameOf(Lexeme(t.kind, TokenText(x.doc, t)), x.f, x.lib)
            case Some(s) => MemberName(x, t) == Named(s)
            case None => MemberName(x, t).BadName?
  {
    hide NumberValue, Decode;
  }

  /** The name and the colon: the reader goes on to the member's value, unless the name is none, too long or a
      duplicate. */
  lemma NameAndColon(x: Context, p: nat, depth: nat, members: seq<Member>, nameEmpty: bool, pre: seq<Lexeme>,
                     name: Lexeme, rest: seq<Lexeme>, q: nat)
    returns (next: nat)
    requires p <= |x.doc| && Comments(pre) && name.kind !in {Comment, ObjectEnd}
    requires Reads(x.doc, x.f, p, pre + ([name] + ([NAME_SEPARATOR] + rest)), q)
    ensures next <= |x.doc| && Reads(x.doc, x.f, next, rest, q)
    ensures match NameOf(name, x.f, x.lib)
            case None => ReadObject(x, p, depth, members, nameEmpty).Failed?
            case Some(s) =>
              if |s| >= KEY_LENGTH_LIMIT then ReadObject(x, p, depth, members, nameEmpty).Thrown?
              else if x.f.rejectDupKeys && Has(members, Name(s)) then
                ReadObject(x, p, depth, members, nameEmpty).Failed?
              else ReadObject(x, p, depth, members, nameEmpty) == AfterName(x, next, depth, members, s)
  {
    hide ReadToken, SkipCommentRun, Reads, MemberName, NameOf, ReadValue, AfterMember;
    var t := Run(x.doc, x.f, p, pre, name, [NAME_SEPARATOR] + rest, q);
    NameIsName(x, t);
    ReadsOne(x.doc, x.f, t.end, NAME_SEPARATOR, rest, q);
    next := ReadToken(x.doc, x.f, t.end).end;
    if MemberName(x, t).Named? {
      NamesHaveText(x, t);
    }
  }

  lemma NamesHaveText(x: Context, t: Token)
    requires Shaped(x.doc, t) && MemberName(x, t).Named?
    ensures t.start < t.end
  {
  }

  lemma {:induction false} UnderstandEntry(x: Context, p: nat, depth: nat, entries: seq<Entry>, i: nat, trailing: bool,
                                           close: seq<Lexeme>, nameEmpty: bool, members: seq<Member>, q: nat)
    requires p <= |x.doc| && q <= |x.doc| && i < |entries| && depth <= x.f.stackLimit
    requires EntriesShape(x.f, entries) && Comments(close)
             && Reads(x.doc, x.f, p, EntriesYield(entries, i, trailing, close), q)
    ensures Meets(x, ReadObject(x, p, depth, members, nameEmpty),
                  EvalEntries(x.f, x.lib, x.f.stackLimit - depth, entries, i, trailing, nameEmpty, members), q)
    decreases entries, |entries| - i, 0
  {
    hide ReadToken, Reads, Yield, ReadValue, ReadObject, AfterMember, Eval, SkipSpaces, EntriesYield, EntryRest,
         NameOf, Has, Put, Get;
    EntrySplit(entries, i, trailing, close);
    var e := entries[i];
    assert (entries decreases to entries[i]);
    assert EntryShape(x.f, e);
    var rest := EntryRest(entries, i, trailing, close);
    var next := NameAndColon(x, p, depth, members, nameEmpty, e.pre, e.name, Yield(e.val) + rest, q);
    var m := ReadsSplit(x.doc, x.f, next, Yield(e.val), rest, q);
    var name := NameOf(e.name, x.f, x.lib);
    if name.Some? && |name.value| < KEY_LENGTH_LIMIT && !(x.f.rejectDupKeys && Has(members, Name(name.value))) {
      if e.val.Blank? {
        BlankEntry(x, m, entries, i, trailing, close, q);
      }
      var slot := Slot(members, Name(name.value));
      Understand(x, next, depth + 1, slot, e.val, m);
      var r := ReadValue(x, next, depth + 1, slot);
      if r.Done? {
        ReadsFrom(x.doc, x.f, m, r.pos, rest, q);
        UnderstandEntryEnd(x, r.pos, depth, entries, i, trailing, close, name.value == [],
                           Put(members, Name(name.value), r.value), q);
      }
    }
  }

  lemma BlankEntry(x: Context, m: nat, entries: seq<Entry>, i: nat, trailing: bool, close: seq<Lexeme>, q: nat)
    requires m <= |x.doc| && i < |entries| && EntryShape(x.f, entries[i]) && entries[i].val.Blank?
    requires Reads(x.doc, x.f, m, EntryRest(entries, i, trailing, close), q)
    ensures Ending(ReadToken(x.doc, x.f, m).kind)
  {
    hide ReadToken, EntriesYield;
    assert EntryRest(entries, i, trailing, close)[0] == if i + 1 < |entries| || trailing then entries[i].sep else RC;
  }

  /** What the meaning makes of an entry once its value is there. */
  ghost function EntryEnd(f: Features, lib: Doubles, room: int, entries: seq<Entry>, i: nat, trailing: bool,
                          nameEmpty: bool, members: seq<Member>): Result
    requires i < |entries|
  {
    if (i + 1 < |entries| || trailing) && !Separates(entries[i]) then Fails
    else EvalEntries(f, lib, room, entries, i + 1, trailing, nameEmpty, members)
  }

  lemma {:induction false} UnderstandEntryEnd(x: Context, p: nat, depth: nat, entries: seq<Entry>, i: nat,
                                              trailing: bool, close: seq<Lexeme>, nameEmpty: bool,
                                                members: seq<Member>, q: nat)
    requires p <= |x.doc| && q <= |x.doc| && i < |entries| && depth <= x.f.stackLimit
    requires EntriesShape(x.f, entries) && Comments(close)
             && Reads(x.doc, x.f, p, EntryRest(entries, i, trailing, close), q)
    ensures Meets(x, AfterMember(x, p, depth, members, nameEmpty),
                  EntryEnd(x.f, x.lib, x.f.stackLimit - depth, entries, i, trailing, nameEmpty, members), q)
    decreases entries, |entries| - i - 1, 2
  {
    hide ReadToken, Reads, ReadObject, SkipCommentRun, SkipSpaces, EntriesYield, Eval;
    assert EntryShape(x.f, entries[i]);
    if i + 1 < |entries| || trailing {
      var t := Run(x.doc, x.f, p, entries[i].gap, entries[i].sep, EntriesYield(entries, i + 1, trailing, close), q);
      if Separates(entries[i]) {
        UnderstandEntries(x, t.end, depth, entries, i + 1, trailing, close, nameEmpty, members, q);
      }
    } else {
      var t := Run(x.doc, x.f, p, entries[i].gap, RC, [], q);
      NothingRead(x.doc, x.f, t.end, q);
      SkipSpacesAgain(x.doc, x.f, t.end, q);
    }
  }

  // ---------------------------------------------------------------- whatever is accepted has a tree

  ghost function LexemeAt(doc: bytes, t: Token): Lexeme
    requires t.start <= t.end <= |doc|
  {
    Lexeme(t.kind, TokenText(doc, t))
  }

  /** Brackets, commas and colons always look the same. */
  lemma FixedText(doc: bytes, f: Features, p: nat)
    requires p <= |doc|
    ensures var t := ReadToken(doc, f, p);
            var l := LexemeAt(doc, t);
            (t.kind == ArrayBegin ==> l == LB) && (t.kind == ArrayEnd ==> l == RB)
              && (t.kind == ObjectBegin ==> l == LC)
            && (t.kind == ObjectEnd ==> l == RC) && (t.kind == ArraySeparator ==> l == SEPARATOR)
               && (t.kind == MemberSeparator ==> l == NAME_SEPARATOR)
  {
    var q := SkipSpaces(doc, p);
    if q < |doc| {
      FixedTextAt(doc, f, q);
      assert doc[q..q + 1] == [doc[q]];
    }
  }

  lemma FixedTextAt(doc: bytes, f: Features, q: nat)
    requires q < |doc|
    ensures var t := TokenAt(doc, f, q);
            t.kind in {ArrayBegin, ArrayEnd, ObjectBegin, ObjectEnd, ArraySeparator, MemberSeparator} ==>
              t.end == q + 1
              && doc[q] == match t.kind
                           case ArrayBegin => LBRACKET
                           case ArrayEnd => RBRACKET
                           case ObjectBegin => LBRACE
                           case ObjectEnd => RBRACE
                           case ArraySeparator => COMMA
                           case _ => COLON
  {
  }

  /** The comments at a cursor, and where they end. */
  lemma {:induction false} LeadOf(doc: bytes, f: Features, p: nat) returns (lead: seq<Lexeme>, m: nat)
    requires p <= |doc|
    ensures p <= m <= |doc| && Comments(lead) && Reads(doc, f, p, lead, m)
    ensures ReadToken(doc, f, m) == SkipCommentRun(doc, f, ReadToken(doc, f, p)) && ReadToken(doc, f, m).kind != Comment
    ensures if ReadToken(doc, f, p).kind == Comment then lead != [] else lead == [] && m == p
    decreases |doc| - p
  {
    hide ReadToken;
    var t := ReadToken(doc, f, p);
    if t.kind != Comment {
      lead, m := [], p;
    } else {
      var rest;
      rest, m := LeadOf(doc, f, t.end);
      lead := [LexemeAt(doc, t)] + rest;
      assert lead[1..] == rest;
    }
  }

  /** A tree for what was read up to `q`, with the value that came out. */
  ghost predicate IsTreeOf(x: Context, p: nat, depth: nat, r: Outcome, s: Syntax)
    requires p <= |x.doc|
  {
    && r.Done? && r.pos <= |x.doc| && Shape(x.f, s) && Reads(x.doc, x.f, p, Yield(s), r.pos)
    && Eval(x.f, x.lib, x.f.stackLimit + 1 - depth, s) == Gives(r.value)
    && (s.Blank? ==> Ending(ReadToken(x.doc, x.f, r.pos).kind))
  }

  lemma {:induction false} Derive(x: Context, p: nat, depth: nat, cur: Value) returns (s: Syntax)
    requires p <= |x.doc| && ReadValue(x, p, depth, cur).Done?
    ensures IsTreeOf(x, p, depth, ReadValue(x, p, depth, cur), s)
    decreases |x.doc| - p, 1
  {
    hide ReadToken, SkipCommentRun, Reads, ReadArray, ReadObject, Scalar, SkipSpaces, IsTreeOf, AreItemsOf,
         AreEntriesOf;
    var lead, m := [], p;
    if x.f.allowComments {
      lead, m := LeadOf(x.doc, x.f, p);
    } else {
      NoTokens(x.doc, x.f, p);
      EmptyLead();
    }
    var t := ReadToken(x.doc, x.f, m);
    assert t == NextToken(x.doc, x.f, p);
    var r := ReadValue(x, p, depth, cur);
    if t.kind == ObjectBegin {
      var entries, trailing, close := DeriveEntries(x, t.end, depth, [], true, []);
      s := Record(lead, entries, trailing, close);
      RecordTree(x, p, depth, r, lead, m, entries, trailing, close);
    } else if t.kind == ArrayBegin {
      var items, trailing := DeriveItems(x, t.end, depth, [], []);
      s := List(lead, items, trailing);
      ListTree(x, p, depth, r, lead, m, items, trailing);
    } else if Unread(x.f, t) {
      s := DeriveBlank(x, p, depth, lead, m);
    } else {
      s := Atom(lead, LexemeAt(x.doc, t));
      AtomTree(x, p, depth, cur, lead, m);
    }
  }

  lemma EmptyLead()
    ensures Comments([])
  {
  }

  /** A lead is in order when the features allow comments. */
  ghost predicate LeadRead(x: Context, p: nat, depth: nat, lead: seq<Lexeme>, m: nat)
    requires p <= |x.doc|
  {
    m <= |x.doc| && depth <= x.f.stackLimit && Comments(lead) && (lead == [] || x.f.allowComments)
      && Reads(x.doc, x.f, p, lead, m)
  }

  lemma RecordTree(x: Context, p: nat, depth: nat, r: Outcome, lead: seq<Lexeme>, m: nat, entries: seq<Entry>,
                   trailing: bool, close: seq<Lexeme>)
    requires p <= |x.doc| && LeadRead(x, p, depth, lead, m) && ReadToken(x.doc, x.f, m).kind == ObjectBegin
    requires AreEntriesOf(x, ReadToken(x.doc, x.f, m).end, depth, r, [], true, [], entries, trailing, close)
    ensures IsTreeOf(x, p, depth, r, Record(lead, entries, trailing, close))
  {
    hide ReadToken, Reads, EvalEntries, EntriesYield, EntriesShape, Yield;
    FixedText(x.doc, x.f, m);
    FromHead(x, p, Record(lead, entries, trailing, close), m, r.pos);
  }

  lemma ListTree(x: Context, p: nat, depth: nat, r: Outcome, lead: seq<Lexeme>, m: nat, items: seq<Item>,
                 trailing: bool)
    requires p <= |x.doc| && LeadRead(x, p, depth, lead, m) && ReadToken(x.doc, x.f, m).kind == ArrayBegin
    requires AreItemsOf(x, ReadToken(x.doc, x.f, m).end, depth, r, [], [], items, trailing)
    ensures IsTreeOf(x, p, depth, r, List(lead, items, trailing))
  {
    hide ReadToken, Reads, EvalItems, ItemsYield, ItemsShape, Yield, SkipSpaces;
    FixedText(x.doc, x.f, m);
    FromHead(x, p, List(lead, items, trailing), m, r.pos);
  }

  lemma AtomTree(x: Context, p: nat, depth: nat, cur: Value, lead: seq<Lexeme>, m: nat)
    requires p <= |x.doc| && LeadRead(x, p, depth, lead, m)
    requires var t := ReadToken(x.doc, x.f, m); t.kind != EndOfStream && Scalar(x, t, cur).Done?
    ensures var t := ReadToken(x.doc, x.f, m); IsTreeOf(x, p, depth, Scalar(x, t, cur), Atom(lead, LexemeAt(x.doc, t)))
  {
    hide ReadToken, Reads, Scalar, Yield, AtomValue;
    var t := ReadToken(x.doc, x.f, m);
    AtomDerived(x, t, cur);
    NoTokens(x.doc, x.f, t.end);
    FromHead(x, p, Atom(lead, LexemeAt(x.doc, t)), m, t.end);
  }

  lemma NoTokens(doc: bytes, f: Features, p: nat)
    requires p <= |doc|
    ensures Reads(doc, f, p, [], p)
  {
  }

  lemma FromHead(x: Context, p: nat, s: Syntax, m: nat, q: nat)
    requires p <= |x.doc| && m <= |x.doc| && !s.Blank? && Reads(x.doc, x.f, p, s.lead, m)
    requires var t := ReadToken(x.doc, x.f, m); LexemeAt(x.doc, t) == Head(s) && Reads(x.doc, x.f, t.end, Tail(s), q)
    ensures Reads(x.doc, x.f, p, Yield(s), q)
  {
    hide ReadToken, Yield, Head, Tail;
    HeadAndTail(s);
    var rest := [Head(s)] + Tail(s);
    assert rest[0] == Head(s) && rest[1..] == Tail(s);
    ReadsJoin(x.doc, x.f, p, s.lead, m, rest, q);
  }

  lemma DeriveBlank(x: Context, p: nat, depth: nat, lead: seq<Lexeme>, m: nat) returns (s: Syntax)
    requires p <= |x.doc| && LeadRead(x, p, depth, lead, m) && Unread(x.f, ReadToken(x.doc, x.f, m))
    ensures s.Blank? && IsTreeOf(x, p, depth, Done(ReadToken(x.doc, x.f, m).end - 1, Null), s)
  {
    hide ReadToken, SkipSpaces;
    s := Blank(lead);
    EndingIsOneByte(x.doc, x.f, m);
    var q := SkipSpaces(x.doc, m);
    SkipSpacesAgain(x.doc, x.f, m, q);
    assert Reads(x.doc, x.f, m, [], q);
    ReadsJoin(x.doc, x.f, p, lead, m, [], q);
    assert lead + [] == lead;
  }

  lemma AtomDerived(x: Context, t: Token, cur: Value)
    requires Shaped(x.doc, t) && t.kind != EndOfStream && Scalar(x, t, cur).Done?
    ensures AtomValue(LexemeAt(x.doc, t), x.lib) == Gives(Scalar(x, t, cur).value) && Scalar(x, t, cur).pos == t.end
    ensures !Ending(t.kind) && t.kind !in {ObjectBegin, ArrayBegin, Comment, EndOfStream}
  {
    hide NumberValue, Decode;
  }

  // ---------------------------------------------------------------- arrays that were accepted

  /** What the loop of readArray came to, from its head on: the items so far and those that follow. */
  ghost predicate AreItemsOf(x: Context, p: nat, depth: nat, r: Outcome, before: seq<Item>, elems: seq<Member>,
                             items: seq<Item>, trailing: bool)
    requires p <= |x.doc|
  {
    && r.Done? && r.pos <= |x.doc| && before <= items && Shape(x.f, List([], items, trailing))
    && Reads(x.doc, x.f, p, ItemsYield(items, |before|, trailing), r.pos)
    && EvalItems(x.f, x.lib, x.f.stackLimit - depth, items, |before|, trailing, elems) == Gives(r.value)
    && (before != [] ==> |before| < |items| || trailing)
  }

  lemma {:induction false} DeriveItems(x: Context, p: nat, depth: nat, before: seq<Item>, elems: seq<Member>)
    returns (items: seq<Item>, trailing: bool)
    requires p <= |x.doc| && depth <= x.f.stackLimit && ItemsShape(x.f, before)
    requires ReadArray(x, p, depth, elems, |before|).Done?
    ensures AreItemsOf(x, p, depth, ReadArray(x, p, depth, elems, |before|), before, elems, items, trailing)
    decreases |x.doc| - p, 3
  {
    hide ReadToken, SkipCommentRun, Reads, ReadValue, AfterElement, Eval, Yield, Shape, ItemsYield, ItemsShape, Put,
         Get, Has, IsTreeOf, AreItemsOf, Slot, SkipSpaces, Recover, ReadArray;
    PeekBracket(x.doc, x.f, p);
    if NoneLeft(x, p, |before|) {
      ArrayStep(x, p, depth, elems, |before|);
      items, trailing := before, before != [];
      NoMoreItems(x, p, depth, before, elems);
    } else {
      var item, v, pos, m := NextItem(x, p, depth, before, elems);
      var t := ReadToken(x.doc, x.f, m);
      if t.kind == ArrayEnd {
        items, trailing := before + [item], false;
        LastItem(x, p, SkipSpaces(x.doc, p), depth, before, elems, item, pos, v, m);
      } else {
        items, trailing := DeriveItems(x, t.end, depth, before + [item], Put(elems, Index(|before|), v));
        MoreItems(x, p, SkipSpaces(x.doc, p), depth, before, elems, item, pos, v, m,
                  ReadArray(x, p, depth, elems, |before|), items, trailing);
      }
    }
  }

  /** The peek of readArray finds the closing bracket, where it may stand. */
  ghost predicate NoneLeft(x: Context, p: nat, i: nat)
    requires p <= |x.doc|
  {
    var q := SkipSpaces(x.doc, p);
    q < |x.doc| && x.doc[q] == RBRACKET && (i == 0 || (x.f.allowTrailingCommas && !x.f.allowDroppedNullPlaceholders))
  }

  /** One turn of the loop: an item, its value, where that ends and where the comments behind it end. */
  lemma {:induction false} NextItem(x: Context, p: nat, depth: nat, before: seq<Item>, elems: seq<Member>)
    returns (item: Item, v: Value, pos: nat, m: nat)
    requires p <= |x.doc| && depth <= x.f.stackLimit && ItemsShape(x.f, before) && !NoneLeft(x, p, |before|)
    requires ReadArray(x, p, depth, elems, |before|).Done?
    ensures var q := SkipSpaces(x.doc, p);
            && SkipSpaces(x.doc, q) == q && pos <= m <= |x.doc| && (item.val.Blank? ==> m == pos)
               && ItemsShape(x.f, before + [item])
            && Reads(x.doc, x.f, pos, item.gap, m)
            && Reads(x.doc, x.f, q, Yield(item.val), pos)
               && Eval(x.f, x.lib, x.f.stackLimit - depth, item.val) == Gives(v)
    ensures var t := ReadToken(x.doc, x.f, m);
            var elems' := Put(elems, Index(|before|), v);
            && p < t.end && t.kind in {ArrayEnd, ArraySeparator}
            && ReadArray(x, p, depth, elems, |before|)
               == if t.kind == ArrayEnd then Done(t.end, Arr(elems'))
                  else ReadArray(x, t.end, depth, elems', |before| + 1)
    decreases |x.doc| - p, 2
  {
    hide SkipCommentRun, Reads, ReadValue, AfterElement, Eval, Yield, Shape, ItemsYield, ItemsShape, Put, Get, Has,
         IsTreeOf, Slot, SkipSpaces, Recover, ReadArray, ReadToken;
    var q := SkipSpaces(x.doc, p);
    SkipSpacesAgain(x.doc, x.f, p, q);
    ArrayStep(x, p, depth, elems, |before|);
    var slot := Slot(elems, Index(|before|));
    var s := Derive(x, q, depth + 1, slot);
    var r := ReadValue(x, q, depth + 1, slot);
    var gap;
    gap, m := GapOf(x, q, depth + 1, r, s);
    item, v, pos := Item(s, gap), r.value, r.pos;
    ItemShaped(x.f, before, item);
    AfterElementStep(x, pos, depth, Put(elems, Index(|before|), v), |before| + 1, ReadToken(x.doc, x.f, m));
  }

  /** The comments behind a value; there are none behind a blank. */
  lemma GapOf(x: Context, p: nat, depth: nat, r: Outcome, s: Syntax) returns (gap: seq<Lexeme>, m: nat)
    requires p <= |x.doc| && IsTreeOf(x, p, depth, r, s)
    ensures r.Done? && r.pos <= m <= |x.doc| && Comments(gap) && Reads(x.doc, x.f, r.pos, gap, m)
    ensures ReadToken(x.doc, x.f, m) == SkipCommentRun(x.doc, x.f, ReadToken(x.doc, x.f, r.pos))
            && ReadToken(x.doc, x.f, m).kind != Comment
    ensures if ReadToken(x.doc, x.f, r.pos).kind == Comment then gap != [] else gap == [] && m == r.pos
    ensures Shape(x.f, s) && Reads(x.doc, x.f, p, Yield(s), r.pos)
            && Eval(x.f, x.lib, x.f.stackLimit + 1 - depth, s) == Gives(r.value)
    ensures s.Blank? ==> gap == [] && m == r.pos && Ending(ReadToken(x.doc, x.f, m).kind)
  {
    hide ReadToken, Reads, Yield, Eval, Shape, SkipCommentRun;
    gap, m := LeadOf(x.doc, x.f, r.pos);
  }

  lemma NoMoreItems(x: Context, p: nat, depth: nat, before: seq<Item>, elems: seq<Member>)
    requires p <= |x.doc| && ItemsShape(x.f, before) && ReadToken(x.doc, x.f, p).kind == ArrayEnd
    requires before != [] ==> x.f.allowTrailingCommas && !x.f.allowDroppedNullPlaceholders
    ensures AreItemsOf(x, p, depth, Done(ReadToken(x.doc, x.f, p).end, Arr(elems)), before, elems, before, before != [])
  {
    hide ReadToken, Yield, Eval;
    FixedText(x.doc, x.f, p);
    NoTokens(x.doc, x.f, ReadToken(x.doc, x.f, p).end);
    assert ItemsYield(before, |before|, before != [])[1..] == [];
  }

  lemma ItemShaped(f: Features, before: seq<Item>, item: Item)
    requires ItemsShape(f, before) && Shape(f, item.val) && Comments(item.gap) && (item.val.Blank? ==> item.gap == [])
    ensures ItemsShape(f, before + [item])
  {
    hide Shape, Comments;
  }

  lemma ArrayStep(x: Context, p: nat, depth: nat, elems: seq<Member>, i: nat)
    requires p <= |x.doc| && ReadArray(x, p, depth, elems, i).Done?
    ensures var q := SkipSpaces(x.doc, p);
            if NoneLeft(x, p, i) then ReadArray(x, p, depth, elems, i) == Done(q + 1, Arr(elems))
            else
              var r := ReadValue(x, q, depth + 1, Slot(elems, Index(i)));
              r.Done? && ReadArray(x, p, depth, elems, i)
                == AfterElement(x, r.pos, depth, Put(elems, Index(i), r.value), i + 1)
  {
    hide AfterElement, ReadValue, Put, Slot, SkipSpaces, Recover;
  }

  lemma AfterElementStep(x: Context, p: nat, depth: nat, elems: seq<Member>, index: nat, t: Token)
    requires p <= |x.doc| && AfterElement(x, p, depth, elems, index).Done?
             && t == SkipCommentRun(x.doc, x.f, ReadToken(x.doc, x.f, p))
    ensures t.kind == ArrayEnd || t.kind == ArraySeparator
    ensures AfterElement(x, p, depth, elems, index) ==
            if t.kind == ArrayEnd then Done(t.end, Arr(elems)) else ReadArray(x, t.end, depth, elems, index)
  {
    hide ReadArray, ReadToken, SkipCommentRun;
  }

  /** An item in the token stream: its value, the comments behind it, and what is left. */
  lemma ItemReads(x: Context, p: nat, q: nat, items: seq<Item>, i: nat, trailing: bool, pos: nat, m: nat, end: nat)
    requires p <= |x.doc| && q <= |x.doc| && pos <= |x.doc| && m <= |x.doc|
             && SkipSpaces(x.doc, p) == SkipSpaces(x.doc, q) && i < |items|
    requires Reads(x.doc, x.f, q, Yield(items[i].val), pos) && Reads(x.doc, x.f, pos, items[i].gap, m)
    requires Reads(x.doc, x.f, m, if i + 1 < |items|
             || trailing then [SEPARATOR] + ItemsYield(items, i + 1, trailing) else [RB] + [], end)
    ensures Reads(x.doc, x.f, p, ItemsYield(items, i, trailing), end)
  {
    hide Reads, Yield, ItemsYield, SkipSpaces;
    ItemSplit(items, i, trailing);
    var after := if i + 1 < |items| || trailing then [SEPARATOR] + ItemsYield(items, i + 1, trailing) else [RB] + [];
    ReadsJoin(x.doc, x.f, pos, items[i].gap, m, after, end);
    ReadsJoin(x.doc, x.f, q, Yield(items[i].val), pos, ItemRest(items, i, trailing), end);
    ReadsFrom(x.doc, x.f, p, q, ItemsYield(items, i, trailing), end);
  }

  lemma OneMore(x: Context, m: nat, l: Lexeme, rest: seq<Lexeme>, end: nat)
    requires m <= |x.doc| && LexemeAt(x.doc, ReadToken(x.doc, x.f, m)) == l
             && Reads(x.doc, x.f, ReadToken(x.doc, x.f, m).end, rest, end)
    ensures Reads(x.doc, x.f, m, [l] + rest, end)
  {
    hide ReadToken;
    assert ([l] + rest)[0] == l && ([l] + rest)[1..] == rest;
  }

  lemma EvalItemStep(f: Features, lib: Doubles, room: int, items: seq<Item>, i: nat, trailing: bool,
                     elems: seq<Member>, v: Value)
    requires i < |items| && Eval(f, lib, room, items[i].val) == Gives(v)
    ensures EvalItems(f, lib, room, items, i, trailing, elems)
            == EvalItems(f, lib, room, items, i + 1, trailing, Put(elems, Index(i), v))
  {
    hide Eval, Put;
  }

  lemma LastItem(x: Context, p: nat, q: nat, depth: nat, before: seq<Item>, elems: seq<Member>, item: Item, pos: nat,
                 v: Value, m: nat)
    requires p <= |x.doc| && q == SkipSpaces(x.doc, p) == SkipSpaces(x.doc, q) && pos <= |x.doc| && m <= |x.doc|
    requires Reads(x.doc, x.f, q, Yield(item.val), pos)
             && Eval(x.f, x.lib, x.f.stackLimit - depth, item.val) == Gives(v)
    requires ItemsShape(x.f, before + [item])
    requires Reads(x.doc, x.f, pos, item.gap, m) && ReadToken(x.doc, x.f, m).kind == ArrayEnd
    requires ReadToken(x.doc, x.f, p).kind == ArrayEnd ==> before != []
    requires item.val.Blank? ==> m == pos
    ensures AreItemsOf(x, p, depth, Done(ReadToken(x.doc, x.f, m).end, Arr(Put(elems, Index(|before|), v))), before,
                       elems, before + [item], false)
  {
    hide ReadToken, Reads, Yield, Eval, ItemsYield, Put, Shape, ItemsShape, SkipSpaces;
    var items, end := before + [item], ReadToken(x.doc, x.f, m).end;
    FixedText(x.doc, x.f, m);
    NoTokens(x.doc, x.f, end);
    OneMore(x, m, RB, [], end);
    ItemReads(x, p, q, items, |before|, false, pos, m, end);
    EvalItemStep(x.f, x.lib, x.f.stackLimit - depth, items, |before|, false, elems, v);
    if item.val == Blank([]) {
      BlankIsAllowed(x, depth + 1, v);
      NothingRead(x.doc, x.f, q, pos) by { BlankYield(item.val); }
      SkipSpacesAgain(x.doc, x.f, p, q);
    }
    ListShape(x.f, before, item);
  }

  lemma ListShape(f: Features, before: seq<Item>, item: Item)
    requires ItemsShape(f, before + [item])
             && (item.val == Blank([]) ==> before != [] && f.allowDroppedNullPlaceholders)
    ensures Shape(f, List([], before + [item], false))
  {
    hide ItemsShape;
  }

  lemma BlankIsAllowed(x: Context, depth: nat, v: Value)
    requires Eval(x.f, x.lib, x.f.stackLimit + 1 - depth, Blank([])) == Gives(v)
    ensures x.f.allowDroppedNullPlaceholders
  {
  }

  lemma MoreItems(x: Context, p: nat, q: nat, depth: nat, before: seq<Item>, elems: seq<Member>, item: Item, pos: nat,
                  v: Value, m: nat, r: Outcome, items: seq<Item>, trailing: bool)
    requires p <= |x.doc| && q == SkipSpaces(x.doc, p) == SkipSpaces(x.doc, q) && pos <= |x.doc| && m <= |x.doc|
    requires Reads(x.doc, x.f, q, Yield(item.val), pos)
             && Eval(x.f, x.lib, x.f.stackLimit - depth, item.val) == Gives(v)
    requires Reads(x.doc, x.f, pos, item.gap, m) && ReadToken(x.doc, x.f, m).kind == ArraySeparator
    requires AreItemsOf(x, ReadToken(x.doc, x.f, m).end, depth, r, before + [item], Put(elems, Index(|before|), v),
                        items, trailing)
    ensures AreItemsOf(x, p, depth, r, before, elems, items, trailing)
  {
    hide ReadToken, Reads, Yield, Eval, EvalItems, ItemsYield, Put, Shape, SkipSpaces;
    var i := |before|;
    assert items[i] == (before + [item])[i] == item && before == (before + [item])[..i] == items[..i];
    FixedText(x.doc, x.f, m);
    OneMore(x, m, SEPARATOR, ItemsYield(items, i + 1, trailing), r.pos);
    ItemReads(x, p, q, items, i, trailing, pos, m, r.pos);
    EvalItemStep(x.f, x.lib, x.f.stackLimit - depth, items, i, trailing, elems, v);
  }

  // ---------------------------------------------------------------- objects that were accepted

  ghost predicate AreEntriesOf(x: Context, p: nat, depth: nat, r: Outcome, before: seq<Entry>, nameEmpty: bool,
                               members: seq<Member>, entries: seq<Entry>, trailing: bool, close: seq<Lexeme>)
    requires p <= |x.doc|
  {
    && r.Done? && r.pos <= |x.doc| && before <= entries && EntriesShape(x.f, entries) && Comments(close)
       && (trailing ==> entries != [])
    && Reads(x.doc, x.f, p, EntriesYield(entries, |before|, trailing, close), r.pos)
    && EvalEntries(x.f, x.lib, x.f.stackLimit - depth, entries, |before|, trailing, nameEmpty, members)
       == Gives(r.value)
    && (before != [] ==> |before| < |entries| || trailing)
  }

  lemma {:induction false} DeriveEntries(x: Context, p: nat, depth: nat, before: seq<Entry>, nameEmpty: bool,
                                         members: seq<Member>)
    returns (entries: seq<Entry>, trailing: bool, close: seq<Lexeme>)
    requires p <= |x.doc| && depth <= x.f.stackLimit && EntriesShape(x.f, before) && (before == [] ==> nameEmpty)
    requires ReadObject(x, p, depth, members, nameEmpty).Done?
    ensures AreEntriesOf(x, p, depth, ReadObject(x, p, depth, members, nameEmpty), before, nameEmpty, members, entries,
                         trailing, close)
    decreases |x.doc| - p, 3
  {
    hide ReadToken, SkipCommentRun, Reads, ReadValue, AfterMember, Eval, Yield, Shape, EntriesYield, EntriesShape, Put,
         Get, Has, NameOf, MemberName, IsTreeOf, AreEntriesOf, EntryRead, Slot, ReadObject, SkipSpaces;
    var pre, m0 := LeadOf(x.doc, x.f, p);
    if ReadToken(x.doc, x.f, m0).kind == ObjectEnd && (nameEmpty || x.f.allowTrailingCommas) {
      entries, trailing, close := before, before != [], pre;
      ObjectEnds(x, p, depth, members, nameEmpty, m0);
      NoMoreEntries(x, p, depth, before, nameEmpty, members, pre, m0);
    } else {
      var e, name, v, m := NextEntry(x, p, depth, before, nameEmpty, members, pre, m0);
      var after := ReadToken(x.doc, x.f, m);
      if after.kind == ObjectEnd {
        entries, trailing, close := before + [e], false, [];
        LastEntry(x, p, depth, before, nameEmpty, members, e, name, v, m);
      } else {
        entries, trailing, close :=
          DeriveEntries(x, after.end, depth, before + [e], name == [], Put(members, Name(name), v));
        MoreEntries(x, p, depth, before, nameEmpty, members, e, name, v, m,
                    ReadObject(x, p, depth, members, nameEmpty), entries, trailing, close);
      }
    }
  }

  lemma ObjectEnds(x: Context, p: nat, depth: nat, members: seq<Member>, nameEmpty: bool, m0: nat)
    requires p <= |x.doc| && m0 <= |x.doc|
             && ReadToken(x.doc, x.f, m0) == SkipCommentRun(x.doc, x.f, ReadToken(x.doc, x.f, p))
    requires ReadToken(x.doc, x.f, m0).kind == ObjectEnd && (nameEmpty || x.f.allowTrailingCommas)
    ensures ReadObject(x, p, depth, members, nameEmpty) == Done(ReadToken(x.doc, x.f, m0).end, Obj(members))
  {
    hide ReadToken, SkipCommentRun;
  }

  /** One turn of the loop: an entry, its name and value, and where the comments behind it end. */
  lemma {:induction false} NextEntry(x: Context, p: nat, depth: nat, before: seq<Entry>, nameEmpty: bool,
                                     members: seq<Member>, pre: seq<Lexeme>, m0: nat)
    returns (e: Entry, name: bytes, v: Value, m: nat)
    requires p <= |x.doc| && m0 <= |x.doc| && depth <= x.f.stackLimit && EntriesShape(x.f, before) && Comments(pre)
    requires Reads(x.doc, x.f, p, pre, m0)
    requires ReadToken(x.doc, x.f, m0) == SkipCommentRun(x.doc, x.f, ReadToken(x.doc, x.f, p))
    requires ReadToken(x.doc, x.f, m0).kind != Comment
    requires !(ReadToken(x.doc, x.f, m0).kind == ObjectEnd && (nameEmpty || x.f.allowTrailingCommas))
    requires ReadObject(x, p, depth, members, nameEmpty).Done?
    ensures m <= |x.doc| && EntryRead(x, p, e, m) && EntriesShape(x.f, before + [e])
            && NameOf(e.name, x.f, x.lib) == Some(name)
    ensures |name| < KEY_LENGTH_LIMIT && !(x.f.rejectDupKeys && Has(members, Name(name)))
    ensures Eval(x.f, x.lib, x.f.stackLimit - depth, e.val) == Gives(v)
    ensures var after := ReadToken(x.doc, x.f, m);
            var members' := Put(members, Name(name), v);
            p < after.end
            && if after.kind == ObjectEnd then ReadObject(x, p, depth, members, nameEmpty)
               == Done(after.end, Obj(members'))
            else LexemeAt(x.doc, after) == e.sep && Separates(e)
                 && ReadObject(x, p, depth, members, nameEmpty) == ReadObject(x, after.end, depth, members', name == [])
    decreases |x.doc| - p, 2
  {
    hide ReadToken, SkipCommentRun, Reads, ReadValue, AfterMember, Eval, Yield, Shape, EntriesYield, EntriesShape, Put,
         Get, Has, NameOf, MemberName, IsTreeOf, EntryRead, Slot, ReadObject, SkipSpaces, Comments;
    var t := ReadToken(x.doc, x.f, m0);
    var colon;
    name, colon := ObjectStep(x, p, depth, members, nameEmpty, t);
    var slot := Slot(members, Name(name));
    var s := Derive(x, colon.end, depth + 1, slot);
    var r := ReadValue(x, colon.end, depth + 1, slot);
    var gap;
    gap, m := GapOf(x, colon.end, depth + 1, r, s);
    v := r.value;
    var after := ReadToken(x.doc, x.f, m);
    AfterMemberStep(x, r.pos, depth, Put(members, Name(name), v), name == [], after);
    e := Entry(pre, LexemeAt(x.doc, t), s, gap, if after.kind == ObjectEnd then SEPARATOR else LexemeAt(x.doc, after));
    EntryShaped(x.f, before, e);
    EntryHead(x, p, m0, e, r.pos, m);
  }

  lemma NoMoreEntries(x: Context, p: nat, depth: nat, before: seq<Entry>, nameEmpty: bool, members: seq<Member>,
                      pre: seq<Lexeme>, m: nat)
    requires p <= |x.doc| && m <= |x.doc| && EntriesShape(x.f, before) && Comments(pre) && Reads(x.doc, x.f, p, pre, m)
    requires ReadToken(x.doc, x.f, m).kind == ObjectEnd && (nameEmpty || x.f.allowTrailingCommas)
    ensures AreEntriesOf(x, p, depth, Done(ReadToken(x.doc, x.f, m).end, Obj(members)), before, nameEmpty, members,
                         before, before != [], pre)
  {
    hide ReadToken, Reads, Yield, Eval;
    FixedText(x.doc, x.f, m);
    NoTokens(x.doc, x.f, ReadToken(x.doc, x.f, m).end);
    OneMore(x, m, RC, [], ReadToken(x.doc, x.f, m).end);
    assert [RC] + [] == [RC];
    ReadsJoin(x.doc, x.f, p, pre, m, [RC], ReadToken(x.doc, x.f, m).end);
  }

  /** What must have happened between the head of readObject's loop and the separator. */
  lemma ObjectStep(x: Context, p: nat, depth: nat, members: seq<Member>, nameEmpty: bool,
                   t: Token) returns (name: bytes, colon: Token)
    requires p <= |x.doc| && t == SkipCommentRun(x.doc, x.f, ReadToken(x.doc, x.f, p))
    requires ReadObject(x, p, depth, members, nameEmpty).Done?
             && !(t.kind == ObjectEnd && (nameEmpty || x.f.allowTrailingCommas))
    ensures t.start < t.end && t.kind != ObjectEnd && NameOf(LexemeAt(x.doc, t), x.f, x.lib) == Some(name)
    ensures |name| < KEY_LENGTH_LIMIT && !(x.f.rejectDupKeys && Has(members, Name(name)))
    ensures colon == ReadToken(x.doc, x.f, t.end) && colon.kind == MemberSeparator && t.end < colon.end
    ensures var r := ReadValue(x, colon.end, depth + 1, Slot(members, Name(name)));
            r.Done? && ReadObject(x, p, depth, members, nameEmpty)
              == AfterMember(x, r.pos, depth, Put(members, Name(name), r.value), name == [])
  {
    hide ReadToken, SkipCommentRun, ReadValue, AfterMember, MemberName, NameOf, Has, Get, Put;
    NameIsName(x, t);
    NamesHaveText(x, t);
    NamesAreNoBrace(x, t);
    name := MemberName(x, t).name;
    colon := ReadToken(x.doc, x.f, t.end);
  }

  lemma NamesAreNoBrace(x: Context, t: Token)
    requires Shaped(x.doc, t) && MemberName(x, t).Named?
    ensures t.kind != ObjectEnd
  {
  }

  lemma AfterMemberStep(x: Context, p: nat, depth: nat, members: seq<Member>, nameEmpty: bool, after: Token)
    requires p <= |x.doc| && AfterMember(x, p, depth, members, nameEmpty).Done?
             && after == SkipCommentRun(x.doc, x.f, ReadToken(x.doc, x.f, p))
    ensures AfterMember(x, p, depth, members, nameEmpty) ==
            if after.kind == ObjectEnd then Done(after.end, Obj(members))
              else ReadObject(x, after.end, depth, members, nameEmpty)
    ensures ReadToken(x.doc, x.f, p).kind in {ObjectEnd, ArraySeparator, Comment}
  {
    hide ReadObject, ReadToken, SkipCommentRun;
  }

  lemma EntryShaped(f: Features, before: seq<Entry>, e: Entry)
    requires EntriesShape(f, before) && Comments(e.pre) && e.name.kind !in {Comment, ObjectEnd} && Shape(f, e.val)
             && Comments(e.gap)
    requires e.sep.kind !in {Comment, ObjectEnd} && (e.val.Blank? ==> e.gap == [] && Ending(e.sep.kind))
    ensures EntriesShape(f, before + [e])
  {
    hide Shape, Comments;
  }

  /** An entry in the token stream, up to the token behind it. */
  ghost predicate EntryRead(x: Context, p: nat, e: Entry, m: nat)
    requires p <= |x.doc|
  {
    m <= |x.doc| && Reads(x.doc, x.f, p, e.pre + ([e.name] + ([NAME_SEPARATOR] + (Yield(e.val) + e.gap))), m)
  }

  lemma EntryHead(x: Context, p: nat, m0: nat, e: Entry, pos: nat, m: nat)
    requires p <= |x.doc| && m0 <= |x.doc| && pos <= |x.doc| && m <= |x.doc| && Reads(x.doc, x.f, p, e.pre, m0)
    requires var t := ReadToken(x.doc, x.f, m0);
             var colon := ReadToken(x.doc, x.f, t.end);
             LexemeAt(x.doc, t) == e.name && colon.kind == MemberSeparator
               && Reads(x.doc, x.f, colon.end, Yield(e.val), pos)
    requires Reads(x.doc, x.f, pos, e.gap, m)
    ensures EntryRead(x, p, e, m)
  {
    hide ReadToken, Reads, Yield;
    var t := ReadToken(x.doc, x.f, m0);
    var colon := ReadToken(x.doc, x.f, t.end);
    FixedText(x.doc, x.f, t.end);
    ReadsJoin(x.doc, x.f, colon.end, Yield(e.val), pos, e.gap, m);
    OneMore(x, t.end, NAME_SEPARATOR, Yield(e.val) + e.gap, m);
    OneMore(x, m0, e.name, [NAME_SEPARATOR] + (Yield(e.val) + e.gap), m);
    ReadsJoin(x.doc, x.f, p, e.pre, m0, [e.name] + ([NAME_SEPARATOR] + (Yield(e.val) + e.gap)), m);
  }

  lemma EntryReads(x: Context, p: nat, entries: seq<Entry>, i: nat, trailing: bool, close: seq<Lexeme>, m: nat,
                   end: nat)
    requires p <= |x.doc| && i < |entries| && EntryRead(x, p, entries[i], m)
    requires Reads(x.doc, x.f, m,
                   if i + 1 < |entries| || trailing
                   then [entries[i].sep] + EntriesYield(entries, i + 1, trailing, close) else [RC] + [],
                   end)
    ensures Reads(x.doc, x.f, p, EntriesYield(entries, i, trailing, close), end)
  {
    hide Reads, Yield, EntriesYield;
    EntrySplit(entries, i, trailing, close);
    var e := entries[i];
    var after := if i + 1 < |entries| || trailing then [e.sep] + EntriesYield(entries, i + 1, trailing, close)
      else [RC] + [];
    var head := e.pre + ([e.name] + ([NAME_SEPARATOR] + (Yield(e.val) + e.gap)));
    ReadsJoin(x.doc, x.f, p, head, m, after, end);
    assert head + after == e.pre + ([e.name] + ([NAME_SEPARATOR] + (Yield(e.val) + (e.gap + after))));
  }

  lemma EvalEntryStep(f: Features, lib: Doubles, room: int, entries: seq<Entry>, i: nat, trailing: bool,
                      nameEmpty: bool, members: seq<Member>, name: bytes, v: Value)
    requires i < |entries| && NameOf(entries[i].name, f, lib) == Some(name) && |name| < KEY_LENGTH_LIMIT
    requires !(f.rejectDupKeys && Has(members, Name(name))) && Eval(f, lib, room, entries[i].val) == Gives(v)
    requires i + 1 < |entries| || trailing ==> Separates(entries[i])
    ensures EvalEntries(f, lib, room, entries, i, trailing, nameEmpty, members) ==
            EvalEntries(f, lib, room, entries, i + 1, trailing, name == [], Put(members, Name(name), v))
  {
    hide Eval, Put, NameOf, Has;
  }

  lemma LastEntry(x: Context, p: nat, depth: nat, before: seq<Entry>, nameEmpty: bool, members: seq<Member>, e: Entry,
                  name: bytes, v: Value, m: nat)
    requires p <= |x.doc| && EntryRead(x, p, e, m) && EntriesShape(x.f, before + [e])
             && ReadToken(x.doc, x.f, m).kind == ObjectEnd
    requires NameOf(e.name, x.f, x.lib) == Some(name) && |name| < KEY_LENGTH_LIMIT
             && !(x.f.rejectDupKeys && Has(members, Name(name)))
    requires Eval(x.f, x.lib, x.f.stackLimit - depth, e.val) == Gives(v)
    ensures AreEntriesOf(x, p, depth, Done(ReadToken(x.doc, x.f, m).end, Obj(Put(members, Name(name), v))), before,
                         nameEmpty, members, before + [e], false, [])
  {
    hide ReadToken, Reads, Yield, Eval, EntriesYield, Put, Has, NameOf, EntriesShape;
    var entries, end := before + [e], ReadToken(x.doc, x.f, m).end;
    FixedText(x.doc, x.f, m);
    NoTokens(x.doc, x.f, end);
    OneMore(x, m, RC, [], end);
    EntryReads(x, p, entries, |before|, false, [], m, end);
    EvalEntryStep(x.f, x.lib, x.f.stackLimit - depth, entries, |before|, false, nameEmpty, members, name, v);
  }

  lemma MoreEntries(x: Context, p: nat, depth: nat, before: seq<Entry>, nameEmpty: bool, members: seq<Member>,
                    e: Entry, name: bytes, v: Value, m: nat, r: Outcome, entries: seq<Entry>, trailing: bool,
                      close: seq<Lexeme>)
    requires p <= |x.doc| && EntryRead(x, p, e, m) && LexemeAt(x.doc, ReadToken(x.doc, x.f, m)) == e.sep && Separates(e)
    requires NameOf(e.name, x.f, x.lib) == Some(name) && |name| < KEY_LENGTH_LIMIT
             && !(x.f.rejectDupKeys && Has(members, Name(name)))
    requires Eval(x.f, x.lib, x.f.stackLimit - depth, e.val) == Gives(v)
    requires AreEntriesOf(x, ReadToken(x.doc, x.f, m).end, depth, r, before + [e], name == [],
                          Put(members, Name(name), v), entries, trailing, close)
    ensures AreEntriesOf(x, p, depth, r, before, nameEmpty, members, entries, trailing, close)
  {
    hide ReadToken, Reads, Yield, Eval, EvalEntries, EntriesYield, Put, Has, NameOf, EntriesShape;
    var i := |before|;
    assert entries[i] == (before + [e])[i] == e && before == (before + [e])[..i] == entries[..i];
    OneMore(x, m, e.sep, EntriesYield(entries, i + 1, trailing, close), r.pos);
    EntryReads(x, p, entries, i, trailing, close, m, r.pos);
    EvalEntryStep(x.f, x.lib, x.f.stackLimit - depth, entries, i, trailing, nameEmpty, members, name, v);
  }

  // ---------------------------------------------------------------- main results

  /** `s` is a sentence of the language whose tokens reach from `p` to `q`. */
  ghost predicate Sentence(x: Context, p: nat, depth: nat, s: Syntax, q: nat, v: Value)
    requires p <= |x.doc|
  {
    && q <= |x.doc| && Shape(x.f, s) && Reads(x.doc, x.f, p, Yield(s), q)
       && (s.Blank? ==> Ending(ReadToken(x.doc, x.f, q).kind))
    && Eval(x.f, x.lib, x.f.stackLimit + 1 - depth, s) == Gives(v)
  }

  /** readValue accepts exactly the sentences, and gives their meaning. */
  lemma LanguageExactly(x: Context, p: nat, depth: nat, cur: Value)
    requires p <= |x.doc|
    ensures var r := ReadValue(x, p, depth, cur);
            r.Done? <==> exists s, q, v :: Sentence(x, p, depth, s, q, v)
    ensures var r := ReadValue(x, p, depth, cur);
            forall s, q, v :: Sentence(x, p, depth, s, q, v) ==>
              r.Done? && r.value == v && SkipSpaces(x.doc, r.pos) == SkipSpaces(x.doc, q)
  {
    hide ReadValue, Shape, Reads, Yield, Eval, ReadToken, SkipSpaces;
    forall s, q, v | Sentence(x, p, depth, s, q, v) ensures Meets(x, ReadValue(x, p, depth, cur), Gives(v), q) {
      Understand(x, p, depth, cur, s, q);
    }
    if ReadValue(x, p, depth, cur).Done? {
      var s := Derive(x, p, depth, cur);
      var r := ReadValue(x, p, depth, cur);
      assert Sentence(x, p, depth, s, r.pos, r.value);
    }
  }

  /** What parse accepts without an error: a sentence after the byte order mark, with nothing behind it if that is
      checked, and with a container as its meaning if the root must be one. */
  ghost predicate Accepted(x: Context, s: Syntax, q: nat, v: Value)
  {
    && Sentence(x, BomLength(x.doc, x.f), 1, s, q, v)
    && (x.f.failIfExtra ==> NextToken(x.doc, x.f, q).kind == EndOfStream) && (x.f.strictRoot ==> v.Arr? || v.Obj?)
  }

  /** For every document and feature setting, parse succeeds exactly on the accepted documents, with their meaning. */
  lemma DocumentsExactly(x: Context, root: Value)
    ensures var r := ParseDocument(x, root);
            r.Parsed? && r.errors == [] <==> exists s, q, v :: Accepted(x, s, q, v)
    ensures forall s, q, v :: Accepted(x, s, q, v) ==> ParseDocument(x, root) == Parsed(v, [])
  {
    hide ReadValue, Sentence, NextToken, SkipSpaces;
    var p := BomLength(x.doc, x.f);
    var r := ReadValue(x, p, 1, root);
    LanguageExactly(x, p, 1, root);
    forall s, q: nat, v | Sentence(x, p, 1, s, q, v)
      ensures q <= |x.doc| && r.Done? && r.value == v && NextToken(x.doc, x.f, q) == NextToken(x.doc, x.f, r.pos) {
      SentenceEnds(x, p, 1, s, q, v);
      SameNext(x.doc, x.f, r.pos, q);
    }
    if r.Done? {
      var s, q: nat, v :| Sentence(x, p, 1, s, q, v);
      assert r.value == v;
      assert Accepted(x, s, q, v) <==> ParseDocument(x, root).errors == [];
    }
  }

  lemma SentenceEnds(x: Context, p: nat, depth: nat, s: Syntax, q: nat, v: Value)
    requires p <= |x.doc| && Sentence(x, p, depth, s, q, v)
    ensures q <= |x.doc|
  {
  }

  lemma SameNext(doc: bytes, f: Features, p: nat, q: nat)
    requires p <= |doc| && q <= |doc| && SkipSpaces(doc, p) == SkipSpaces(doc, q)
    ensures NextToken(doc, f, p) == NextToken(doc, f, q)
  {
    hide ReadToken;
    SkipSpacesAgain(doc, f, p, SkipSpaces(doc, p));
    SkipSpacesAgain(doc, f, q, SkipSpaces(doc, q));
  }

  /** An entry that is in order by itself. */
  ghost predicate FineEntry(f: Features, lib: Doubles, room: int, e: Entry)
  {
    NameOf(e.name, f, lib).Some? && |NameOf(e.name, f, lib).value| < KEY_LENGTH_LIMIT
      && Eval(f, lib, room, e.val).Gives?
  }

  ghost predicate FineEntries(f: Features, lib: Doubles, room: int, entries: seq<Entry>)
  {
    && (forall i :: 0 <= i < |entries| ==> FineEntry(f, lib, room, entries[i]))
    && (f.rejectDupKeys ==>
          forall i, j :: 0 <= i < j < |entries| ==> NameOf(entries[i].name, f, lib) != NameOf(entries[j].name, f, lib))
  }

  /** From entry `i` on, what stands between two entries separates them. */
  ghost predicate WellSeparated(entries: seq<Entry>, i: nat, trailing: bool)
  {
    forall j :: i <= j < |entries| && (j + 1 < |entries| || trailing) ==> Separates(entries[j])
  }

  ghost predicate MayTrail(f: Features, lib: Doubles, entries: seq<Entry>)
    requires entries != []
  {
    f.allowTrailingCommas || NameOf(entries[|entries| - 1].name, f, lib) == Some([])
  }

  /** Entries that are in order make an object exactly when commas or comments stand between them, and a comma trails
      only if the features allow it or the last name is empty. */
  lemma RecordExactly(f: Features, lib: Doubles, room: int, entries: seq<Entry>, trailing: bool)
    requires FineEntries(f, lib, room, entries) && entries != []
    ensures var r := EvalEntries(f, lib, room, entries, 0, trailing, true, []);
            (r.Gives? <==> WellSeparated(entries, 0, trailing) && (trailing ==> MayTrail(f, lib, entries)))
              && (r.Gives? || r.Fails?)
  {
    RecordFrom(f, lib, room, entries, 0, trailing, true, []);
  }

  lemma {:induction false} RecordFrom(f: Features, lib: Doubles, room: int, entries: seq<Entry>, i: nat,
                                      trailing: bool, nameEmpty: bool, members: seq<Member>)
    requires FineEntries(f, lib, room, entries) && entries != [] && i <= |entries| && Sorted(members)
    requires forall n :: Has(members, Name(n)) ==> exists j :: 0 <= j < i && NameOf(entries[j].name, f, lib) == Some(n)
    requires i > 0 ==> (nameEmpty <==> NameOf(entries[i - 1].name, f, lib) == Some([]))
    ensures var r := EvalEntries(f, lib, room, entries, i, trailing, nameEmpty, members);
            (r.Gives? <==> WellSeparated(entries, i, trailing) && (trailing ==> MayTrail(f, lib, entries)))
              && (r.Gives? || r.Fails?)
    decreases |entries| - i
  {
    hide NameOf, Eval, Put, Has, Get, Sorted, Separates;
    if i < |entries| {
      var e := entries[i];
      assert FineEntry(f, lib, room, e);
      var name := NameOf(e.name, f, lib).value;
      var v := Eval(f, lib, room, e.val).value;
      var members' := Put(members, Name(name), v);
      PutSorted(members, Name(name), v);
      forall n | Has(members', Name(n))
        ensures exists j :: 0 <= j < i + 1 && NameOf(entries[j].name, f, lib) == Some(n) {
        HasAfterPut(members, name, v, n);
        if n == name {
          assert NameOf(entries[i].name, f, lib) == Some(n);
        }
      }
      RecordFrom(f, lib, room, entries, i + 1, trailing, name == [], members');
    }
  }

  lemma HasAfterPut(members: seq<Member>, name: bytes, v: Value, n: bytes)
    requires Sorted(members)
    ensures Has(Put(members, Name(name), v), Name(n)) <==> n == name || Has(members, Name(n))
  {
    hide Put, Has, Sorted;
    PutSorted(members, Name(name), v);
    if n != name {
      assert Name(n) != Name(name);
      assert Get(Put(members, Name(name), v), Name(n)) == Get(members, Name(n));
    }
  }

  /** Items that are in order make an array exactly when no comma trails, or the features allow it. */
  lemma {:induction false} ListExactly(f: Features, lib: Doubles, room: int, items: seq<Item>, i: nat, trailing: bool,
                                       elems: seq<Member>)
    requires i <= |items| && forall j :: 0 <= j < |items| ==> Eval(f, lib, room, items[j].val).Gives?
    ensures var r := EvalItems(f, lib, room, items, i, trailing, elems);
            (r.Gives? <==> trailing ==> f.allowTrailingCommas) && (r.Gives? || r.Fails?)
    decreases |items| - i
  {
    hide Eval;
    if i < |items| {
      ListExactly(f, lib, room, items, i + 1, trailing, Put(elems, Index(i), Eval(f, lib, room, items[i].val).value));
    }
  }

  // ---------------------------------------------------------------- documents

  lemma LexicalIsAscii(l: Lexeme)
    requires Lexical(l)
    ensures l.text != [] && l.text[0] < 0x80
  {
    LexicalIsSolid(l);
    if l.kind == Number {
      NumberStarts(l.text);
    } else if l.kind == Comment {
      assert l.text[0] == l.text[..2][0];
    }
  }

  lemma NoBom(doc: bytes, f: Features, t: seq<Lexeme>)
    requires t != [] && t[0].text != [] && t[0].text[0] < 0x80 && Spells(doc, t)
    ensures BomLength(doc, f) == 0
  {
    SpellsFirst(doc, t);
    assert doc != [] && !IsSpace(doc[0]) ==> Strip(doc) == doc && t[0].text[0] == doc[0];
    assert |doc| >= 3 ==> doc[..3][0] == doc[0];
  }

  /** A text that spells a sentence of ordinary tokens parses to its meaning under every feature setting. The only error
      after a good value is the one of strictRoot. */
  lemma ParseUnderstood(x: Context, root: Value, s: Syntax)
    requires Shape(x.f, s) && !s.Blank? && Spells(x.doc, Yield(s)) && Separated(Yield(s))
    ensures var r := ParseDocument(x, root);
            match Eval(x.f, x.lib, x.f.stackLimit, s)
            case Throws => r.ParseThrew?
            case Fails => r.Parsed? && r.errors != []
            case Gives(v) => r.Parsed? && r.root == v && (r.errors == [] <==> !x.f.strictRoot || v.Arr? || v.Obj?)
  {
    hide Shape, Yield, Eval, ReadValue, Spells, Strip, Reads, ReadToken, Lexical, SkipSpaces;
    var t := Yield(s);
    HeadAndTail(s);
    assert t != [];
    LexicalIsAscii(t[0]);
    NoBom(x.doc, x.f, t);
    assert x.doc[0..] == x.doc;
    var q := SpellsReads(x.doc, x.f, 0, t);
    Understand(x, 0, 1, root, s, q);
    var r := ReadValue(x, 0, 1, root);
    if r.Done? {
      SameEnd(x.doc, x.f, r.pos, q);
    }
  }

  lemma SameEnd(doc: bytes, f: Features, p: nat, q: nat)
    requires p <= |doc| && q <= |doc| && SkipSpaces(doc, p) == SkipSpaces(doc, q)
             && ReadToken(doc, f, q).kind == EndOfStream
    ensures NextToken(doc, f, p).kind == EndOfStream
  {
    hide TokenAt;
  }
}
