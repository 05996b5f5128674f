/** Printed values and what comes back when they are read. */
module RoundTrip {
  import opened Arithmetic
  import opened ByteStrings
  import opened Wrappers
  import opened Utf8
  import opened Quoting
  import opened Integers
  import opened Values
  import opened Lexer
  import opened NumberSyntax
  import opened Parser
  import opened Tokens
  import opened Grammar

  // ---------------------------------------------------------------- what is printed, as a tree

  /** How many elements of an array a reader recognises: a dropped null at the end is one only if it expects such. */
  ghost function Kept(m: seq<Member>, s: Style, f: Features): (n: nat)
    requires Indexed(m)
    ensures n <= ArraySize(m)
  {
    var n := ArraySize(m);
    if s.dropNulls && n > 0 && Slot(m, Index(n - 1)).Null? && (n == 1 || !f.allowDroppedNullPlaceholders) then n - 1
      else n
  }

  /** Whether the text of an array ends in a comma, as the reader sees it. */
  ghost predicate CommaTrails(m: seq<Member>, s: Style, f: Features)
    requires Indexed(m)
  {
    Kept(m, s, f) < ArraySize(m) && ArraySize(m) > 1
  }

  ghost function SyntaxOf(v: Value, s: Style, f: Features): (t: Syntax)
    requires Printable(v)
    ensures t.lead == [] && (t.Blank? <==> v.Null? && s.dropNulls)
    decreases Size(v), 0
  {
    match v
    case Null => if s.dropNulls then Blank([]) else Atom([], Lexeme(NullToken, NULL_TEXT))
    case Arr(m) => List([], ItemsOf(m, Kept(m, s, f), s, f), CommaTrails(m, s, f))
    case Obj(m) => Record([], EntriesOf(m, |m|, s, f), false, [])
    case _ => Atom([], TokensOf(v, s)[0])
  }

  ghost function ItemsOf(m: seq<Member>, n: nat, s: Style, f: Features): (r: seq<Item>)
    requires Indexed(m) && AllPrintable(m) && n <= ArraySize(m)
    ensures |r| == n
    decreases MapSize(m), n
  {
    if n == 0 then []
    else
      SlotIsPart(m, Index(n - 1));
      ItemsOf(m, n - 1, s, f) + [Item(SyntaxOf(Slot(m, Index(n - 1)), s, f), [])]
  }

  ghost function EntriesOf(m: seq<Member>, n: nat, s: Style, f: Features): (r: seq<Entry>)
    requires AllNamed(m) && AllPrintable(m) && n <= |m|
    ensures |r| == n
    decreases MapSize(m), n
  {
    if n == 0 then []
    else
      MemberSize(m, n - 1);
      EntriesOf(m, n - 1, s, f) + [EntryOf(m[n - 1].key.s, SyntaxOf(m[n - 1].val, s, f), s)]
  }

  ghost function EntryOf(name: bytes, val: Syntax, s: Style): Entry
  {
    Entry([], Lexeme(String, Quoted(name, s.emitUtf8)), val, [], SEPARATOR)
  }

  lemma {:induction false} ItemAt(m: seq<Member>, n: nat, s: Style, f: Features, i: nat)
    requires Indexed(m) && AllPrintable(m) && i < n <= ArraySize(m)
    ensures Printable(Slot(m, Index(i))) && ItemsOf(m, n, s, f)[i] == Item(SyntaxOf(Slot(m, Index(i)), s, f), [])
    decreases n
  {
    hide SyntaxOf, Slot;
    SlotIsPart(m, Index(i));
    if i < n - 1 {
      ItemAt(m, n - 1, s, f, i);
    }
  }

  lemma {:induction false} EntryAt(m: seq<Member>, n: nat, s: Style, f: Features, i: nat)
    requires AllNamed(m) && AllPrintable(m) && i < n <= |m|
    ensures EntriesOf(m, n, s, f)[i] == EntryOf(m[i].key.s, SyntaxOf(m[i].val, s, f), s)
    decreases n
  {
    hide SyntaxOf, EntryOf;
    if i < n - 1 {
      EntryAt(m, n - 1, s, f, i);
    }
  }

  // ---------------------------------------------------------------- its tokens and its shape

  /** The tree of a value has the tokens of the value, whatever reader it is meant for. */
  lemma {:induction false} YieldOfPrinted(v: Value, s: Style, f: Features)
    requires Printable(v)
    ensures Yield(SyntaxOf(v, s, f)) == TokensOf(v, s)
    decreases Size(v), 0
  {
    hide ItemsOf, EntriesOf, ItemsYield, EntriesYield, ElementTokens, MemberTokens, Kept, IntText, Quoted;
    match v
    case Arr(m) =>
      ItemsYieldOf(m, 0, s, f);
      assert SyntaxOf(v, s, f) == List([], ItemsOf(m, Kept(m, s, f), s, f), CommaTrails(m, s, f));
      assert [LB] + ElementTokens(m, 0, s) + [RB] == [] + ([LB] + (ElementTokens(m, 0, s) + [RB]));
    case Obj(m) =>
      EntriesYieldOf(m, 0, s, f);
      assert SyntaxOf(v, s, f) == Record([], EntriesOf(m, |m|, s, f), false, []);
      assert [LC] + MemberTokens(m, 0, s) + [RC] == [] + ([LC] + (MemberTokens(m, 0, s) + [RC]));
    case _ =>
  }

  lemma {:induction false} ItemsYieldOf(m: seq<Member>, i: nat, s: Style, f: Features)
    requires Indexed(m) && AllPrintable(m) && i <= Kept(m, s, f)
    ensures ItemsYield(ItemsOf(m, Kept(m, s, f), s, f), i, CommaTrails(m, s, f)) == ElementTokens(m, i, s) + [RB]
    decreases MapSize(m), ArraySize(m) - i
  {
    hide ItemsOf, SyntaxOf, Yield, TokensOf, Slot;
    var k, n := Kept(m, s, f), ArraySize(m);
    var items, trailing := ItemsOf(m, k, s, f), k < n && n > 1;
    if i == k {
      if k < n {
        DroppedTail(m, s);
      }
    } else {
      ItemAt(m, k, s, f, i);
      SlotIsPart(m, Index(i));
      YieldOfPrinted(Slot(m, Index(i)), s, f);
      ItemsYieldOf(m, i + 1, s, f);
      var comma := if i + 1 < n then [SEPARATOR] else [];
      assert (i + 1 < |items| || trailing) == (i + 1 < n);
      assert ElementTokens(m, i, s) + [RB]
        == Yield(items[i].val) + ([] + (comma + (ElementTokens(m, i + 1, s) + [RB])));
    }
  }

  lemma DroppedTail(m: seq<Member>, s: Style)
    requires Indexed(m) && AllPrintable(m) && s.dropNulls && ArraySize(m) > 0 && Slot(m, Index(ArraySize(m) - 1)).Null?
    ensures ElementTokens(m, ArraySize(m) - 1, s) == []
  {
    SlotIsPart(m, Index(ArraySize(m) - 1));
    assert ElementTokens(m, ArraySize(m), s) == [];
  }

  lemma {:induction false} EntriesYieldOf(m: seq<Member>, i: nat, s: Style, f: Features)
    requires AllNamed(m) && AllPrintable(m) && i <= |m|
    ensures EntriesYield(EntriesOf(m, |m|, s, f), i, false, []) == MemberTokens(m, i, s) + [RC]
    decreases MapSize(m), |m| - i
  {
    hide EntriesOf, SyntaxOf, Yield, TokensOf, Quoted;
    if i < |m| {
      EntryAt(m, |m|, s, f, i);
      MemberSize(m, i);
      YieldOfPrinted(m[i].val, s, f);
      EntriesYieldOf(m, i + 1, s, f);
      EntryTokens(m, i, s, f, false, MemberTokens(m, i + 1, s) + [RC]);
    }
  }

  /** The tokens of one entry, in the grouping of the grammar. */
  lemma EntryTokens(m: seq<Member>, i: nat, s: Style, f: Features, trailing: bool, rest: seq<Lexeme>)
    requires AllNamed(m) && AllPrintable(m) && i < |m| && rest == MemberTokens(m, i + 1, s) + [RC]
    ensures var e := EntryOf(m[i].key.s, SyntaxOf(m[i].val, s, f), s);
            MemberTokens(m, i, s) + [RC] ==
            e.pre + ([e.name]
              + ([NAME_SEPARATOR] + (TokensOf(m[i].val, s) + (e.gap + ((if i + 1 < |m| then [e.sep] else []) + rest)))))
  {
    hide TokensOf, Quoted, SyntaxOf;
    var name := Lexeme(String, Quoted(m[i].key.s, s.emitUtf8));
    assert [name, NAME_SEPARATOR] == [name] + [NAME_SEPARATOR];
  }

  lemma {:induction false} ShapeOfPrinted(v: Value, s: Style, f: Features)
    requires Printable(v)
    ensures Shape(f, SyntaxOf(v, s, f))
    decreases Size(v), 0
  {
    hide ItemsOf, EntriesOf, IntText, Quoted;
    match v
    case Arr(m) => ListShapeOf(m, s, f);
    case Obj(m) =>
      forall i | 0 <= i < |m| ensures EntryShape(f, EntriesOf(m, |m|, s, f)[i]) {
        EntryAt(m, |m|, s, f, i);
        MemberSize(m, i);
        ShapeOfPrinted(m[i].val, s, f);
      }
    case _ =>
  }

  lemma {:induction false} ListShapeOf(m: seq<Member>, s: Style, f: Features)
    requires Indexed(m) && AllPrintable(m)
    ensures Shape(f, List([], ItemsOf(m, Kept(m, s, f), s, f), CommaTrails(m, s, f)))
    decreases MapSize(m), 1
  {
    hide ItemsOf, SyntaxOf, Slot, Shape;
    var k := Kept(m, s, f);
    var items := ItemsOf(m, k, s, f);
    forall i | 0 <= i < k ensures Shape(f, items[i].val) && items[i].gap == [] {
      ItemAt(m, k, s, f, i);
      SlotIsPart(m, Index(i));
      ShapeOfPrinted(Slot(m, Index(i)), s, f);
    }
    if k > 0 {
      ItemAt(m, k, s, f, k - 1);
    }
    ListShapeIs(f, items, k < ArraySize(m) && ArraySize(m) > 1);
  }

  lemma ListShapeIs(f: Features, items: seq<Item>, trailing: bool)
    requires forall i :: 0 <= i < |items| ==> Shape(f, items[i].val) && items[i].gap == []
    requires trailing ==> items != [] && !f.allowDroppedNullPlaceholders
    requires !trailing && items != [] && items[|items| - 1].val.Blank? ==> |items| > 1 && f.allowDroppedNullPlaceholders
    ensures Shape(f, List([], items, trailing))
  {
  }

  // ---------------------------------------------------------------- its tokens cannot run together

  lemma SeparatedConcat(a: seq<Lexeme>, b: seq<Lexeme>)
    requires Separated(a) && Separated(b)
    requires a != [] && a[|a| - 1].kind == Number && b != [] ==> Closing(b[0].kind)
    ensures Separated(a + b)
  {
    hide Lexical;
  }

  lemma QuotedIsLexical(s: bytes, emitUtf8: bool)
    ensures Lexical(Lexeme(String, Quoted(s, emitUtf8)))
  {
    var q := Quoted(s, emitUtf8);
    assert q[0..0 + |q|] == q;
    LiteralRoundTrip(q, 0, s, emitUtf8);
  }

  lemma NumberIsLexical(i: int)
    ensures Lexical(Lexeme(Number, IntText(i)))
  {
    hide Digits, NatOf;
    var digits := Digits(if i < 0 then -i else i);
    NatOfDigits(if i < 0 then -i else i);
    var n := Parts(if i < 0 then [MINUS] else [], digits, [], []);
    assert digits + [] + [] == digits;
    assert AreParts(n) && IntText(i) == NumberText(n);
  }

  lemma {:induction false} TokensSeparated(v: Value, s: Style)
    requires Printable(v)
    ensures Separated(TokensOf(v, s))
    decreases Size(v), 0
  {
    hide ElementTokens, MemberTokens;
    match v
    case Int(i) => NumberIsLexical(i);
    case UInt(u) => NumberIsLexical(u);
    case Str(b) => QuotedIsLexical(b, s.emitUtf8);
    case Arr(m) =>
      ElementsSeparated(m, 0, s);
      SeparatedConcat([LB], ElementTokens(m, 0, s));
      SeparatedConcat([LB] + ElementTokens(m, 0, s), [RB]);
    case Obj(m) =>
      MembersSeparated(m, 0, s);
      SeparatedConcat([LC], MemberTokens(m, 0, s));
      SeparatedConcat([LC] + MemberTokens(m, 0, s), [RC]);
    case _ =>
  }

  lemma {:induction false} ElementsSeparated(m: seq<Member>, i: nat, s: Style)
    requires Indexed(m) && AllPrintable(m) && i <= ArraySize(m)
    ensures Separated(ElementTokens(m, i, s))
    decreases MapSize(m), ArraySize(m) - i
  {
    hide TokensOf, Slot, Separated;
    if i < ArraySize(m) {
      SlotIsPart(m, Index(i));
      TokensSeparated(Slot(m, Index(i)), s);
      ElementsSeparated(m, i + 1, s);
      JoinSeparated(TokensOf(Slot(m, Index(i)), s), i + 1 < ArraySize(m), ElementTokens(m, i + 1, s));
    } else {
      NothingSeparated();
    }
  }

  lemma NothingSeparated()
    ensures Separated([])
  {
  }

  lemma JoinSeparated(a: seq<Lexeme>, comma: bool, b: seq<Lexeme>)
    requires Separated(a) && Separated(b) && (!comma ==> b == [])
    ensures Separated(a + (if comma then [SEPARATOR] else []) + b)
  {
    if comma {
      SeparatedConcat(a, [SEPARATOR]);
      SeparatedConcat(a + [SEPARATOR], b);
    } else {
      assert a + [] + b == a;
    }
  }

  lemma {:induction false} MembersSeparated(m: seq<Member>, i: nat, s: Style)
    requires AllNamed(m) && AllPrintable(m) && i <= |m|
    ensures Separated(MemberTokens(m, i, s))
    decreases MapSize(m), |m| - i
  {
    hide TokensOf, Quoted, Lexical;
    if i < |m| {
      MemberSize(m, i);
      TokensSeparated(m[i].val, s);
      MembersSeparated(m, i + 1, s);
      QuotedIsLexical(m[i].key.s, s.emitUtf8);
      var head := [Lexeme(String, Quoted(m[i].key.s, s.emitUtf8)), NAME_SEPARATOR];
      FixedIsLexical();
      SeparatedConcat(head, TokensOf(m[i].val, s));
      JoinSeparated(head + TokensOf(m[i].val, s), i + 1 < |m|, MemberTokens(m, i + 1, s));
    }
  }

  lemma FixedIsLexical()
    ensures Lexical(NAME_SEPARATOR) && Lexical(SEPARATOR) && Lexical(LB) && Lexical(RB) && Lexical(LC) && Lexical(RC)
  {
  }

  // ---------------------------------------------------------------- what comes back

  /** The value that is read back: strings and names are repaired, an unsigned number that fits becomes signed, a
      missing element is null, and an array loses a null at its end that the reader does not recognise. */
  ghost function Reread(v: Value, s: Style, f: Features): Value
    requires Printable(v)
    decreases Size(v), 0
  {
    match v
    case UInt(u) => Tagged(u, MAX_INT64)
    case Str(b) => Str(Repair(b, s.emitUtf8))
    case Arr(m) => Arr(RereadElements(m, Kept(m, s, f), s, f))
    case Obj(m) => Obj(RereadMembers(m, |m|, s, f))
    case _ => v
  }

  ghost function RereadElements(m: seq<Member>, n: nat, s: Style, f: Features): seq<Member>
    requires Indexed(m) && AllPrintable(m) && n <= ArraySize(m)
    decreases MapSize(m), n
  {
    if n == 0 then []
    else
      SlotIsPart(m, Index(n - 1));
      Put(RereadElements(m, n - 1, s, f), Index(n - 1), Reread(Slot(m, Index(n - 1)), s, f))
  }

  ghost function RereadMembers(m: seq<Member>, n: nat, s: Style, f: Features): seq<Member>
    requires AllNamed(m) && AllPrintable(m) && n <= |m|
    decreases MapSize(m), n
  {
    if n == 0 then []
    else
      MemberSize(m, n - 1);
      Put(RereadMembers(m, n - 1, s, f), Name(RereadName(m, n - 1, s)), Reread(m[n - 1].val, s, f))
  }

  ghost function RereadName(m: seq<Member>, i: nat, s: Style): bytes
    requires AllNamed(m) && i < |m|
  {
    Repair(m[i].key.s, s.emitUtf8)
  }

  /** The value nests at most `room` deep, and the names that come back are shorter than 2^30 bytes. */
  ghost predicate WithinLimits(v: Value, s: Style, f: Features, room: int)
    requires Printable(v)
    decreases Size(v), 0
  {
    room > 0
    && match v
       case Arr(m) => ElementsWithin(m, 0, s, f, room - 1)
       case Obj(m) => MembersWithin(m, 0, s, f, room - 1)
       case _ => true
  }

  ghost predicate ElementsWithin(m: seq<Member>, i: nat, s: Style, f: Features, room: int)
    requires Indexed(m) && AllPrintable(m) && i <= Kept(m, s, f)
    decreases MapSize(m), Kept(m, s, f) - i
  {
    i == Kept(m, s, f)
      || (SlotIsPart(m, Index(i)); WithinLimits(Slot(m, Index(i)), s, f, room) && ElementsWithin(m, i + 1, s, f, room))
  }

  ghost predicate MembersWithin(m: seq<Member>, i: nat, s: Style, f: Features, room: int)
    requires AllNamed(m) && AllPrintable(m) && i <= |m|
    decreases MapSize(m), |m| - i
  {
    i == |m|
    || (MemberSize(m, i); |RereadName(m, i, s)| < KEY_LENGTH_LIMIT && WithinLimits(m[i].val, s, f, room)
       && MembersWithin(m, i + 1, s, f, room))
  }

  /** No two names of an object are the same after they were repaired. */
  ghost predicate DistinctNames(v: Value, s: Style, f: Features)
    requires Printable(v)
    decreases Size(v), 0
  {
    match v
    case Arr(m) => ElementsDistinct(m, 0, s, f)
    case Obj(m) => MembersDistinct(m, 0, s, f)
    case _ => true
  }

  ghost predicate ElementsDistinct(m: seq<Member>, i: nat, s: Style, f: Features)
    requires Indexed(m) && AllPrintable(m) && i <= Kept(m, s, f)
    decreases MapSize(m), Kept(m, s, f) - i
  {
    i == Kept(m, s, f)
      || (SlotIsPart(m, Index(i)); DistinctNames(Slot(m, Index(i)), s, f) && ElementsDistinct(m, i + 1, s, f))
  }

  ghost predicate MembersDistinct(m: seq<Member>, i: nat, s: Style, f: Features)
    requires AllNamed(m) && AllPrintable(m) && i <= |m|
    decreases MapSize(m), |m| - i
  {
    i == |m|
    || (MemberSize(m, i); NewName(m, i, s) && DistinctNames(m[i].val, s, f) && MembersDistinct(m, i + 1, s, f))
  }

  ghost predicate NewName(m: seq<Member>, i: nat, s: Style)
    requires AllNamed(m) && i < |m|
  {
    forall j :: 0 <= j < i ==> RereadName(m, j, s) != RereadName(m, i, s)
  }

  /** No null was dropped that the reader misses: it expects them, or each stood at the end of an array, alone or with
      the comma before it allowed to trail. */
  ghost predicate NullsExpected(v: Value, s: Style, f: Features)
    requires Printable(v)
    decreases Size(v), 0
  {
    match v
    case Null => !s.dropNulls || f.allowDroppedNullPlaceholders
    case Arr(m) => (CommaTrails(m, s, f) ==> f.allowTrailingCommas) && ElementsExpected(m, 0, s, f)
    case Obj(m) => MembersExpected(m, 0, s, f)
    case _ => true
  }

  ghost predicate ElementsExpected(m: seq<Member>, i: nat, s: Style, f: Features)
    requires Indexed(m) && AllPrintable(m) && i <= Kept(m, s, f)
    decreases MapSize(m), Kept(m, s, f) - i
  {
    i == Kept(m, s, f)
      || (SlotIsPart(m, Index(i)); NullsExpected(Slot(m, Index(i)), s, f) && ElementsExpected(m, i + 1, s, f))
  }

  ghost predicate MembersExpected(m: seq<Member>, i: nat, s: Style, f: Features)
    requires AllNamed(m) && AllPrintable(m) && i <= |m|
    decreases MapSize(m), |m| - i
  {
    i == |m| || (MemberSize(m, i); NullsExpected(m[i].val, s, f) && MembersExpected(m, i + 1, s, f))
  }

  lemma {:induction false} RereadNames(m: seq<Member>, n: nat, s: Style, f: Features, name: bytes)
    requires AllNamed(m) && AllPrintable(m) && n <= |m|
    ensures Sorted(RereadMembers(m, n, s, f))
    ensures Has(RereadMembers(m, n, s, f), Name(name)) <==> exists j :: 0 <= j < n && RereadName(m, j, s) == name
    decreases n
  {
    hide Put, Has, Sorted, Reread, RereadName;
    if n > 0 {
      MemberSize(m, n - 1);
      RereadNames(m, n - 1, s, f, name);
      PutSorted(RereadMembers(m, n - 1, s, f), Name(RereadName(m, n - 1, s)), Reread(m[n - 1].val, s, f));
      HasAfterPut(RereadMembers(m, n - 1, s, f), RereadName(m, n - 1, s), Reread(m[n - 1].val, s, f), name);
    } else {
      EmptyMap(name);
    }
  }

  lemma EmptyMap(name: bytes)
    ensures Sorted([]) && !Has([], Name(name))
  {
  }

  // ---------------------------------------------------------------- the meaning of the tree

  /** What the reader checks in the course of reading: a limit, for which it throws, or else something it refuses. */
  datatype Check = Fine | Beyond | Refused

  /** The checks for a value, in the order of its text: the depth, and then what is inside. */
  ghost function Checks(v: Value, s: Style, f: Features, room: int): seq<Check>
    requires Printable(v)
    decreases Size(v), 0
  {
    [if room > 0 then Fine else Beyond]
    + match v
      case Null => [if s.dropNulls && !f.allowDroppedNullPlaceholders then Refused else Fine]
      case Arr(m) => ElementChecks(m, 0, s, f, room - 1)
      case Obj(m) => MemberChecks(m, 0, s, f, room - 1)
      case _ => []
  }

  ghost function ElementChecks(m: seq<Member>, i: nat, s: Style, f: Features, room: int): seq<Check>
    requires Indexed(m) && AllPrintable(m) && i <= Kept(m, s, f)
    decreases MapSize(m), Kept(m, s, f) - i
  {
    if i == Kept(m, s, f) then [if CommaTrails(m, s, f) && !f.allowTrailingCommas then Refused else Fine]
    else
      SlotIsPart(m, Index(i));
      Checks(Slot(m, Index(i)), s, f, room) + ElementChecks(m, i + 1, s, f, room)
  }

  /** A name is checked before the value behind it. */
  ghost function MemberChecks(m: seq<Member>, i: nat, s: Style, f: Features, room: int): seq<Check>
    requires AllNamed(m) && AllPrintable(m) && i <= |m|
    decreases MapSize(m), |m| - i
  {
    if i == |m| then []
    else
      MemberSize(m, i);
      [NameCheck(m, i, s, f)] + (Checks(m[i].val, s, f, room) + MemberChecks(m, i + 1, s, f, room))
  }

  ghost function NameCheck(m: seq<Member>, i: nat, s: Style, f: Features): Check
    requires AllNamed(m) && i < |m|
  {
    if |RereadName(m, i, s)| >= KEY_LENGTH_LIMIT then Beyond
    else if f.rejectDupKeys && !NewName(m, i, s) then Refused
    else Fine
  }

  /** The first check that fails. */
  ghost function First(cs: seq<Check>): (c: Check)
    ensures c == Fine ==> forall k :: 0 <= k < |cs| ==> cs[k] == Fine
    ensures c != Fine ==> exists k :: 0 <= k < |cs| && cs[k] == c && forall j :: 0 <= j < k ==> cs[j] == Fine
  {
    if cs == [] then Fine
    else if cs[0] != Fine then cs[0]
    else
      assert forall k :: 0 < k < |cs| ==> cs[k] == cs[1..][k - 1];
      assert forall k :: 0 <= k < |cs[1..]| ==> cs[1..][k] == cs[k + 1];
      First(cs[1..])
  }

  lemma {:induction false} FirstConcat(a: seq<Check>, b: seq<Check>)
    ensures First(a + b) == if First(a) == Fine then First(b) else First(a)
  {
    if a == [] {
      assert a + b == b;
    } else {
      assert (a + b)[1..] == a[1..] + b;
      FirstConcat(a[1..], b);
    }
  }

  lemma FirstOfOne(c: Check, rest: seq<Check>)
    ensures First([c] + rest) == if c == Fine then First(rest) else c
  {
    assert ([c] + rest)[1..] == rest;
  }

  ghost function Meaning(c: Check, v: Value): Result
  {
    match c case Fine => Gives(v) case Beyond => Throws case Refused => Fails
  }

  /** The tree of a printed value means the value that comes back, unless a check fails; the first one that does decides
      between exception and error. */
  lemma {:induction false} EvalPrinted(v: Value, s: Style, f: Features, lib: Doubles, room: int)
    requires Printable(v)
    ensures Eval(f, lib, room, SyntaxOf(v, s, f)) == Meaning(First(Checks(v, s, f, room)), Reread(v, s, f))
    decreases Size(v), 0
  {
    hide ItemsOf, EntriesOf, EvalItems, EvalEntries, ElementChecks, MemberChecks, RereadElements, RereadMembers,
         TokensOf, AtomValue, Kept, CommaTrails, First, AllStored, AllRealFree, Sorted;
    ChecksSplit(v, s, f, room);
    if room > 0 {
      match v
      case Arr(m) =>
        assert SyntaxOf(v, s, f) == List([], ItemsOf(m, Kept(m, s, f), s, f), CommaTrails(m, s, f));
        RereadNone(m, s, f);
        EvalElements(m, 0, s, f, lib, room - 1);
      case Obj(m) =>
        assert SyntaxOf(v, s, f) == Record([], EntriesOf(m, |m|, s, f), false, []);
        RereadNoMembers(m, s, f);
        EvalMembers(m, 0, s, f, lib, room - 1, true);
      case _ =>
        if !v.Null? || !s.dropNulls {
          AtomPrinted(v, s, f, lib);
        }
    }
  }

  lemma ChecksSplit(v: Value, s: Style, f: Features, room: int)
    requires Printable(v)
    ensures First(Checks(v, s, f, room)) ==
            if room <= 0 then Beyond
            else match v
              case Null => if s.dropNulls && !f.allowDroppedNullPlaceholders then Refused else Fine
              case Arr(m) => First(ElementChecks(m, 0, s, f, room - 1))
              case Obj(m) => First(MemberChecks(m, 0, s, f, room - 1))
              case _ => Fine
  {
    hide ElementChecks, MemberChecks, Kept, CommaTrails, AllStored, AllRealFree, Sorted;
    var c := if room > 0 then Fine else Beyond;
    match v
    case Null => FirstOfOne(c, [if s.dropNulls && !f.allowDroppedNullPlaceholders then Refused else Fine]);
    case Arr(m) => FirstOfOne(c, ElementChecks(m, 0, s, f, room - 1));
    case Obj(m) => FirstOfOne(c, MemberChecks(m, 0, s, f, room - 1));
    case _ => FirstOfOne(c, []);
  }

  lemma ElementChecksSplit(m: seq<Member>, i: nat, s: Style, f: Features, room: int)
    requires Indexed(m) && AllPrintable(m) && i <= Kept(m, s, f)
    ensures i < Kept(m, s, f) ==> Printable(Slot(m, Index(i)))
    ensures First(ElementChecks(m, i, s, f, room)) ==
            if i == Kept(m, s, f) then if CommaTrails(m, s, f) && !f.allowTrailingCommas then Refused else Fine
            else if First(Checks(Slot(m, Index(i)), s, f, room)) == Fine then First(ElementChecks(m, i + 1, s, f, room))
            else First(Checks(Slot(m, Index(i)), s, f, room))
  {
    hide Checks, Slot, Kept, CommaTrails, AllStored, AllRealFree;
    if i < Kept(m, s, f) {
      SlotIsPart(m, Index(i));
      FirstConcat(Checks(Slot(m, Index(i)), s, f, room), ElementChecks(m, i + 1, s, f, room));
    }
  }

  lemma MemberChecksSplit(m: seq<Member>, i: nat, s: Style, f: Features, room: int)
    requires AllNamed(m) && AllPrintable(m) && i <= |m|
    ensures First(MemberChecks(m, i, s, f, room)) ==
            if i == |m| then Fine
            else if NameCheck(m, i, s, f) != Fine then NameCheck(m, i, s, f)
            else if First(Checks(m[i].val, s, f, room)) == Fine then First(MemberChecks(m, i + 1, s, f, room))
            else First(Checks(m[i].val, s, f, room))
  {
    hide Checks, NameCheck;
    if i < |m| {
      FirstOfOne(NameCheck(m, i, s, f), Checks(m[i].val, s, f, room) + MemberChecks(m, i + 1, s, f, room));
      FirstConcat(Checks(m[i].val, s, f, room), MemberChecks(m, i + 1, s, f, room));
    }
  }

  /** All checks pass exactly when the limits are kept, no names collide that may not, and no dropped null is missed. */
  lemma {:induction false} ChecksExactly(v: Value, s: Style, f: Features, room: int)
    requires Printable(v)
    ensures Agrees(First(Checks(v, s, f, room)), WithinLimits(v, s, f, room),
                   (f.rejectDupKeys ==> DistinctNames(v, s, f)) && NullsExpected(v, s, f))
    decreases Size(v), 0
  {
    hide Checks, ElementChecks, MemberChecks, First, ElementsWithin, MembersWithin, ElementsDistinct, MembersDistinct,
         ElementsExpected, MembersExpected, Kept, CommaTrails, AllStored, AllRealFree, Sorted;
    ChecksSplit(v, s, f, room);
    match v
    case Arr(m) => ElementChecksExactly(m, 0, s, f, room - 1);
    case Obj(m) => MemberChecksExactly(m, 0, s, f, room - 1);
    case _ =>
  }

  ghost predicate Agrees(first: Check, within: bool, accepted: bool)
  {
    (first == Fine <==> within && accepted) && (first == Beyond ==> !within) && (first == Refused ==> !accepted)
  }

  lemma {:induction false} ElementChecksExactly(m: seq<Member>, i: nat, s: Style, f: Features, room: int)
    requires Indexed(m) && AllPrintable(m) && i <= Kept(m, s, f)
    ensures Agrees(First(ElementChecks(m, i, s, f, room)), ElementsWithin(m, i, s, f, room),
                   (f.rejectDupKeys ==> ElementsDistinct(m, i, s, f))
                   && (CommaTrails(m, s, f) ==> f.allowTrailingCommas) && ElementsExpected(m, i, s, f))
    decreases MapSize(m), Kept(m, s, f) - i
  {
    hide Checks, ElementChecks, First, WithinLimits, DistinctNames, NullsExpected, Slot, Kept, CommaTrails, AllStored,
         AllRealFree;
    ElementChecksSplit(m, i, s, f, room);
    if i < Kept(m, s, f) {
      SlotIsPart(m, Index(i));
      ChecksExactly(Slot(m, Index(i)), s, f, room);
      ElementChecksExactly(m, i + 1, s, f, room);
    }
  }

  lemma {:induction false} MemberChecksExactly(m: seq<Member>, i: nat, s: Style, f: Features, room: int)
    requires AllNamed(m) && AllPrintable(m) && i <= |m|
    ensures Agrees(First(MemberChecks(m, i, s, f, room)), MembersWithin(m, i, s, f, room),
                   (f.rejectDupKeys ==> MembersDistinct(m, i, s, f)) && MembersExpected(m, i, s, f))
    decreases MapSize(m), |m| - i
  {
    hide Checks, MemberChecks, First, WithinLimits, DistinctNames, NullsExpected, RereadName, NewName;
    MemberChecksSplit(m, i, s, f, room);
    if i < |m| {
      MemberSize(m, i);
      ChecksExactly(m[i].val, s, f, room);
      MemberChecksExactly(m, i + 1, s, f, room);
    }
  }

  /** A reader that expects dropped nulls, or a writer that drops none, misses none. */
  lemma {:induction false} NoneMissed(v: Value, s: Style, f: Features)
    requires Printable(v) && (s.dropNulls ==> f.allowDroppedNullPlaceholders)
    ensures NullsExpected(v, s, f)
    decreases Size(v), 0
  {
    hide ElementsExpected, MembersExpected;
    match v
    case Arr(m) => NoElementMissed(m, 0, s, f);
    case Obj(m) => NoMemberMissed(m, 0, s, f);
    case _ =>
  }

  lemma {:induction false} NoElementMissed(m: seq<Member>, i: nat, s: Style, f: Features)
    requires Indexed(m) && AllPrintable(m) && i <= Kept(m, s, f) && (s.dropNulls ==> f.allowDroppedNullPlaceholders)
    ensures ElementsExpected(m, i, s, f)
    decreases MapSize(m), Kept(m, s, f) - i
  {
    hide NullsExpected, Slot, Kept, AllStored, AllRealFree;
    if i < Kept(m, s, f) {
      SlotIsPart(m, Index(i));
      NoneMissed(Slot(m, Index(i)), s, f);
      NoElementMissed(m, i + 1, s, f);
    }
  }

  lemma {:induction false} NoMemberMissed(m: seq<Member>, i: nat, s: Style, f: Features)
    requires AllNamed(m) && AllPrintable(m) && i <= |m| && (s.dropNulls ==> f.allowDroppedNullPlaceholders)
    ensures MembersExpected(m, i, s, f)
    decreases MapSize(m), |m| - i
  {
    hide NullsExpected;
    if i < |m| {
      MemberSize(m, i);
      NoneMissed(m[i].val, s, f);
      NoMemberMissed(m, i + 1, s, f);
    }
  }

  lemma RereadNone(m: seq<Member>, s: Style, f: Features)
    requires Indexed(m) && AllPrintable(m)
    ensures RereadElements(m, 0, s, f) == []
  {
  }

  lemma RereadNoMembers(m: seq<Member>, s: Style, f: Features)
    requires AllNamed(m) && AllPrintable(m)
    ensures RereadMembers(m, 0, s, f) == []
  {
  }

  lemma AtomPrinted(v: Value, s: Style, f: Features, lib: Doubles)
    requires Printable(v) && !v.Arr? && !v.Obj? && (v.Null? ==> !s.dropNulls)
    ensures SyntaxOf(v, s, f) == Atom([], TokensOf(v, s)[0])
            && AtomValue(TokensOf(v, s)[0], lib) == Gives(Reread(v, s, f))
  {
    hide IntegerOf, Decode, Quoted, Repair;
    match v
    case Int(i) => IntegerRoundTrip(i);
    case UInt(u) => IntegerRoundTrip(u);
    case Str(b) => QuotedDecodes(b, s.emitUtf8);
    case _ =>
  }

  lemma QuotedDecodes(b: bytes, emitUtf8: bool)
    ensures 2 <= |Quoted(b, emitUtf8)| && Decode(Body(Quoted(b, emitUtf8))) == Chars(Repair(b, emitUtf8))
  {
    hide Escape, Decode, Repair, ScanString;
    var q := Quoted(b, emitUtf8);
    assert q[0..0 + |q|] == q;
    LiteralRoundTrip(q, 0, b, emitUtf8);
  }

  lemma {:induction false} EvalElements(m: seq<Member>, i: nat, s: Style, f: Features, lib: Doubles, room: int)
    requires Indexed(m) && AllPrintable(m) && i <= Kept(m, s, f)
    ensures EvalItems(f, lib, room, ItemsOf(m, Kept(m, s, f), s, f), i, CommaTrails(m, s, f),
                      RereadElements(m, i, s, f))
         == Meaning(First(ElementChecks(m, i, s, f, room)), Arr(RereadElements(m, Kept(m, s, f), s, f)))
    decreases MapSize(m), Kept(m, s, f) - i
  {
    hide ItemsOf, SyntaxOf, Eval, Slot, Checks, ElementChecks, First, Reread, Put, Kept, CommaTrails, AllStored,
         AllRealFree;
    ElementChecksSplit(m, i, s, f, room);
    if i < Kept(m, s, f) {
      ItemAt(m, Kept(m, s, f), s, f, i);
      SlotIsPart(m, Index(i));
      EvalPrinted(Slot(m, Index(i)), s, f, lib, room);
      EvalElements(m, i + 1, s, f, lib, room);
    }
  }

  lemma {:induction false} EvalMembers(m: seq<Member>, i: nat, s: Style, f: Features, lib: Doubles, room: int,
                                       nameEmpty: bool)
    requires AllNamed(m) && AllPrintable(m) && i <= |m|
    ensures EvalEntries(f, lib, room, EntriesOf(m, |m|, s, f), i, false, nameEmpty, RereadMembers(m, i, s, f))
         == Meaning(First(MemberChecks(m, i, s, f, room)), Obj(RereadMembers(m, |m|, s, f)))
    decreases MapSize(m), |m| - i
  {
    hide EntriesOf, SyntaxOf, Eval, Checks, MemberChecks, First, Reread, Put, NameOf, Has, RereadName, Quoted;
    MemberChecksSplit(m, i, s, f, room);
    if i < |m| {
      EntryAt(m, |m|, s, f, i);
      MemberSize(m, i);
      PrintedName(m, i, s, f, lib);
      RereadNames(m, i, s, f, RereadName(m, i, s));
      EvalPrinted(m[i].val, s, f, lib, room);
      EvalMembers(m, i + 1, s, f, lib, room, RereadName(m, i, s) == []);
    }
  }

  lemma PrintedName(m: seq<Member>, i: nat, s: Style, f: Features, lib: Doubles)
    requires AllNamed(m) && i < |m|
    ensures NameOf(Lexeme(String, Quoted(m[i].key.s, s.emitUtf8)), f, lib) == Some(RereadName(m, i, s))
  {
    hide Decode, Quoted, Repair;
    QuotedDecodes(m[i].key.s, s.emitUtf8);
  }

  // ---------------------------------------------------------------- values that come back unchanged

  /** Nothing in the value changes on the way: no small unsigned number, no string or name to repair, no gap and no lost
      null. */
  ghost predicate Faithful(v: Value, s: Style, f: Features)
  {
    match v
    case UInt(u) => u > MAX_INT64
    case Str(b) => s.emitUtf8 || WellFormed(b)
    case Arr(m) => Dense(m) && Kept(m, s, f) == ArraySize(m) && AllFaithful(m, s, f)
    case Obj(m) => (forall i :: 0 <= i < |m| && m[i].key.Name? ==> s.emitUtf8 || WellFormed(m[i].key.s))
      && AllFaithful(m, s, f)
    case _ => true
  }

  ghost predicate AllFaithful(m: seq<Member>, s: Style, f: Features)
    decreases m
  {
    forall i :: 0 <= i < |m| ==> (assert (m decreases to m[i]); Faithful(m[i].val, s, f))
  }

  /** A string or name comes back unchanged exactly when UTF-8 is kept or it is well-formed. */
  lemma RepairedExactly(b: bytes, emitUtf8: bool)
    ensures Repair(b, emitUtf8) == b <==> emitUtf8 || WellFormed(b)
  {
    if emitUtf8 {
      RepairUtf8(b);
    } else {
      RepairIsWellFormed(b);
      if WellFormed(b) {
        RepairWellFormed(b);
      }
    }
  }

  /** The value read back is the value printed exactly when nothing in it changes on the way. */
  lemma {:induction false} RereadExactly(v: Value, s: Style, f: Features)
    requires Printable(v)
    ensures Reread(v, s, f) == v <==> Faithful(v, s, f)
    decreases Size(v), 0
  {
    hide RereadElements, RereadMembers, Repair, Kept;
    match v
    case Str(b) => RepairedExactly(b, s.emitUtf8);
    case Arr(m) => ArrayRereadExactly(m, s, f);
    case Obj(m) => ObjectRereadExactly(m, s, f);
    case _ =>
  }

  lemma {:induction false} ArrayRereadExactly(m: seq<Member>, s: Style, f: Features)
    requires Indexed(m) && Sorted(m) && AllPrintable(m)
    ensures RereadElements(m, Kept(m, s, f), s, f) == m
            <==> Dense(m) && Kept(m, s, f) == ArraySize(m) && AllFaithful(m, s, f)
    decreases MapSize(m), 1
  {
    hide Reread, Slot, Sorted, Kept, ArraySize;
    var n := Kept(m, s, f);
    RereadIsRow(m, n, s, f);
    var r := RereadElements(m, n, s, f);
    if r == m {
      assert forall i :: 0 <= i < |m| ==> m[i].key == Index(i);
    }
    if Dense(m) {
      DenseSize(m);
      forall i | 0 <= i < |m|
        ensures Slot(m, Index(i)) == m[i].val && (Reread(m[i].val, s, f) == m[i].val <==> Faithful(m[i].val, s, f)) {
        DenseSlot(m, i);
        MemberSize(m, i);
        RereadExactly(m[i].val, s, f);
      }
      assert forall i :: 0 <= i < n ==> r[i] == Member(Index(i), Reread(m[i].val, s, f));
      if n == |m| && AllFaithful(m, s, f) {
        assert forall i :: 0 <= i < |m| ==> r[i] == m[i];
      }
    }
  }

  lemma DenseSize(m: seq<Member>)
    requires Sorted(m) && Dense(m)
    ensures ArraySize(m) == |m|
  {
  }

  lemma DenseSlot(m: seq<Member>, i: nat)
    requires Sorted(m) && Dense(m) && i < |m|
    ensures Slot(m, Index(i)) == m[i].val && ArraySize(m) == |m|
  {
    FindsKey(m, Index(i), i);
  }

  /** Element after element, the array that comes back has no gaps. */
  lemma {:induction false} RereadIsRow(m: seq<Member>, n: nat, s: Style, f: Features)
    requires Indexed(m) && AllPrintable(m) && n <= ArraySize(m)
    ensures var r := RereadElements(m, n, s, f);
            |r| == n
            && forall i :: 0 <= i < n ==>
                 (SlotIsPart(m, Index(i)); r[i] == Member(Index(i), Reread(Slot(m, Index(i)), s, f)))
    decreases n
  {
    hide Reread, Slot, Put;
    if n > 0 {
      RereadIsRow(m, n - 1, s, f);
      SlotIsPart(m, Index(n - 1));
      PutAppends(RereadElements(m, n - 1, s, f), Index(n - 1), Reread(Slot(m, Index(n - 1)), s, f));
    }
  }

  lemma {:induction false} ObjectRereadExactly(m: seq<Member>, s: Style, f: Features)
    requires AllNamed(m) && Sorted(m) && AllPrintable(m)
    ensures RereadMembers(m, |m|, s, f) == m
            <==> (forall i :: 0 <= i < |m| ==> s.emitUtf8 || WellFormed(m[i].key.s)) && AllFaithful(m, s, f)
    decreases MapSize(m), 1
  {
    hide Reread, Repair, RereadName, Has, Put;
    forall i | 0 <= i < |m|
      ensures RereadName(m, i, s) == m[i].key.s <==> s.emitUtf8 || WellFormed(m[i].key.s)
      ensures Reread(m[i].val, s, f) == m[i].val <==> Faithful(m[i].val, s, f)
    {
      NameRereadExactly(m, i, s);
      MemberSize(m, i);
      RereadExactly(m[i].val, s, f);
    }
    if RereadMembers(m, |m|, s, f) == m {
      forall i | 0 <= i < |m| ensures RereadName(m, i, s) == m[i].key.s {
        NameSurvives(m, i, s, f);
      }
    }
    if forall i :: 0 <= i < |m| ==> RereadName(m, i, s) == m[i].key.s {
      RereadIsMap(m, |m|, s, f);
      var r := RereadMembers(m, |m|, s, f);
      if AllFaithful(m, s, f) {
        assert forall i :: 0 <= i < |m| ==> r[i] == m[i];
      }
    }
  }

  lemma NameRereadExactly(m: seq<Member>, i: nat, s: Style)
    requires AllNamed(m) && i < |m|
    ensures RereadName(m, i, s) == m[i].key.s <==> s.emitUtf8 || WellFormed(m[i].key.s)
  {
    RepairedExactly(m[i].key.s, s.emitUtf8);
  }

  /** A name of the map that came back is repaired, so it is one that needs no repair. */
  lemma NameSurvives(m: seq<Member>, i: nat, s: Style, f: Features)
    requires AllNamed(m) && Sorted(m) && AllPrintable(m) && i < |m| && RereadMembers(m, |m|, s, f) == m
    ensures RereadName(m, i, s) == m[i].key.s
  {
    hide Reread, Repair, Has, RereadMembers, RereadName;
    FindsKey(m, m[i].key, i);
    RereadNames(m, |m|, s, f, m[i].key.s);
    var j :| 0 <= j < |m| && RereadName(m, j, s) == m[i].key.s;
    RepairTwice(m, j, s);
    NameRereadExactly(m, i, s);
  }

  lemma RepairTwice(m: seq<Member>, j: nat, s: Style)
    requires AllNamed(m) && j < |m|
    ensures s.emitUtf8 || WellFormed(RereadName(m, j, s))
  {
    if !s.emitUtf8 {
      RepairIsWellFormed(m[j].key.s);
    }
  }

  lemma {:induction false} RereadIsMap(m: seq<Member>, n: nat, s: Style, f: Features)
    requires AllNamed(m) && Sorted(m) && AllPrintable(m) && n <= |m|
    requires forall i :: 0 <= i < |m| ==> RereadName(m, i, s) == m[i].key.s
    ensures var r := RereadMembers(m, n, s, f);
            |r| == n && forall i :: 0 <= i < n ==> r[i] == Member(m[i].key, Reread(m[i].val, s, f))
    decreases n
  {
    hide Reread, Put, RereadName;
    if n > 0 {
      RereadIsMap(m, n - 1, s, f);
      PutAppends(RereadMembers(m, n - 1, s, f), m[n - 1].key, Reread(m[n - 1].val, s, f));
    }
  }

  /** In a value that comes back unchanged no two names collide. */
  lemma {:induction false} FaithfulIsDistinct(v: Value, s: Style, f: Features)
    requires Printable(v) && Faithful(v, s, f)
    ensures DistinctNames(v, s, f)
    decreases Size(v), 0
  {
    match v
    case Arr(m) => FaithfulElements(m, 0, s, f);
    case Obj(m) => FaithfulMembers(m, 0, s, f);
    case _ =>
  }

  lemma {:induction false} FaithfulElements(m: seq<Member>, i: nat, s: Style, f: Features)
    requires Indexed(m) && Sorted(m) && Dense(m) && AllPrintable(m) && AllFaithful(m, s, f) && i <= Kept(m, s, f)
    ensures ElementsDistinct(m, i, s, f)
    decreases MapSize(m), Kept(m, s, f) - i
  {
    hide Slot, Sorted, DistinctNames, Kept;
    DenseSize(m);
    if i < Kept(m, s, f) {
      DenseSlot(m, i);
      SlotIsPart(m, Index(i));
      FaithfulIsDistinct(Slot(m, Index(i)), s, f);
      FaithfulElements(m, i + 1, s, f);
    }
  }

  lemma {:induction false} FaithfulMembers(m: seq<Member>, i: nat, s: Style, f: Features)
    requires AllNamed(m) && Sorted(m) && AllPrintable(m) && AllFaithful(m, s, f) && i <= |m|
    requires forall j :: 0 <= j < |m| ==> s.emitUtf8 || WellFormed(m[j].key.s)
    ensures MembersDistinct(m, i, s, f)
    decreases MapSize(m), |m| - i
  {
    hide DistinctNames, RereadName;
    if i < |m| {
      MemberSize(m, i);
      FaithfulIsDistinct(m[i].val, s, f);
      FaithfulMembers(m, i + 1, s, f);
      NameRereadExactly(m, i, s);
      forall j | 0 <= j < i ensures RereadName(m, j, s) != RereadName(m, i, s) {
        NameRereadExactly(m, j, s);
        KeyTrichotomy(m[j].key, m[i].key);
      }
    }
  }

  // ---------------------------------------------------------------- main results

  /** What parse makes of the text of a value: the first check that fails decides between exception and error; if none
      does, the value comes back, and only strictRoot can stand against the root. */
  ghost predicate Outcomes(r: ParseResult, first: Check, f: Features, v: Value)
  {
    match first
    case Fine => r.Parsed? && r.root == v && (r.errors == [] <==> !f.strictRoot || v.Arr? || v.Obj?)
    case Beyond => r.ParseThrew?
    case Refused => r.Parsed? && r.errors != []
  }

  /** Under every feature setting, a text that spells a value is accepted if and only if the limits are kept, no names
      collide that may not, no dropped null is missed, and strictRoot does not stand against the root; then it gives
      what comes back of the value. Otherwise the first check that fails decides what happens. */
  lemma ParseSpelled(x: Context, root: Value, v: Value, s: Style)
    requires Printable(v) && !(v.Null? && s.dropNulls) && Spells(x.doc, TokensOf(v, s))
    ensures var r, first := ParseDocument(x, root), First(Checks(v, s, x.f, x.f.stackLimit));
            var within, distinct :=
              WithinLimits(v, s, x.f, x.f.stackLimit), x.f.rejectDupKeys ==> DistinctNames(v, s, x.f);
            Outcomes(r, first, x.f, Reread(v, s, x.f))
              && (first == Fine <==> within && distinct && NullsExpected(v, s, x.f))
  {
    hide TokensOf, Eval, ParseDocument, Spells, SyntaxOf, Checks, First, WithinLimits, DistinctNames, NullsExpected,
         Shape, Yield, Reread;
    YieldOfPrinted(v, s, x.f);
    ShapeOfPrinted(v, s, x.f);
    TokensSeparated(v, s);
    ParseUnderstood(x, root, SyntaxOf(v, s, x.f));
    EvalPrinted(v, s, x.f, x.lib, x.f.stackLimit);
    ChecksExactly(v, s, x.f, x.f.stackLimit);
  }

  /** A document of white space, which is what a dropped null leaves, is never accepted. */
  lemma BlankDocument(x: Context, root: Value)
    requires AllSpace(x.doc)
    ensures var r := ParseDocument(x, root); r.ParseThrew? || r.errors != []
  {
    BlankHasNoBom(x.doc, x.f);
    OnlySpace(x.doc, x.f, 0);
  }

  lemma BlankHasNoBom(doc: bytes, f: Features)
    requires AllSpace(doc)
    ensures BomLength(doc, f) == 0
  {
    assert |doc| >= 3 ==> doc[..3][0] == doc[0];
  }

  lemma {:induction false} OnlySpace(doc: bytes, f: Features, p: nat)
    requires AllSpace(doc) && p <= |doc|
    ensures SkipSpaces(doc, p) == |doc|
    decreases |doc| - p
  {
    if p < |doc| {
      OnlySpace(doc, f, p + 1);
    }
  }
}
