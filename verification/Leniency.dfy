/** What OurReader forgives in objects: trailing commas, and anything in place of a comma once a comment has been
    read. */
module Leniency {
  import opened ByteStrings
  import opened Wrappers
  import opened Utf8
  import opened Quoting
  import opened Integers
  import opened Values
  import opened Lexer
  import opened Parser
  import opened Tokens
  import opened Grammar
  import opened RoundTrip

  /** A document that spells an object whose entries are in order by themselves is accepted if and only if each entry
      but the last is followed by a comma or by comments, and a comma trails only if the features allow it or the last
      name is empty. */
  lemma SeparatorsExactly(x: Context, root: Value, entries: seq<Entry>, trailing: bool, close: seq<Lexeme>)
    requires entries != [] && x.f.stackLimit > 0
    requires var s := Record([], entries, trailing, close);
             Shape(x.f, s) && Spells(x.doc, Yield(s)) && Separated(Yield(s))
    requires FineEntries(x.f, x.lib, x.f.stackLimit - 1, entries)
    ensures var r := ParseDocument(x, root);
            r.Parsed? && (r.errors == []
              <==> WellSeparated(entries, 0, trailing) && (trailing ==> MayTrail(x.f, x.lib, entries)))
  {
    hide ParseDocument, Shape, Yield, Spells, Separated, FineEntries, WellSeparated, MayTrail, EvalEntries;
    var s := Record([], entries, trailing, close);
    ParseUnderstood(x, root, s);
    RecordExactly(x.f, x.lib, x.f.stackLimit - 1, entries, trailing);
    RecordsAreObjects(x.f, x.lib, x.f.stackLimit - 1, entries, 0, trailing, true, []);
  }

  lemma {:induction false} RecordsAreObjects(f: Features, lib: Doubles, room: int, entries: seq<Entry>, i: nat,
                                             trailing: bool, nameEmpty: bool, members: seq<Member>)
    requires i <= |entries|
    ensures var r := EvalEntries(f, lib, room, entries, i, trailing, nameEmpty, members); r.Gives? ==> r.value.Obj?
    decreases |entries| - i
  {
    hide Eval, NameOf, Put, Has;
    if i < |entries| && NameOf(entries[i].name, f, lib).Some? && Eval(f, lib, room, entries[i].val).Gives? {
      var name := NameOf(entries[i].name, f, lib).value;
      RecordsAreObjects(f, lib, room, entries, i + 1, trailing, name == [],
                        Put(members, Name(name), Eval(f, lib, room, entries[i].val).value));
    }
  }

  // ---------------------------------------------------------------- trailing commas

  lemma {:induction false} TrailingYield(m: seq<Member>, i: nat, s: Style, f: Features)
    requires AllNamed(m) && AllPrintable(m) && i < |m|
    ensures EntriesYield(EntriesOf(m, |m|, s, f), i, true, []) == MemberTokens(m, i, s) + [SEPARATOR, RC]
    decreases |m| - i
  {
    hide EntriesOf, SyntaxOf, Yield, TokensOf, Quoted;
    EntryAt(m, |m|, s, f, i);
    MemberSize(m, i);
    YieldOfPrinted(m[i].val, s, f);
    var entries := EntriesOf(m, |m|, s, f);
    var name, val := entries[i].name, TokensOf(m[i].val, s);
    if i + 1 < |m| {
      TrailingYield(m, i + 1, s, f);
      var rest := MemberTokens(m, i + 1, s);
      assert [] + ([name] + ([NAME_SEPARATOR] + (val + ([] + ([SEPARATOR] + (rest + [SEPARATOR, RC]))))))
          == [name, NAME_SEPARATOR] + val + [SEPARATOR] + rest + [SEPARATOR, RC];
    } else {
      assert EntriesYield(entries, i + 1, true, []) == [] + [RC] && MemberTokens(m, i + 1, s) == [];
      assert [] + ([name] + ([NAME_SEPARATOR] + (val + ([] + ([SEPARATOR] + ([] + [RC]))))))
          == [name, NAME_SEPARATOR] + val + [] + [] + [SEPARATOR, RC];
    }
  }

  /** The entries of an object for which no check fails are in order by themselves. */
  lemma PrintedEntriesAreFine(m: seq<Member>, s: Style, f: Features, lib: Doubles, room: int)
    requires AllNamed(m) && AllPrintable(m) && First(MemberChecks(m, 0, s, f, room)) == Fine
    ensures FineEntries(f, lib, room, EntriesOf(m, |m|, s, f))
  {
    hide EntriesOf, SyntaxOf, Eval, NameOf, Quoted, RereadName, MemberChecks, Checks, First, Reread;
    var entries := EntriesOf(m, |m|, s, f);
    forall i | 0 <= i < |m|
      ensures FineEntry(f, lib, room, entries[i]) && NameOf(entries[i].name, f, lib) == Some(RereadName(m, i, s)) {
      EntryAt(m, |m|, s, f, i);
      PrintedName(m, i, s, f, lib);
      MemberFine(m, 0, i, s, f, room);
      EvalPrinted(m[i].val, s, f, lib, room);
    }
    if f.rejectDupKeys {
      forall i, j | 0 <= i < j < |m| ensures RereadName(m, i, s) != RereadName(m, j, s) {
        MemberFine(m, 0, j, s, f, room);
      }
    }
  }

  lemma {:induction false} MemberFine(m: seq<Member>, i: nat, j: nat, s: Style, f: Features, room: int)
    requires AllNamed(m) && AllPrintable(m) && i <= j < |m| && First(MemberChecks(m, i, s, f, room)) == Fine
    ensures NameCheck(m, j, s, f) == Fine && First(Checks(m[j].val, s, f, room)) == Fine
    decreases j - i
  {
    hide MemberChecks, Checks, First, NameCheck, AllStored, AllRealFree;
    MemberChecksSplit(m, i, s, f, room);
    if i < j {
      MemberFine(m, i + 1, j, s, f, room);
    }
  }

  /** A comma that trails does not change what an object means, if it is accepted. */
  lemma {:induction false} TrailingChangesNothing(f: Features, lib: Doubles, room: int, entries: seq<Entry>, i: nat,
                                                  nameEmpty: bool, members: seq<Member>)
    requires i <= |entries| && EvalEntries(f, lib, room, entries, i, true, nameEmpty, members).Gives?
    ensures EvalEntries(f, lib, room, entries, i, false, nameEmpty, members)
            == EvalEntries(f, lib, room, entries, i, true, nameEmpty, members)
    decreases |entries| - i
  {
    hide Eval, NameOf, Put, Has;
    if i < |entries| {
      var name := NameOf(entries[i].name, f, lib).value;
      TrailingChangesNothing(f, lib, room, entries, i + 1, name == [],
                             Put(members, Name(name), Eval(f, lib, room, entries[i].val).value));
    }
  }

  lemma RepairNothing(b: bytes, emitUtf8: bool)
    ensures Repair(b, emitUtf8) == [] <==> b == []
  {
    if b != [] {
      CodepointRange(b);
      EmittedHasBytes(b);
    }
  }

  lemma EmittedHasBytes(b: bytes)
    requires b != []
    ensures CodePointToUtf8(Emitted(Utf8ToCodepoint(b).0)) != []
  {
    hide Utf8ToCodepoint;
    CodepointRange(b);
  }

  /** For every object that is not empty, and every feature setting: its text with a comma before the brace is accepted
      if and only if no check fails, and trailing commas are allowed or the last name is empty. */
  lemma TrailingCommaExactly(x: Context, root: Value, m: seq<Member>, s: Style)
    requires m != [] && Printable(Obj(m)) && Spells(x.doc, [LC] + (MemberTokens(m, 0, s) + [SEPARATOR, RC]))
    ensures var r := ParseDocument(x, root);
            var fine := First(Checks(Obj(m), s, x.f, x.f.stackLimit)) == Fine;
            && (r.Parsed? && r.errors == [] <==> fine && (x.f.allowTrailingCommas || m[|m| - 1].key.s == []))
            && (fine ==> r.Parsed?)
            && (r.Parsed? && r.errors == [] ==> r.root == Reread(Obj(m), s, x.f))
  {
    hide ParseDocument, Spells, Checks, First, MemberTokens, Reread;
    if First(Checks(Obj(m), s, x.f, x.f.stackLimit)) == Fine {
      TrailingOfFine(x, root, m, s);
    }
    if ParseDocument(x, root).Parsed? && ParseDocument(x, root).errors == [] {
      TrailingRoot(x, root, m, s);
    }
  }

  lemma TrailingOfFine(x: Context, root: Value, m: seq<Member>, s: Style)
    requires m != [] && Printable(Obj(m)) && Spells(x.doc, [LC] + (MemberTokens(m, 0, s) + [SEPARATOR, RC]))
    requires First(Checks(Obj(m), s, x.f, x.f.stackLimit)) == Fine
    ensures var r := ParseDocument(x, root);
            r.Parsed? && (r.errors == [] <==> x.f.allowTrailingCommas || m[|m| - 1].key.s == [])
  {
    hide ParseDocument, Spells, Eval, EntriesOf, EvalEntries, MemberTokens, Yield, Shape, Checks, MemberChecks, First,
         Separated, NameOf, Repair, FineEntries, WellSeparated;
    var entries := EntriesOf(m, |m|, s, x.f);
    TrailingTree(m, s, x.f);
    ChecksSplit(Obj(m), s, x.f, x.f.stackLimit);
    PrintedEntriesAreFine(m, s, x.f, x.lib, x.f.stackLimit - 1);
    SeparatorsExactly(x, root, entries, true, []);
    EntryAt(m, |m|, s, x.f, |m| - 1);
    PrintedName(m, |m| - 1, s, x.f, x.lib);
    RepairNothing(m[|m| - 1].key.s, s.emitUtf8);
    PrintedCommas(m, s, x.f);
  }

  lemma TrailingRoot(x: Context, root: Value, m: seq<Member>, s: Style)
    requires m != [] && Printable(Obj(m)) && Spells(x.doc, [LC] + (MemberTokens(m, 0, s) + [SEPARATOR, RC]))
    requires ParseDocument(x, root).Parsed? && ParseDocument(x, root).errors == []
    ensures ParseDocument(x, root).root == Reread(Obj(m), s, x.f)
            && First(Checks(Obj(m), s, x.f, x.f.stackLimit)) == Fine
  {
    hide ParseDocument, Spells, Eval, EntriesOf, MemberTokens, Yield, Shape, Separated, Reread, Checks, First;
    TrailingTree(m, s, x.f);
    ParseUnderstood(x, root, Record([], EntriesOf(m, |m|, s, x.f), true, []));
    TrailingMeaning(x, m, s);
  }

  lemma PrintedCommas(m: seq<Member>, s: Style, f: Features)
    requires AllNamed(m) && AllPrintable(m)
    ensures WellSeparated(EntriesOf(m, |m|, s, f), 0, true)
  {
    hide EntriesOf, SyntaxOf;
    forall i | 0 <= i < |m| ensures Separates(EntriesOf(m, |m|, s, f)[i]) {
      EntryAt(m, |m|, s, f, i);
    }
  }

  lemma TrailingTree(m: seq<Member>, s: Style, f: Features)
    requires m != [] && Printable(Obj(m))
    ensures var t := Record([], EntriesOf(m, |m|, s, f), true, []);
            Shape(f, t) && Yield(t) == [LC] + (MemberTokens(m, 0, s) + [SEPARATOR, RC]) && Separated(Yield(t))
  {
    hide EntriesOf, MemberTokens, EntriesShape, EntriesYield, Separated;
    TrailingYield(m, 0, s, f);
    ShapeOfPrinted(Obj(m), s, f);
    assert SyntaxOf(Obj(m), s, f) == Record([], EntriesOf(m, |m|, s, f), false, []);
    assert [] + ([LC] + (MemberTokens(m, 0, s) + [SEPARATOR, RC])) == [LC] + (MemberTokens(m, 0, s) + [SEPARATOR, RC]);
    FixedSeparated();
    MembersSeparated(m, 0, s);
    SeparatedConcat(MemberTokens(m, 0, s), [SEPARATOR, RC]);
    SeparatedConcat([LC], MemberTokens(m, 0, s) + [SEPARATOR, RC]);
  }

  lemma FixedSeparated()
    ensures Separated([SEPARATOR, RC]) && Separated([LC])
  {
  }

  lemma TrailingMeaning(x: Context, m: seq<Member>, s: Style)
    requires m != [] && Printable(Obj(m))
    requires Eval(x.f, x.lib, x.f.stackLimit, Record([], EntriesOf(m, |m|, s, x.f), true, [])).Gives?
    ensures Eval(x.f, x.lib, x.f.stackLimit, Record([], EntriesOf(m, |m|, s, x.f), true, []))
            == Gives(Reread(Obj(m), s, x.f))
    ensures First(Checks(Obj(m), s, x.f, x.f.stackLimit)) == Fine
  {
    hide EntriesOf, EvalEntries, Reread, Checks, First, AllStored, AllRealFree, Sorted;
    TrailingChangesNothing(x.f, x.lib, x.f.stackLimit - 1, EntriesOf(m, |m|, s, x.f), 0, true, []);
    assert SyntaxOf(Obj(m), s, x.f) == Record([], EntriesOf(m, |m|, s, x.f), false, []);
    EvalPrinted(Obj(m), s, x.f, x.lib, x.f.stackLimit);
  }

  // ---------------------------------------------------------------- two documents

  ghost function Texts(ts: seq<Lexeme>): bytes
  {
    if ts == [] then [] else ts[0].text + Texts(ts[1..])
  }

  lemma {:induction false} TextsSpell(ts: seq<Lexeme>)
    requires Separated(ts)
    ensures Spells(Texts(ts), ts)
  {
    hide Spells, Strip, Lexical;
    if ts == [] {
      SpellsSpace([]);
    } else {
      LexicalIsSolid(ts[0]);
      TextsSpell(ts[1..]);
      SpellsOne(ts[0]);
      SpellsAppend(ts[0].text, [ts[0]], Texts(ts[1..]), ts[1..]);
      assert [ts[0]] + ts[1..] == ts;
    }
  }

  lemma {:induction false} TextsConcat(a: seq<Lexeme>, b: seq<Lexeme>)
    ensures Texts(a + b) == Texts(a) + Texts(b)
  {
    if a == [] {
      assert a + b == b;
    } else {
      assert (a + b)[1..] == a[1..] + b;
      TextsConcat(a[1..], b);
    }
  }

  lemma TextsOfTwo(k: Lexeme, l: Lexeme)
    ensures Texts([k]) == k.text && Texts([k, l]) == k.text + l.text
  {
    assert [k, l][1..] == [l] && [l][1..] == [] && [k][1..] == [];
  }

  function NameToken(name: bytes): Lexeme { Lexeme(String, Quoted(name, true)) }

  function DigitToken(n: nat): Lexeme { Lexeme(Number, IntText(n)) }

  const NOTE := Lexeme(Comment, [SLASH, STAR, STAR, SLASH])

  lemma SmallName(b: bytes, f: Features, lib: Doubles)
    requires |b| <= 1 && forall i :: 0 <= i < |b| ==> 0x61 <= b[i] <= 0x7A
    ensures Lexical(NameToken(b)) && NameToken(b).text == [QUOTE] + b + [QUOTE]
            && NameOf(NameToken(b), f, lib) == Some(b)
  {
    hide Decode, Repair, Escape, Lexical;
    QuotedIsLexical(b, true);
    QuotedDecodes(b, true);
    RepairUtf8(b);
    FastPath(b, true);
  }

  lemma SmallNumber(n: nat, lib: Doubles)
    requires 0 < n < 10
    ensures Lexical(DigitToken(n)) && DigitToken(n).text == [0x30 + n] && AtomValue(DigitToken(n), lib) == Gives(Int(n))
  {
    hide Lexical, IntegerOf;
    IntegerRoundTrip(n);
    NumberIsLexical(n);
  }

  lemma NoteIsLexical()
    ensures Lexical(NOTE)
  {
    assert NOTE.text[..2] == [SLASH, STAR] && NOTE.text[2..] == [STAR, SLASH];
  }

  /** {"":1,} */
  const TRAILING: bytes := [LBRACE, QUOTE, QUOTE, COLON, 0x31, COMMA, RBRACE]

  const NAMELESS: seq<Member> := [Member(Name([]), Int(1))]

  /** A trailing comma that every reader accepts. */
  lemma AcceptedTrailingComma(f: Features, lib: Doubles, root: Value)
    requires f.stackLimit >= 2
    ensures var r := ParseDocument(Context(TRAILING, f, lib), root);
            r.Parsed? && r.errors == [] && r.root == Obj(NAMELESS)
  {
    hide ParseDocument, Spells, Lexical, MemberTokens, Quoted, IntText, Repair, Checks, First, Reread;
    var s := Style(true, false);
    NamelessIsFine(s, f, f.stackLimit);
    var t := [LC] + (MemberTokens(NAMELESS, 0, s) + [SEPARATOR, RC]);
    NamelessText(s, f, lib);
    TrailingTree(NAMELESS, s, f);
    TextsSpell(t);
    TrailingCommaExactly(Context(TRAILING, f, lib), root, NAMELESS, s);
    RereadExactly(Obj(NAMELESS), s, f);
  }

  lemma NamelessIsFine(s: Style, f: Features, room: int)
    requires s.emitUtf8 && room >= 2
    ensures Printable(Obj(NAMELESS)) && First(Checks(Obj(NAMELESS), s, f, room)) == Fine
            && Faithful(Obj(NAMELESS), s, f)
  {
    assert MemberChecks(NAMELESS, 1, s, f, room - 1) == [];
    assert Checks(Int(1), s, f, room - 1) == [Fine];
    assert Checks(Obj(NAMELESS), s, f, room) == [Fine, Fine, Fine];
    assert First([Fine, Fine, Fine]) == Fine;
  }

  lemma NamelessText(s: Style, f: Features, lib: Doubles)
    requires s.emitUtf8 && Printable(Obj(NAMELESS))
    ensures Texts([LC] + (MemberTokens(NAMELESS, 0, s) + [SEPARATOR, RC])) == TRAILING
  {
    hide Quoted, IntText, Texts, Lexical, NameOf, AtomValue, NameToken, DigitToken, MemberTokens, Stored, RealFree;
    SmallName([], f, lib);
    SmallNumber(1, lib);
    NamelessTokens(s);
    NamelessParts(NameToken([]), DigitToken(1));
  }

  lemma NamelessParts(name: Lexeme, one: Lexeme)
    requires name.text == [QUOTE] + [] + [QUOTE] && one.text == [0x31]
    ensures Texts([LC] + (([name, NAME_SEPARATOR] + [one]) + [SEPARATOR, RC])) == TRAILING
  {
    hide Texts;
    MemberText(name, one, [SEPARATOR, RC]);
    TextsOfTwo(LC, LC);
    TextsOfTwo(SEPARATOR, RC);
    TextsConcat([LC], [name, NAME_SEPARATOR] + [one] + [SEPARATOR, RC]);
    assert [LBRACE] + (([QUOTE] + [] + [QUOTE]) + [COLON] + ([0x31] + ([COMMA] + [RBRACE]))) == TRAILING;
  }

  lemma NamelessTokens(s: Style)
    requires s.emitUtf8 && Printable(Obj(NAMELESS))
    ensures MemberTokens(NAMELESS, 0, s) == [NameToken([]), NAME_SEPARATOR] + [DigitToken(1)]
  {
    hide Quoted, IntText;
    MemberSize(NAMELESS, 0);
    assert MemberTokens(NAMELESS, 1, s) == [];
  }

  lemma MemberText(name: Lexeme, val: Lexeme, rest: seq<Lexeme>)
    ensures Texts([name, NAME_SEPARATOR] + [val] + rest) == name.text + [COLON] + (val.text + Texts(rest))
  {
    hide Texts;
    TextsOfTwo(name, NAME_SEPARATOR);
    TextsOfTwo(val, val);
    TextsConcat([name, NAME_SEPARATOR] + [val], rest);
    TextsConcat([name, NAME_SEPARATOR], [val]);
  }

  /** {"a":1 comment "b""c":2}, with an empty comment */
  const NOTED: bytes := [LBRACE, QUOTE, 0x61, QUOTE, COLON, 0x31, SLASH, STAR, STAR, SLASH, QUOTE, 0x62, QUOTE,
                         QUOTE, 0x63, QUOTE, COLON, 0x32, RBRACE]

  function FirstEntry(): Entry { Entry([], NameToken([0x61]), Atom([], DigitToken(1)), [NOTE], NameToken([0x62])) }

  function SecondEntry(): Entry { Entry([], NameToken([0x63]), Atom([], DigitToken(2)), [], SEPARATOR) }

  /** A string in place of a comma: every reader accepts it after a comment, also one that allows no comments, and
      throws the string away. */
  lemma AcceptedStringForComma(f: Features, lib: Doubles, root: Value)
    requires f.stackLimit >= 2
    ensures var r := ParseDocument(Context(NOTED, f, lib), root);
            r.Parsed? && r.errors == [] && r.root == Obj([Member(Name([0x61]), Int(1)), Member(Name([0x63]), Int(2))])
  {
    hide ParseDocument, Spells, Quoted, IntText, Yield, Shape, Eval, Separated, Texts;
    var s := Record([], [FirstEntry(), SecondEntry()], false, []);
    NotedTree(f, lib);
    TextsSpell(Yield(s));
    NotedText(f, lib);
    NotedMeaning(f, lib);
    ParseUnderstood(Context(NOTED, f, lib), root, s);
  }

  ghost function NotedTokens(): seq<Lexeme>
  {
    [LC] + ([NameToken([0x61]), NAME_SEPARATOR] + [DigitToken(1)]
            + ([NOTE, NameToken([0x62])] + ([NameToken([0x63]), NAME_SEPARATOR] + [DigitToken(2)] + [RC])))
  }

  lemma NotedTree(f: Features, lib: Doubles)
    ensures var s := Record([], [FirstEntry(), SecondEntry()], false, []);
            Shape(f, s) && Yield(s) == NotedTokens() && Separated(Yield(s))
  {
    hide Yield, Separated;
    NotedYield();
    NotedSeparated(f, lib);
    assert EntryShape(f, FirstEntry()) && EntryShape(f, SecondEntry());
  }

  lemma NotedYield()
    ensures Yield(Record([], [FirstEntry(), SecondEntry()], false, [])) == NotedTokens()
  {
    hide EntriesYield, NameToken, DigitToken;
    var entries := [FirstEntry(), SecondEntry()];
    EntrySplit(entries, 0, false, []);
    EntrySplit(entries, 1, false, []);
    AtomYield(DigitToken(1));
    AtomYield(DigitToken(2));
    assert EntryRest(entries, 1, false, []) == [RC];
    assert EntriesYield(entries, 1, false, []) == [NameToken([0x63]), NAME_SEPARATOR] + [DigitToken(2)] + [RC];
    assert EntryRest(entries, 0, false, []) == [NOTE, NameToken([0x62])] + EntriesYield(entries, 1, false, []);
  }

  lemma NotedSeparated(f: Features, lib: Doubles)
    ensures Separated(NotedTokens())
  {
    hide Quoted, IntText, Lexical, Separated;
    SmallName([0x61], f, lib);
    SmallName([0x62], f, lib);
    SmallName([0x63], f, lib);
    SmallNumber(1, lib);
    SmallNumber(2, lib);
    TwoMembersSeparated(NameToken([0x61]), DigitToken(1), NameToken([0x62]), NameToken([0x63]), DigitToken(2));
  }

  lemma TwoMembersSeparated(a: Lexeme, one: Lexeme, b: Lexeme, c: Lexeme, two: Lexeme)
    requires Lexical(a) && Lexical(one) && Lexical(b) && Lexical(c) && Lexical(two)
             && a.kind == b.kind == c.kind == String
    ensures Separated([LC] + ([a, NAME_SEPARATOR] + [one] + ([NOTE, b] + ([c, NAME_SEPARATOR] + [two] + [RC]))))
  {
    hide Lexical;
    NoteIsLexical();
    FixedIsLexical();
    var second := [c, NAME_SEPARATOR] + [two] + [RC];
    assert second == [c, NAME_SEPARATOR, two, RC];
    assert Separated([NOTE, b]);
    SeparatedConcat([NOTE, b], second);
    SeparatedConcat([a, NAME_SEPARATOR] + [one], [NOTE, b] + second);
    SeparatedConcat([LC], [a, NAME_SEPARATOR] + [one] + ([NOTE, b] + second));
  }

  lemma AtomYield(l: Lexeme)
    ensures Yield(Atom([], l)) == [l]
  {
  }

  lemma NotedText(f: Features, lib: Doubles)
    ensures Texts(NotedTokens()) == NOTED
  {
    hide Texts, NameToken, DigitToken, Lexical, NameOf, AtomValue;
    TwoMembers(NameToken([0x61]), DigitToken(1), NameToken([0x62]), NameToken([0x63]), DigitToken(2));
    SmallName([0x61], f, lib);
    SmallName([0x62], f, lib);
    SmallName([0x63], f, lib);
    SmallNumber(1, lib);
    SmallNumber(2, lib);
    NotedBytes();
  }

  lemma NotedBytes()
    ensures NOTED == [LBRACE]
            + ([QUOTE] + [0x61] + [QUOTE] + [COLON]
              + ([0x30 + 1] + ([SLASH, STAR, STAR, SLASH] + ([QUOTE] + [0x62] + [QUOTE])
                     + ([QUOTE] + [0x63] + [QUOTE] + [COLON] + ([0x30 + 2] + [RBRACE])))))
  {
  }

  lemma TwoMembers(a: Lexeme, one: Lexeme, b: Lexeme, c: Lexeme, two: Lexeme)
    ensures Texts([LC] + ([a, NAME_SEPARATOR] + [one] + ([NOTE, b] + ([c, NAME_SEPARATOR] + [two] + [RC]))))
         == [LBRACE]
           + (a.text + [COLON] + (one.text + (NOTE.text + b.text + (c.text + [COLON] + (two.text + [RBRACE])))))
  {
    hide Texts;
    var second := [c, NAME_SEPARATOR] + [two] + [RC];
    var first := [a, NAME_SEPARATOR] + [one] + ([NOTE, b] + second);
    MemberText(c, two, [RC]);
    MemberText(a, one, [NOTE, b] + second);
    TextsConcat([NOTE, b], second);
    TextsOfTwo(NOTE, b);
    TextsOfTwo(RC, RC);
    TextsOfTwo(LC, LC);
    TextsConcat([LC], first);
  }

  lemma NotedMeaning(f: Features, lib: Doubles)
    requires f.stackLimit >= 2
    ensures Eval(f, lib, f.stackLimit, Record([], [FirstEntry(), SecondEntry()], false, []))
         == Gives(Obj([Member(Name([0x61]), Int(1)), Member(Name([0x63]), Int(2))]))
  {
    hide NameToken, DigitToken, NameOf, AtomValue;
    SmallName([0x61], f, lib);
    SmallName([0x63], f, lib);
    SmallNumber(1, lib);
    SmallNumber(2, lib);
    assert KeyLess(Name([0x61]), Name([0x63])) by { assert [0x61][..1] == [0x61] && [0x63][..1] == [0x63]; }
    EvalTwo(f, lib, FirstEntry(), SecondEntry(), [0x61], [0x63], Int(1), Int(2));
  }

  lemma EvalTwo(f: Features, lib: Doubles, d: Entry, e: Entry, m: bytes, n: bytes, v: Value, w: Value)
    requires f.stackLimit >= 2 && |m| < KEY_LENGTH_LIMIT && |n| < KEY_LENGTH_LIMIT && KeyLess(Name(m), Name(n))
             && Separates(d)
    requires NameOf(d.name, f, lib) == Some(m) && NameOf(e.name, f, lib) == Some(n)
    requires Eval(f, lib, f.stackLimit - 1, d.val) == Gives(v) && Eval(f, lib, f.stackLimit - 1, e.val) == Gives(w)
    ensures Eval(f, lib, f.stackLimit, Record([], [d, e], false, []))
            == Gives(Obj([Member(Name(m), v), Member(Name(n), w)]))
  {
    hide NameOf, Put, Has, EvalEntries, KeyLess, Separates, LowerBound, Eval;
    EvalRecord(f, lib, [d, e]);
    var room, entries := f.stackLimit - 1, [d, e];
    var one, two := [Member(Name(m), v)], [Member(Name(m), v), Member(Name(n), w)];
    PutAppends([], Name(m), v);
    assert Put([], Name(m), v) == one;
    PutAppends(one, Name(n), w);
    assert Put(one, Name(n), w) == two;
    EvalEntryStep(f, lib, room, entries, 0, false, true, [], m, v);
    EvalEntryStep(f, lib, room, entries, 1, false, m == [], one, n, w);
    EvalEnd(f, lib, room, entries, n == [], two);
  }

  lemma EvalRecord(f: Features, lib: Doubles, entries: seq<Entry>)
    requires f.stackLimit > 0
    ensures Eval(f, lib, f.stackLimit, Record([], entries, false, []))
            == EvalEntries(f, lib, f.stackLimit - 1, entries, 0, false, true, [])
  {
    hide EvalEntries;
  }

  lemma EvalEnd(f: Features, lib: Doubles, room: int, entries: seq<Entry>, nameEmpty: bool, members: seq<Member>)
    ensures EvalEntries(f, lib, room, entries, |entries|, false, nameEmpty, members) == Gives(Obj(members))
  {
  }
}
