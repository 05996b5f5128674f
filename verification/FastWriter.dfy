/** FastWriter: a value on one line without white space. */
module FastWriter {
  import opened ByteStrings
  import opened Quoting
  import opened Integers
  import opened Values
  import opened Lexer
  import opened Parser
  import opened Tokens
  import opened Grammar
  import opened RoundTrip

  datatype Options = Options(yamlCompatibility: bool, dropNullPlaceholders: bool, lib: Doubles)

  function NullText(o: Options): bytes { if o.dropNullPlaceholders then [] else NULL_TEXT }

  function ColonText(o: Options): bytes { if o.yamlCompatibility then [COLON, SPACE] else [COLON] }

  /** The tokens of the text: strings lose their UTF-8. */
  function StyleOf(o: Options): Style { Style(false, o.dropNullPlaceholders) }

  /** The text of a value. A missing array element is printed as null. */
  function FastText(v: Value, o: Options): bytes
    requires Stored(v)
    decreases Size(v), 0
  {
    match v
    case Null => NullText(o)
    case Int(i) => IntText(i)
    case UInt(u) => IntText(u)
    case Real(bits) => o.lib.show(bits)
    case Str(s) => Quoted(s, false)
    case Bool(b) => if b then TRUE_TEXT else FALSE_TEXT
    case Arr(m) => [LBRACKET] + ElementTexts(m, 0, o) + [RBRACKET]
    case Obj(m) => [LBRACE] + MemberTexts(m, 0, o) + [RBRACE]
  }

  function ElementTexts(m: seq<Member>, i: nat, o: Options): bytes
    requires Indexed(m) && AllStored(m) && i <= ArraySize(m)
    decreases MapSize(m), ArraySize(m) - i
  {
    if i == ArraySize(m) then []
    else
      SlotIsPart(m, Index(i));
      FastText(Slot(m, Index(i)), o) + (if i + 1 < ArraySize(m) then [COMMA] else []) + ElementTexts(m, i + 1, o)
  }

  function MemberTexts(m: seq<Member>, i: nat, o: Options): bytes
    requires AllNamed(m) && AllStored(m) && i <= |m|
    decreases MapSize(m), |m| - i
  {
    if i == |m| then []
    else
      MemberSize(m, i);
      Quoted(m[i].key.s, false) + ColonText(o) + FastText(m[i].val, o)
      + (if i + 1 < |m| then [COMMA] else []) + MemberTexts(m, i + 1, o)
  }

  lemma ElementTextsStep(m: seq<Member>, i: nat, o: Options)
    requires Indexed(m) && AllStored(m) && i < ArraySize(m)
    ensures Stored(Slot(m, Index(i)))
    ensures ElementTexts(m, i, o) ==
            FastText(Slot(m, Index(i)), o)
              + ((if i + 1 < ArraySize(m) then [COMMA] else []) + ElementTexts(m, i + 1, o))
  {
    hide FastText, Slot;
    SlotIsPart(m, Index(i));
  }

  lemma ElementTextsEnd(m: seq<Member>, o: Options)
    requires Indexed(m) && AllStored(m)
    ensures ElementTexts(m, ArraySize(m), o) == []
  {
  }

  lemma MemberTextsStep(m: seq<Member>, i: nat, o: Options)
    requires AllNamed(m) && AllStored(m) && i < |m|
    ensures MemberTexts(m, i, o) ==
            (Quoted(m[i].key.s, false) + ColonText(o))
            + (FastText(m[i].val, o) + ((if i + 1 < |m| then [COMMA] else []) + MemberTexts(m, i + 1, o)))
  {
    hide FastText, Quoted, ColonText;
  }

  lemma MemberTextsEnd(m: seq<Member>, o: Options)
    requires AllNamed(m) && AllStored(m)
    ensures MemberTexts(m, |m|, o) == []
  {
  }

  function TextsOf(m: seq<Member>, o: Options): (texts: seq<bytes>)
    requires Indexed(m) && AllStored(m)
    ensures |texts| == ArraySize(m)
  {
    seq(ArraySize(m), i requires 0 <= i < ArraySize(m) => SlotIsPart(m, Index(i)); FastText(Slot(m, Index(i)), o))
  }

  function NamedTextsOf(m: seq<Member>, o: Options): (texts: seq<bytes>)
    requires AllNamed(m) && AllStored(m)
    ensures |texts| == |m|
  {
    seq(|m|, i requires 0 <= i < |m| =>
      Quoted(m[i].key.s, false) + (if o.yamlCompatibility then Ascii(": ") else Ascii(":")) + FastText(m[i].val, o))
  }

  /** The text of an array is that of its elements, each in its place, between commas and brackets. */
  lemma ArrayTextExactly(m: seq<Member>, o: Options)
    requires Stored(Arr(m))
    ensures FastText(Arr(m), o) == Ascii("[") + Join(TextsOf(m, o), Ascii(",")) + Ascii("]")
  {
    hide ElementTexts, Join, TextsOf, AllStored, Sorted;
    ElementsJoin(m, 0, o);
    assert TextsOf(m, o)[0..] == TextsOf(m, o);
  }

  /** The text of an object is that of its members, each in its place, between commas and brackets. */
  lemma ObjectTextExactly(m: seq<Member>, o: Options)
    requires Stored(Obj(m))
    ensures FastText(Obj(m), o) == Ascii("{") + Join(NamedTextsOf(m, o), Ascii(",")) + Ascii("}")
  {
    hide MemberTexts, Join, NamedTextsOf, AllStored, Sorted;
    MembersJoin(m, 0, o);
    assert NamedTextsOf(m, o)[0..] == NamedTextsOf(m, o);
  }

  lemma KeywordTextsExactly(o: Options)
    ensures FastText(Bool(true), o) == Ascii("true") && FastText(Bool(false), o) == Ascii("false")
    ensures FastText(Null, o) == if o.dropNullPlaceholders then [] else Ascii("null")
  {
  }

  lemma {:induction false} ElementsJoin(m: seq<Member>, i: nat, o: Options)
    requires Indexed(m) && AllStored(m) && i <= ArraySize(m)
    ensures ElementTexts(m, i, o) == Join(TextsOf(m, o)[i..], Ascii(","))
    decreases ArraySize(m) - i
  {
    hide Slot, FastText, ElementTexts;
    ElementTextsEnd(m, o);
    if i < ArraySize(m) {
      var texts := TextsOf(m, o);
      ElementTextsStep(m, i, o);
      ElementsJoin(m, i + 1, o);
      assert texts[i..][1..] == texts[i + 1..] && texts[i..][0] == FastText(Slot(m, Index(i)), o);
    }
  }

  lemma ColonIs(o: Options)
    ensures ColonText(o) == (if o.yamlCompatibility then Ascii(": ") else Ascii(":")) && Ascii(",") == [COMMA]
  {
  }

  lemma {:induction false} MembersJoin(m: seq<Member>, i: nat, o: Options)
    requires AllNamed(m) && AllStored(m) && i <= |m|
    ensures MemberTexts(m, i, o) == Join(NamedTextsOf(m, o)[i..], Ascii(","))
    decreases |m| - i
  {
    hide Quoted, FastText, MemberTexts, ColonText, Ascii;
    MemberTextsEnd(m, o);
    ColonIs(o);
    if i < |m| {
      var texts := NamedTextsOf(m, o);
      MemberTextsStep(m, i, o);
      MembersJoin(m, i + 1, o);
      assert texts[i..][1..] == texts[i + 1..];
      assert texts[i..][0] == Quoted(m[i].key.s, false) + ColonText(o) + FastText(m[i].val, o);
    }
  }

  class Writer {
    var document: bytes
    var yamlCompatibility: bool
    var dropNullPlaceholders: bool
    var omitEndingLineFeed: bool
    const lib: Doubles

    constructor (lib: Doubles)
      ensures this.lib == lib && !yamlCompatibility && !dropNullPlaceholders && !omitEndingLineFeed
    {
      this.lib := lib;
      document, yamlCompatibility, dropNullPlaceholders, omitEndingLineFeed := [], false, false, false;
    }

    method EnableYamlCompatibility()
      modifies this`yamlCompatibility
      ensures yamlCompatibility
    {
      yamlCompatibility := true;
    }

    method DropNullPlaceholders()
      modifies this`dropNullPlaceholders
      ensures dropNullPlaceholders
    {
      dropNullPlaceholders := true;
    }

    method OmitEndingLineFeed()
      modifies this`omitEndingLineFeed
      ensures omitEndingLineFeed
    {
      omitEndingLineFeed := true;
    }

    ghost function Opts(): Options
      reads this`yamlCompatibility, this`dropNullPlaceholders
    {
      Options(yamlCompatibility, dropNullPlaceholders, lib)
    }

    method Write(root: Value) returns (text: bytes)
      requires Stored(root)
      modifies this`document
      ensures text == document == FastText(root, Opts()) + (if omitEndingLineFeed then [] else [LF])
    {
      hide FastText;
      document := [];
      WriteValue(root);
      assert [] + FastText(root, Opts()) == FastText(root, Opts());
      if !omitEndingLineFeed {
        document := document + [LF];
      }
      text := document;
    }

    method WriteValue(value: Value)
      requires Stored(value)
      modifies this`document
      ensures document == old(document) + FastText(value, Opts())
      decreases Size(value), 1
    {
      hide ElementTexts, MemberTexts, Quoted, IntText, AllStored, Sorted;
      match value
      case Null =>
        if !dropNullPlaceholders {
          document := document + NULL_TEXT;
        }
      case Int(i) =>
        var text := ValueToStringInt(i);
        document := document + text;
      case UInt(u) =>
        var text := ValueToStringUint(u);
        document := document + text;
      case Real(bits) => document := document + lib.show(bits);
      case Str(s) =>
        var text := ValueToQuotedString(s, false);
        document := document + text;
      case Bool(b) => document := document + if b then TRUE_TEXT else FALSE_TEXT;
      case Arr(m) => WriteElements(m);
      case Obj(m) => WriteMembers(m);
    }

    /** The loop over the indices of an array; a missing element reads as null. */
    method WriteElements(m: seq<Member>)
      requires Indexed(m) && AllStored(m)
      modifies this`document
      ensures document == old(document) + ([LBRACKET] + ElementTexts(m, 0, Opts()) + [RBRACKET])
      decreases MapSize(m), 2
    {
      hide FastText, Slot, ElementTexts, AllStored;
      document := document + [LBRACKET];
      var size := ArraySize(m);
      var index := 0;
      while index < size
        invariant index <= size
        invariant document + (if 0 < index < size then [COMMA] else []) + ElementTexts(m, index, Opts())
                  == old(document) + [LBRACKET] + ElementTexts(m, 0, Opts())
      {
        ElementTextsStep(m, index, Opts());
        SlotIsPart(m, Index(index));
        if index > 0 {
          document := document + [COMMA];
        }
        WriteValue(Slot(m, Index(index)));
        index := index + 1;
      }
      ElementTextsEnd(m, Opts());
      assert document + [] + [] == document;
      document := document + [RBRACKET];
    }

    /** The loop over the sorted names of an object. */
    method WriteMembers(m: seq<Member>)
      requires AllNamed(m) && Sorted(m) && AllStored(m)
      modifies this`document
      ensures document == old(document) + ([LBRACE] + MemberTexts(m, 0, Opts()) + [RBRACE])
      decreases MapSize(m), 2
    {
      hide FastText, Quoted, LowerBound, MemberTexts, ColonText, Sorted;
      document := document + [LBRACE];
      var i := 0;
      while i < |m|
        invariant i <= |m|
        invariant document + (if 0 < i < |m| then [COMMA] else []) + MemberTexts(m, i, Opts())
                  == old(document) + [LBRACE] + MemberTexts(m, 0, Opts())
      {
        MemberTextsStep(m, i, Opts());
        if i > 0 {
          document := document + [COMMA];
        }
        WriteMember(m, i);
        i := i + 1;
      }
      MemberTextsEnd(m, Opts());
      assert document + [] + [] == document;
      document := document + [RBRACE];
    }

    /** A name, the colon and the value that is found under the name. */
    method WriteMember(m: seq<Member>, i: nat)
      requires AllNamed(m) && Sorted(m) && AllStored(m) && i < |m|
      modifies this`document
      ensures document == old(document) + (Quoted(m[i].key.s, false) + ColonText(Opts())) + FastText(m[i].val, Opts())
      decreases MapSize(m), 1
    {
      hide FastText, Quoted, Sorted;
      var name := ValueToQuotedString(m[i].key.s, false);
      document := document + (name + if yamlCompatibility then [COLON, SPACE] else [COLON]);
      FindsKey(m, m[i].key, i);
      MemberSize(m, i);
      WriteValue(Slot(m, m[i].key));
    }
  }

  // ---------------------------------------------------------------- what the text spells

  /** The text of a value spells its tokens. */
  lemma {:induction false} TextSpells(v: Value, o: Options)
    requires Printable(v)
    ensures Spells(FastText(v, o), TokensOf(v, StyleOf(o))) && Solid(TokensOf(v, StyleOf(o)))
    decreases Size(v), 0
  {
    hide Spells, Quoted, IntText, Strip, ElementTexts, ElementTokens, MemberTexts, MemberTokens, AllStored,
         AllRealFree, Sorted;
    TokensSeparated(v, StyleOf(o));
    SeparatedIsSolid(TokensOf(v, StyleOf(o)));
    if v.Arr? {
      ElementTextsSpell(v.elems, 0, o);
      Bracketed(LB, ElementTexts(v.elems, 0, o), ElementTokens(v.elems, 0, StyleOf(o)), RB);
    } else if v.Obj? {
      MemberTextsSpell(v.members, 0, o);
      Bracketed(LC, MemberTexts(v.members, 0, o), MemberTokens(v.members, 0, StyleOf(o)), RC);
    } else if v.Null? && o.dropNullPlaceholders {
      SpellsNothing();
    } else {
      SpellsOne(TokensOf(v, StyleOf(o))[0]);
    }
  }

  lemma SeparatedIsSolid(t: seq<Lexeme>)
    requires Separated(t)
    ensures Solid(t)
  {
    forall i | 0 <= i < |t| ensures t[i].text != [] && !IsSpace(t[i].text[0]) {
      LexicalIsSolid(t[i]);
    }
  }

  lemma Bracketed(open: Lexeme, s: bytes, t: seq<Lexeme>, close: Lexeme)
    requires Spells(s, t) && Solid(t) && Solid([open]) && Solid([close])
    ensures Spells(open.text + s + close.text, [open] + t + [close])
  {
    hide Spells;
    SpellsOne(open);
    SpellsOne(close);
    SpellsAppend(open.text, [open], s, t);
    SpellsAppend(open.text + s, [open] + t, close.text, [close]);
  }

  lemma Joined(s: bytes, t: seq<Lexeme>, comma: bool, s': bytes, t': seq<Lexeme>)
    requires Spells(s, t) && Solid(t) && Spells(s', t') && Solid(t')
    ensures Spells(s + (if comma then [COMMA] else []) + s', t + (if comma then [SEPARATOR] else []) + t')
    ensures Solid(t + (if comma then [SEPARATOR] else []) + t')
  {
    hide Spells, Solid;
    var c: bytes, d := [], [];
    CommaSpells();
    if comma {
      c, d := [COMMA], [SEPARATOR];
    }
    SpellsAppend(s, t, c, d);
    SolidConcat(t, d);
    SpellsAppend(s + c, t + d, s', t');
    SolidConcat(t + d, t');
  }

  lemma SolidConcat(a: seq<Lexeme>, b: seq<Lexeme>)
    requires Solid(a) && Solid(b)
    ensures Solid(a + b)
  {
  }

  lemma CommaSpells()
    ensures Spells([COMMA], [SEPARATOR]) && Solid([SEPARATOR]) && Spells([], []) && Solid([])
  {
    SpellsOne(SEPARATOR);
  }

  lemma SpellsNothing()
    ensures Spells([], [])
  {
  }

  lemma {:induction false} ElementTextsSpell(m: seq<Member>, i: nat, o: Options)
    requires Indexed(m) && AllPrintable(m) && i <= ArraySize(m)
    ensures Spells(ElementTexts(m, i, o), ElementTokens(m, i, StyleOf(o))) && Solid(ElementTokens(m, i, StyleOf(o)))
    decreases MapSize(m), ArraySize(m) - i
  {
    hide Spells, FastText, TokensOf, Slot, AllStored, AllRealFree;
    if i == ArraySize(m) {
      SpellsNothing();
    } else {
      SlotIsPart(m, Index(i));
      var e := Slot(m, Index(i));
      TextSpells(e, o);
      ElementTextsSpell(m, i + 1, o);
      Joined(FastText(e, o), TokensOf(e, StyleOf(o)), i + 1 < ArraySize(m), ElementTexts(m, i + 1, o),
             ElementTokens(m, i + 1, StyleOf(o)));
    }
  }

  lemma ColonSpells(name: bytes, o: Options)
    ensures Spells(Quoted(name, false) + ColonText(o), [Lexeme(String, Quoted(name, false)), NAME_SEPARATOR])
    ensures Solid([Lexeme(String, Quoted(name, false)), NAME_SEPARATOR])
  {
    hide Spells, Quoted, Lexical;
    var l := Lexeme(String, Quoted(name, false));
    QuotedIsLexical(name, false);
    LexicalIsSolid(l);
    SpellsOne(l);
    SpellsOne(NAME_SEPARATOR);
    SpellsSpace([SPACE]);
    SpellsAppend([COLON], [NAME_SEPARATOR], [SPACE], []);
    assert [COLON] + [SPACE] == [COLON, SPACE];
    assert [NAME_SEPARATOR] + [] == [NAME_SEPARATOR];
    SpellsAppend(l.text, [l], ColonText(o), [NAME_SEPARATOR]);
    assert [l] + [NAME_SEPARATOR] == [l, NAME_SEPARATOR];
  }

  lemma {:induction false} MemberTextsSpell(m: seq<Member>, i: nat, o: Options)
    requires AllNamed(m) && AllPrintable(m) && i <= |m|
    ensures Spells(MemberTexts(m, i, o), MemberTokens(m, i, StyleOf(o))) && Solid(MemberTokens(m, i, StyleOf(o)))
    decreases MapSize(m), |m| - i
  {
    hide Spells, FastText, TokensOf, Quoted, ColonText;
    if i == |m| {
      SpellsNothing();
    } else {
      MemberSize(m, i);
      ColonSpells(m[i].key.s, o);
      TextSpells(m[i].val, o);
      MemberTextsSpell(m, i + 1, o);
      var head := Quoted(m[i].key.s, false) + ColonText(o);
      var tokens := [Lexeme(String, Quoted(m[i].key.s, false)), NAME_SEPARATOR];
      SpellsAppend(head, tokens, FastText(m[i].val, o), TokensOf(m[i].val, StyleOf(o)));
      Joined(head + FastText(m[i].val, o), tokens + TokensOf(m[i].val, StyleOf(o)), i + 1 < |m|,
             MemberTexts(m, i + 1, o), MemberTokens(m, i + 1, StyleOf(o)));
    }
  }

  // ---------------------------------------------------------------- main results

  function Document(v: Value, o: Options, lf: bool): bytes
    requires Stored(v)
  {
    FastText(v, o) + if lf then [LF] else []
  }

  lemma DocumentSpells(v: Value, o: Options, lf: bool)
    requires Printable(v)
    ensures Spells(Document(v, o, lf), TokensOf(v, StyleOf(o)))
  {
    hide FastText, Spells, TokensOf;
    TextSpells(v, o);
    SpellsSpace(if lf then [LF] else []);
    SpellsAppend(FastText(v, o), TokensOf(v, StyleOf(o)), if lf then [LF] else [], []);
    assert TokensOf(v, StyleOf(o)) + [] == TokensOf(v, StyleOf(o));
  }

  /** Document round trip, for every value without doubles, every option and every feature setting: the document is
      accepted if and only if the limits are kept, no names collide that may not, no dropped null is missed, and
      strictRoot does not stand against the root; then the value comes back, unchanged exactly when it is faithful.
      Otherwise the first check that fails tells whether parse throws. A root that was dropped is never accepted. */
  lemma DocumentRoundTrip(v: Value, o: Options, f: Features, lf: bool, root: Value)
    requires Printable(v)
    ensures var r := ParseDocument(Context(Document(v, o, lf), f, o.lib), root);
            var s := StyleOf(o);
            var within, distinct := WithinLimits(v, s, f, f.stackLimit), f.rejectDupKeys ==> DistinctNames(v, s, f);
            var first := First(Checks(v, s, f, f.stackLimit));
            && (if v.Null? && o.dropNullPlaceholders then r.ParseThrew?
               || r.errors != [] else Outcomes(r, first, f, Reread(v, s, f)))
            && (first == Fine <==> within && distinct && NullsExpected(v, s, f))
            && (Reread(v, s, f) == v <==> Faithful(v, s, f)) && (Faithful(v, s, f) ==> distinct)
  {
    hide FastText, Spells, TokensOf, ParseDocument, WithinLimits, DistinctNames, NullsExpected, Checks, First,
         Outcomes, Reread, Faithful, Stored, RealFree;
    var x, s := Context(Document(v, o, lf), f, o.lib), StyleOf(o);
    if v.Null? && o.dropNullPlaceholders {
      DroppedRoot(o, lf);
      BlankDocument(x, root);
      ChecksExactly(v, s, f, f.stackLimit);
    } else {
      DocumentSpells(v, o, lf);
      ParseSpelled(x, root, v, s);
    }
    RereadExactly(v, s, f);
    if Faithful(v, s, f) {
      FaithfulIsDistinct(v, s, f);
    }
  }

  lemma DroppedRoot(o: Options, lf: bool)
    requires o.dropNullPlaceholders
    ensures AllSpace(Document(Null, o, lf))
  {
  }

  /** Without dropped nulls, or with a reader that expects them, the condition is about the reader's limits and
      strictRoot alone, for a faithful value: it comes back as it was. */
  lemma FaithfulRoundTrip(v: Value, o: Options, f: Features, lf: bool, root: Value)
    requires Printable(v) && Faithful(v, StyleOf(o), f) && !(v.Null? && o.dropNullPlaceholders)
    requires o.dropNullPlaceholders ==> f.allowDroppedNullPlaceholders
    ensures var r := ParseDocument(Context(Document(v, o, lf), f, o.lib), root);
            if WithinLimits(v, StyleOf(o), f, f.stackLimit)
            then r.Parsed? && r.root == v && (r.errors == [] <==> !f.strictRoot || v.Arr? || v.Obj?) else r.ParseThrew?
  {
    hide FastText, ParseDocument, WithinLimits, DistinctNames, NullsExpected, Checks, First, Reread, Faithful, Stored,
         RealFree;
    DocumentRoundTrip(v, o, f, lf, root);
    NoneMissed(v, StyleOf(o), f);
    ChecksExactly(v, StyleOf(o), f, f.stackLimit);
  }

  /** The array of one null is printed like the empty array, and comes back as that. */
  lemma LoneNullIsLost(o: Options, f: Features)
    requires o.dropNullPlaceholders
    ensures var v := Arr([Member(Index(0), Null)]);
            Printable(v) && FastText(v, o) == [LBRACKET, RBRACKET] && Reread(v, StyleOf(o), f) == Arr([])
  {
    var m := [Member(Index(0), Null)];
    FindsKey(m, Index(0), 0);
    SlotIsPart(m, Index(0));
    assert ElementTexts(m, 1, o) == [];
    assert ElementTexts(m, 0, o) == [];
  }
}
