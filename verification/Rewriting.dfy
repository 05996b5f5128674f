/** What the reader builds, and that reading, printing and reading again changes nothing. */
module Rewriting {
  import opened Arithmetic
  import opened ByteStrings
  import opened Utf8
  import opened Quoting
  import opened Integers
  import opened Values
  import opened Lexer
  import opened Parser
  import opened Tokens
  import opened RoundTrip
  import opened FastWriter
  import opened StyledWriter

  /** Values as the reader builds them, nesting at most `room` deep: arrays without gaps, objects sorted by short names,
      and numbers that are signed whenever they fit. */
  ghost predicate Built(v: Value, room: int)
  {
    room > 0
    && match v
       case Int(i) => -9223372036854775808 <= i <= 9223372036854775807
       case UInt(u) => 9223372036854775807 < u <= 18446744073709551615
       case Arr(m) => Dense(m) && AllBuilt(m, room - 1)
       case Obj(m) =>
         AllNamed(m) && Sorted(m) && AllBuilt(m, room - 1) && forall i :: 0 <= i < |m| ==> |m[i].key.s| < 1073741824
       case _ => true
  }

  ghost predicate AllBuilt(m: seq<Member>, room: int)
    decreases m
  {
    forall i :: 0 <= i < |m| ==> (assert (m decreases to m[i]); Built(m[i].val, room))
  }

  /** Objects under construction: what readObject has of a value with `room` for its members. */
  ghost predicate Members(m: seq<Member>, room: int)
  {
    AllNamed(m) && Sorted(m) && AllBuilt(m, room) && forall i :: 0 <= i < |m| ==> |m[i].key.s| < 1073741824
  }

  function Room(x: Context, depth: nat): int { x.f.stackLimit + 1 - depth }

  lemma NumberIsBuilt(text: bytes, room: int)
    requires room > 0
    ensures match IntegerValue(text, MAX_INT64) case Some(v) => Built(v, room) case None => true
  {
  }

  lemma ScalarIsBuilt(x: Context, t: Token, cur: Value, room: int)
    requires t.start < t.end <= |x.doc| && (t.kind == String ==> t.start + 2 <= t.end) && room > 0
    ensures Scalar(x, t, cur).Done? ==> Built(Scalar(x, t, cur).value, room)
  {
    hide Decode, IntegerValue;
    NumberIsBuilt(TokenText(x.doc, t), room);
  }

  /** What is read has arrays without gaps, sorted objects, numbers of 64 bits, and keeps the limits. */
  lemma {:induction false} ReadIsBuilt(x: Context, p: nat, depth: nat, cur: Value)
    requires p <= |x.doc|
    ensures var r := ReadValue(x, p, depth, cur);
            r.Done? ==> Built(r.value, Room(x, depth))
    decreases |x.doc| - p, 1
  {
    hide ReadArray, ReadObject, Scalar, Built, Members;
    var t := NextToken(x.doc, x.f, p);
    if depth <= x.f.stackLimit {
      EmptyIsBuilt(Room(x, depth));
      if t.kind == ObjectBegin {
        ObjectIsBuilt(x, t.end, depth, [], true);
      } else if t.kind == ArrayBegin {
        ArrayIsBuilt(x, t.end, depth, [], 0);
      } else if t.kind != EndOfStream && !Unread(x.f, t) {
        ScalarIsBuilt(x, t, cur, Room(x, depth));
      }
    }
  }

  lemma EmptyIsBuilt(room: int)
    requires room > 0
    ensures Built(Null, room) && Dense([]) && AllBuilt([], room - 1) && Members([], room - 1)
  {
  }

  lemma {:induction false} ArrayIsBuilt(x: Context, p: nat, depth: nat, elems: seq<Member>, index: nat)
    requires p <= |x.doc| && depth <= x.f.stackLimit
    requires Dense(elems) && |elems| == index && AllBuilt(elems, Room(x, depth) - 1)
    ensures var r := ReadArray(x, p, depth, elems, index);
            r.Done? ==> Built(r.value, Room(x, depth))
    decreases |x.doc| - p, 2
  {
    hide ReadValue, AfterElement, AllBuilt, Put;
    var q := SkipSpaces(x.doc, p);
    var cur := Slot(elems, Index(index));
    var r := ReadValue(x, q, depth + 1, cur);
    ReadIsBuilt(x, q, depth + 1, cur);
    if r.Done? {
      Appended(elems, r.value, Room(x, depth) - 1);
      AfterElementIsBuilt(x, r.pos, depth, Put(elems, Index(index), r.value), index + 1);
    }
  }

  lemma Appended(elems: seq<Member>, v: Value, room: int)
    requires Dense(elems) && AllBuilt(elems, room) && Built(v, room)
    ensures var m := Put(elems, Index(|elems|), v);
            Dense(m) && |m| == |elems| + 1 && AllBuilt(m, room)
  {
    hide Built, Put;
    PutAppends(elems, Index(|elems|), v);
  }

  lemma {:induction false} AfterElementIsBuilt(x: Context, p: nat, depth: nat, elems: seq<Member>, index: nat)
    requires p <= |x.doc| && depth <= x.f.stackLimit
    requires Dense(elems) && |elems| == index && AllBuilt(elems, Room(x, depth) - 1)
    ensures var r := AfterElement(x, p, depth, elems, index);
            r.Done? ==> Built(r.value, Room(x, depth))
    decreases |x.doc| - p, 0
  {
    hide ReadArray, AllBuilt, Dense;
    var t := SkipCommentRun(x.doc, x.f, ReadToken(x.doc, x.f, p));
    if t.kind == ArraySeparator {
      ArrayIsBuilt(x, t.end, depth, elems, index);
    }
  }

  lemma {:induction false} ObjectIsBuilt(x: Context, p: nat, depth: nat, members: seq<Member>, nameEmpty: bool)
    requires p <= |x.doc| && depth <= x.f.stackLimit && Members(members, Room(x, depth) - 1)
    ensures var r := ReadObject(x, p, depth, members, nameEmpty);
            r.Done? ==> Built(r.value, Room(x, depth))
    decreases |x.doc| - p, 2
  {
    hide ReadMember, AllBuilt, Sorted, MemberName;
    var t := SkipCommentRun(x.doc, x.f, ReadToken(x.doc, x.f, p));
    match MemberName(x, t)
    case BadName(_) =>
    case Named(name) =>
      if !(t.kind == ObjectEnd && (nameEmpty || x.f.allowTrailingCommas)) {
        NameTakesText(x, t);
        MemberIsBuilt(x, p, t, depth, members, name);
      }
  }

  lemma NameTakesText(x: Context, t: Token)
    requires Shaped(x.doc, t) && MemberName(x, t).Named?
    ensures t.start < t.end
  {
  }

  lemma {:induction false} MemberIsBuilt(x: Context, p: nat, t: Token, depth: nat, members: seq<Member>, name: bytes)
    requires p <= t.start < t.end <= |x.doc| && depth <= x.f.stackLimit && Members(members, Room(x, depth) - 1)
    ensures var r := ReadMember(x, p, t, depth, members, name);
            r.Done? ==> Built(r.value, Room(x, depth))
    decreases |x.doc| - p, 1
  {
    hide ReadValue, AfterMember, Members, Put, Slot;
    var colon := ReadToken(x.doc, x.f, t.end);
    if |name| < KEY_LENGTH_LIMIT && colon.kind == MemberSeparator {
      var cur := Slot(members, Name(name));
      ReadIsBuilt(x, colon.end, depth + 1, cur);
      var r := ReadValue(x, colon.end, depth + 1, cur);
      if r.Done? {
        MemberAdded(members, name, r.value, Room(x, depth) - 1);
        AfterMemberIsBuilt(x, r.pos, depth, Put(members, Name(name), r.value), name == []);
      }
    }
  }

  lemma MemberAdded(m: seq<Member>, name: bytes, v: Value, room: int)
    requires Members(m, room) && Built(v, room) && |name| < 1073741824
    ensures Members(Put(m, Name(name), v), room)
  {
    hide Built;
    PutSorted(m, Name(name), v);
    var n, p := Put(m, Name(name), v), LowerBound(m, Name(name));
    forall i | 0 <= i < |n|
      ensures n[i].key.Name? && |n[i].key.s| < 1073741824 && Built(n[i].val, room) {
      assert n[i] == Member(Name(name), v) || n[i] in m;
    }
  }

  lemma {:induction false} AfterMemberIsBuilt(x: Context, p: nat, depth: nat, members: seq<Member>, nameEmpty: bool)
    requires p <= |x.doc| && depth <= x.f.stackLimit && Members(members, Room(x, depth) - 1)
    ensures var r := AfterMember(x, p, depth, members, nameEmpty);
            r.Done? ==> Built(r.value, Room(x, depth))
    decreases |x.doc| - p, 0
  {
    hide ReadObject, AllBuilt, Sorted;
    var comma := ReadToken(x.doc, x.f, p);
    var after := SkipCommentRun(x.doc, x.f, comma);
    if (comma.kind == ArraySeparator || comma.kind == Comment) && after.kind != ObjectEnd {
      ObjectIsBuilt(x, after.end, depth, members, nameEmpty);
    }
  }

  // ---------------------------------------------------------------- what is built can be printed

  lemma {:induction false} BuiltIsStored(v: Value, room: int)
    requires Built(v, room)
    ensures Stored(v)
  {
    match v
    case Arr(m) => AllBuiltStored(m, room - 1);
    case Obj(m) => AllBuiltStored(m, room - 1);
    case _ =>
  }

  lemma {:induction false} AllBuiltStored(m: seq<Member>, room: int)
    requires AllBuilt(m, room)
    ensures AllStored(m) && (Dense(m) ==> Indexed(m) && Sorted(m))
    decreases m
  {
    forall i | 0 <= i < |m| ensures Stored(m[i].val) {
      assert (m decreases to m[i]);
      BuiltIsStored(m[i].val, room);
    }
  }

  /** Every string and name of the value is well-formed UTF-8. */
  ghost predicate Sound(v: Value)
  {
    match v
    case Str(b) => WellFormed(b)
    case Arr(m) => AllSound(m)
    case Obj(m) => AllSound(m) && forall i :: 0 <= i < |m| && m[i].key.Name? ==> WellFormed(m[i].key.s)
    case _ => true
  }

  ghost predicate AllSound(m: seq<Member>)
    decreases m
  {
    forall i :: 0 <= i < |m| ==> (assert (m decreases to m[i]); Sound(m[i].val))
  }

  /** A value that was built comes back unchanged exactly when UTF-8 is kept or its strings are well-formed. */
  lemma {:induction false} BuiltIsFaithful(v: Value, room: int, s: Style, f: Features)
    requires Built(v, room) && !s.dropNulls
    ensures Faithful(v, s, f) <==> s.emitUtf8 || Sound(v)
  {
    hide WellFormed;
    match v
    case Arr(m) => AllBuiltFaithful(m, room - 1, s, f);
    case Obj(m) => AllBuiltFaithful(m, room - 1, s, f);
    case _ =>
  }

  lemma {:induction false} AllBuiltFaithful(m: seq<Member>, room: int, s: Style, f: Features)
    requires AllBuilt(m, room) && !s.dropNulls
    ensures AllFaithful(m, s, f) <==> s.emitUtf8 || AllSound(m)
    ensures Dense(m) ==> Indexed(m) && Kept(m, s, f) == ArraySize(m)
    decreases m
  {
    forall i | 0 <= i < |m| ensures Faithful(m[i].val, s, f) <==> s.emitUtf8 || Sound(m[i].val) {
      assert (m decreases to m[i]);
      BuiltIsFaithful(m[i].val, room, s, f);
    }
  }

  /** A value that was built and comes back unchanged keeps the limits again. */
  lemma {:induction false} BuiltWithin(v: Value, room: int, s: Style, f: Features)
    requires Built(v, room) && Printable(v) && Faithful(v, s, f) && !s.dropNulls
    ensures WithinLimits(v, s, f, room)
    decreases Size(v), 0
  {
    match v
    case Arr(m) => ElementsBuiltWithin(m, 0, room - 1, s, f);
    case Obj(m) => MembersBuiltWithin(m, 0, room - 1, s, f);
    case _ =>
  }

  lemma {:induction false} ElementsBuiltWithin(m: seq<Member>, i: nat, room: int, s: Style, f: Features)
    requires Dense(m) && AllBuilt(m, room) && Sorted(m) && AllPrintable(m) && AllFaithful(m, s, f) && !s.dropNulls
    requires Indexed(m) && i <= Kept(m, s, f)
    ensures ElementsWithin(m, i, s, f, room)
    decreases MapSize(m), Kept(m, s, f) - i
  {
    hide Slot, Sorted, WithinLimits, Built;
    DenseSize(m);
    if i < Kept(m, s, f) {
      DenseSlot(m, i);
      SlotIsPart(m, Index(i));
      BuiltWithin(Slot(m, Index(i)), room, s, f);
      ElementsBuiltWithin(m, i + 1, room, s, f);
    }
  }

  lemma {:induction false} MembersBuiltWithin(m: seq<Member>, i: nat, room: int, s: Style, f: Features)
    requires Members(m, room) && AllPrintable(m) && AllFaithful(m, s, f) && !s.dropNulls && i <= |m|
    requires forall j :: 0 <= j < |m| ==> s.emitUtf8 || WellFormed(m[j].key.s)
    ensures MembersWithin(m, i, s, f, room)
    decreases MapSize(m), |m| - i
  {
    hide WithinLimits, Built, Sorted, WellFormed;
    if i < |m| {
      MemberSize(m, i);
      RepairedExactly(m[i].key.s, s.emitUtf8);
      BuiltWithin(m[i].val, room, s, f);
      MembersBuiltWithin(m, i + 1, room, s, f);
    }
  }

  // ---------------------------------------------------------------- reading, printing and reading again

  /** A document was accepted with a value that holds no doubles, and a text spells the value: under the same features
      the text is accepted with the same value exactly when UTF-8 is kept or all strings are well-formed. */
  lemma SpelledAgain(x: Context, root: Value, y: Context, root': Value, s: Style)
    requires var r := ParseDocument(x, root); r.Parsed? && r.errors == [] && RealFree(r.root)
    requires Printable(ParseDocument(x, root).root) && !s.dropNulls && y.f == x.f
    requires Spells(y.doc, TokensOf(ParseDocument(x, root).root, s))
    ensures var v := ParseDocument(x, root).root;
            ParseDocument(y, root') == Parsed(v, []) <==> s.emitUtf8 || Sound(v)
  {
    hide *;
    var v, f := ParseDocument(x, root).root, x.f;
    AcceptedIsBuilt(x, root);
    BuiltIsFaithful(v, f.stackLimit, s, f);
    ParseSpelled(y, root', v, s);
    RereadExactly(v, s, f);
    ChecksExactly(v, s, f, f.stackLimit);
    if Faithful(v, s, f) {
      FaithfulIsDistinct(v, s, f);
      NoneMissed(v, s, f);
      BuiltWithin(v, f.stackLimit, s, f);
    }
    OutcomesMean(ParseDocument(y, root'), First(Checks(v, s, f, f.stackLimit)), f, Reread(v, s, f), v);
  }

  lemma OutcomesMean(r: ParseResult, first: Check, f: Features, w: Value, v: Value)
    requires Outcomes(r, first, f, w) && (!f.strictRoot || v.Arr? || v.Obj?)
    ensures r == Parsed(v, []) <==> first == Fine && w == v
  {
  }

  /** The value of an accepted document is built within the stack limit, and strictRoot does not stand against it. */
  lemma AcceptedIsBuilt(x: Context, root: Value)
    requires var r := ParseDocument(x, root); r.Parsed? && r.errors == []
    ensures var v := ParseDocument(x, root).root;
            Built(v, x.f.stackLimit) && Stored(v) && (!x.f.strictRoot || v.Arr? || v.Obj?)
  {
    hide Built, Stored, ReadValue, NextToken;
    ReadIsBuilt(x, BomLength(x.doc, x.f), 1, root);
    BuiltIsStored(ParseDocument(x, root).root, x.f.stackLimit);
  }

  /** For every accepted document without doubles: the text of FastWriter is accepted under the same features with the
      same value exactly when all strings and names are well-formed. */
  lemma RewrittenExactly(x: Context, root: Value, o: Options, lf: bool, root': Value)
    requires var r := ParseDocument(x, root); r.Parsed? && r.errors == [] && RealFree(r.root)
    requires !o.dropNullPlaceholders
    ensures var v := ParseDocument(x, root).root;
            Stored(v)
            && (ParseDocument(Context(Document(v, o, lf), x.f, o.lib), root') == Parsed(v, []) <==> Sound(v))
  {
    hide ParseDocument, Sound, RealFree, Stored, Spells, TokensOf, FastText;
    AcceptedIsBuilt(x, root);
    var v := ParseDocument(x, root).root;
    DocumentSpells(v, o, lf);
    SpelledAgain(x, root, Context(Document(v, o, lf), x.f, o.lib), root', StyleOf(o));
  }

  /** The same for every layout of the styled writer, and without a condition when it keeps UTF-8. */
  lemma RestyledExactly(x: Context, root: Value, l: Layout, ending: bytes, root': Value)
    requires var r := ParseDocument(x, root); r.Parsed? && r.errors == [] && RealFree(r.root)
    requires Sensible(l) && AllSpace(ending) && l.nullSymbol != []
    ensures var v := ParseDocument(x, root).root;
            Printable(v)
            && (ParseDocument(Context(StyledDocument(v, l, ending), x.f, x.lib), root') == Parsed(v, [])
                <==> l.emitUtf8 || Sound(v))
  {
    hide ParseDocument, Sound, RealFree, Stored, Spells, TokensOf, StyledText;
    AcceptedIsBuilt(x, root);
    var v := ParseDocument(x, root).root;
    StyledDocumentSpells(v, l, ending);
    SpelledAgain(x, root, Context(StyledDocument(v, l, ending), x.f, x.lib), root', ModeOf(l));
  }
}
