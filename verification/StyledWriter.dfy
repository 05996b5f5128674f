/** BuiltStyledStreamWriter on values without comments: the text of FastWriter, laid out with white space. */
module StyledWriter {
  import opened ByteStrings
  import opened Quoting
  import opened Integers
  import opened Values
  import opened Lexer
  import opened Parser
  import opened Tokens
  import opened RoundTrip
  import opened FastWriter

  const RIGHT_MARGIN: nat := 74

  /** The settings; `allComments` is CommentStyle::All rather than None. */
  datatype Layout = Layout(indentation: bytes, allComments: bool, colonSymbol: bytes, nullSymbol: bytes, emitUtf8: bool)

  function ModeOf(l: Layout): Style { Style(l.emitUtf8, l.nullSymbol == []) }

  // ---------------------------------------------------------------- the layout of a value

  /** A value that is written as one piece: a scalar or an empty container. */
  predicate OnePiece(v: Value)
  {
    (v.Arr? ==> v.elems == []) && (v.Obj? ==> v.members == [])
  }

  function Piece(v: Value, l: Layout): bytes
    requires Printable(v) && OnePiece(v)
  {
    match v
    case Null => l.nullSymbol
    case Int(i) => IntText(i)
    case UInt(u) => IntText(u)
    case Str(s) => Quoted(s, l.emitUtf8)
    case Bool(b) => if b then TRUE_TEXT else FALSE_TEXT
    case Arr(_) => [LBRACKET, RBRACKET]
    case Obj(_) => [LBRACE, RBRACE]
  }

  predicate AllPieces(m: seq<Member>)
    requires Indexed(m)
  {
    forall i :: 0 <= i < ArraySize(m) ==> OnePiece(Slot(m, Index(i)))
  }

  function PieceAt(m: seq<Member>, i: nat, l: Layout): bytes
    requires Indexed(m) && AllPrintable(m) && AllPieces(m) && i < ArraySize(m)
  {
    SlotIsPart(m, Index(i));
    Piece(Slot(m, Index(i)), l)
  }

  function PiecesLength(m: seq<Member>, n: nat, l: Layout): nat
    requires Indexed(m) && AllPrintable(m) && AllPieces(m) && n <= ArraySize(m)
  {
    if n == 0 then 0 else PiecesLength(m, n - 1, l) + |PieceAt(m, n - 1, l)|
  }

  /** The length of the array on one line, with brackets and commas. */
  function LineLength(m: seq<Member>, l: Layout): nat
    requires Indexed(m) && AllPrintable(m) && AllPieces(m) && m != []
  {
    4 + (ArraySize(m) - 1) * 2 + PiecesLength(m, ArraySize(m), l)
  }

  /** An array gets many lines when comments are on, when it has many elements or one that is no single piece, or when
      the one line would reach the right margin. */
  predicate ManyLines(m: seq<Member>, l: Layout)
    requires Indexed(m) && AllPrintable(m) && m != []
  {
    l.allComments || ArraySize(m) * 3 >= RIGHT_MARGIN || !AllPieces(m) || LineLength(m, l) >= RIGHT_MARGIN
  }

  /** A new line, unless there is no indentation. */
  function Break(l: Layout, indent: bytes): bytes { if l.indentation == [] then [] else [LF] + indent }

  function Gap(l: Layout): bytes { if l.indentation == [] then [] else [SPACE] }

  /** The text of a value at an indentation. A container that needs lines starts a new one, unless it is `indented`
      already. */
  function StyledText(v: Value, l: Layout, indent: bytes, indented: bool): bytes
    requires Printable(v)
    decreases Size(v), 0
  {
    if OnePiece(v) then Piece(v, l)
    else match v
      case Arr(m) =>
        if ManyLines(m, l) then
          (if indented then [] else Break(l, indent)) + [LBRACKET] + Lines(m, 0, l, indent + l.indentation)
            + Break(l, indent) + [RBRACKET]
        else [LBRACKET] + Gap(l) + Row(m, 0, l) + Gap(l) + [RBRACKET]
      case Obj(m) =>
        (if indented then [] else Break(l, indent)) + [LBRACE] + Fields(m, 0, l, indent + l.indentation)
          + Break(l, indent) + [RBRACE]
  }

  /** The elements from `i` on, one on a line. */
  function Lines(m: seq<Member>, i: nat, l: Layout, indent: bytes): bytes
    requires Indexed(m) && AllPrintable(m) && i <= ArraySize(m)
    decreases MapSize(m), ArraySize(m) - i
  {
    if i == ArraySize(m) then []
    else
      SlotIsPart(m, Index(i));
      Break(l, indent) + StyledText(Slot(m, Index(i)), l, indent, true)
        + (if i + 1 < ArraySize(m) then [COMMA] else []) + Lines(m, i + 1, l, indent)
  }

  /** The elements from `i` on, on one line. */
  function Row(m: seq<Member>, i: nat, l: Layout): bytes
    requires Indexed(m) && AllPrintable(m) && AllPieces(m) && i <= ArraySize(m)
    decreases ArraySize(m) - i
  {
    if i == ArraySize(m) then [] else (if i > 0 then [COMMA] + Gap(l) else []) + PieceAt(m, i, l) + Row(m, i + 1, l)
  }

  /** The members from `i` on, one on a line. */
  function Fields(m: seq<Member>, i: nat, l: Layout, indent: bytes): bytes
    requires AllNamed(m) && AllPrintable(m) && i <= |m|
    decreases MapSize(m), |m| - i
  {
    if i == |m| then []
    else
      MemberSize(m, i);
      Break(l, indent) + Quoted(m[i].key.s, l.emitUtf8) + l.colonSymbol + StyledText(m[i].val, l, indent, false)
      + (if i + 1 < |m| then [COMMA] else []) + Fields(m, i + 1, l, indent)
  }

  lemma LinesStep(m: seq<Member>, i: nat, l: Layout, indent: bytes)
    requires Indexed(m) && AllPrintable(m) && i < ArraySize(m)
    ensures Printable(Slot(m, Index(i)))
    ensures Lines(m, i, l, indent) ==
            Break(l, indent) + (StyledText(Slot(m, Index(i)), l, indent, true)
              + ((if i + 1 < ArraySize(m) then [COMMA] else []) + Lines(m, i + 1, l, indent)))
    ensures Lines(m, ArraySize(m), l, indent) == []
  {
    hide StyledText, Slot, Break;
    SlotIsPart(m, Index(i));
  }

  lemma FieldsStep(m: seq<Member>, i: nat, l: Layout, indent: bytes)
    requires AllNamed(m) && AllPrintable(m) && i < |m|
    ensures Fields(m, i, l, indent) ==
            Break(l, indent)
              + (Quoted(m[i].key.s, l.emitUtf8) + (l.colonSymbol + (StyledText(m[i].val, l, indent, false)
            + ((if i + 1 < |m| then [COMMA] else []) + Fields(m, i + 1, l, indent)))))
    ensures Fields(m, |m|, l, indent) == []
  {
    hide StyledText, Break, Quoted;
  }

  lemma RowStep(m: seq<Member>, i: nat, l: Layout)
    requires Indexed(m) && AllPrintable(m) && AllPieces(m) && i < ArraySize(m)
    ensures Row(m, i, l) == (if i > 0 then [COMMA] + Gap(l) else []) + (PieceAt(m, i, l) + Row(m, i + 1, l))
    ensures Row(m, ArraySize(m), l) == []
  {
    hide PieceAt, Gap;
  }

  // ---------------------------------------------------------------- the writer

  class Writer {
    var childValues: seq<bytes>
    var indentString: bytes
    var addChildValues: bool
    var indented: bool
    var sout: bytes
    const layout: Layout
    const endingLineFeedSymbol: bytes

    constructor (layout: Layout, endingLineFeedSymbol: bytes)
      ensures this.layout == layout && this.endingLineFeedSymbol == endingLineFeedSymbol && childValues == []
              && sout == []
    {
      this.layout, this.endingLineFeedSymbol := layout, endingLineFeedSymbol;
      childValues, indentString, addChildValues, indented, sout := [], [], false, false, [];
    }

    /** With CommentStyle::All no array is measured, so the side buffer stays empty. */
    ghost predicate Valid()
      reads this`childValues
    {
      layout.allComments ==> childValues == []
    }

    /** The document is the laid out value and the ending. */
    method Write(root: Value) returns (text: bytes)
      requires Valid() && Printable(root)
      modifies this
      ensures Valid() && text == sout == StyledText(root, layout, [], true) + endingLineFeedSymbol
    {
      hide StyledText;
      sout := [];
      addChildValues := false;
      indented := true;
      indentString := [];
      WriteValue(root);
      assert [] + StyledText(root, layout, [], true) == StyledText(root, layout, [], true);
      sout := sout + endingLineFeedSymbol;
      text := sout;
    }

    /** A finished piece goes to the side buffer while an array is measured, else to the output. */
    method PushValue(text: bytes)
      modifies this`childValues, this`sout
      ensures childValues == (if addChildValues then old(childValues) + [text] else old(childValues))
      ensures sout == if addChildValues then old(sout) else old(sout) + text
    {
      if addChildValues {
        childValues := childValues + [text];
      } else {
        sout := sout + text;
      }
    }

    method WriteIndent()
      modifies this`sout
      ensures sout == old(sout) + Break(layout, indentString)
    {
      if layout.indentation != [] {
        sout := sout + ([LF] + indentString);
      }
    }

    method WriteWithIndent(text: bytes)
      modifies this`sout, this`indented
      ensures !indented && sout == old(sout) + (if old(indented) then [] else Break(layout, indentString)) + text
    {
      if !indented {
        WriteIndent();
      }
      sout := sout + text;
      indented := false;
    }

    method Indent()
      modifies this`indentString
      ensures indentString == old(indentString) + layout.indentation
    {
      indentString := indentString + layout.indentation;
    }

    method Unindent()
      requires |layout.indentation| <= |indentString|
      modifies this`indentString
      ensures indentString == old(indentString)[..|old(indentString)| - |layout.indentation|]
    {
      indentString := indentString[..|indentString| - |layout.indentation|];
    }

    /** While an array is measured, the one piece is collected; otherwise the laid out value is written. */
    method WriteValue(value: Value)
      requires Valid() && Printable(value) && (addChildValues ==> !layout.allComments && OnePiece(value))
      modifies this`childValues, this`indentString, this`addChildValues, this`indented, this`sout
      ensures Valid() && addChildValues == old(addChildValues) && indentString == old(indentString)
              && (indented ==> old(indented))
      ensures addChildValues ==>
              sout == old(sout) && indented == old(indented) && childValues == old(childValues) + [Piece(value, layout)]
      ensures !addChildValues ==> sout == old(sout) + StyledText(value, layout, indentString, old(indented))
      decreases Size(value), 2
    {
      hide Lines, Fields, Row, ManyLines, Quoted, IntText, AllStored, AllRealFree, Sorted;
      if OnePiece(value) {
        var text := OnePieceText(value);
        PushValue(text);
      } else if value.Arr? {
        WriteArrayValue(value.elems);
      } else {
        WriteObject(value.members);
      }
    }

    method OnePieceText(value: Value) returns (text: bytes)
      requires Printable(value) && OnePiece(value)
      ensures text == Piece(value, layout)
    {
      hide Quoted, IntText;
      match value
      case Null => text := layout.nullSymbol;
      case Int(i) => text := ValueToStringInt(i);
      case UInt(u) => text := ValueToStringUint(u);
      case Str(s) => text := ValueToQuotedString(s, layout.emitUtf8);
      case Bool(b) => text := if b then TRUE_TEXT else FALSE_TEXT;
      case Arr(_) => text := [LBRACKET, RBRACKET];
      case Obj(_) => text := [LBRACE, RBRACE];
    }

    // ---------------------------------------------------------------- arrays

    /** An array that is not empty, on one line or on many. */
    method WriteArrayValue(m: seq<Member>)
      requires Valid() && Indexed(m) && Sorted(m) && AllPrintable(m) && m != [] && !addChildValues
      modifies this`childValues, this`indentString, this`addChildValues, this`indented, this`sout
      ensures Valid() && !addChildValues && indentString == old(indentString) && (indented ==> old(indented))
      ensures sout == old(sout) + StyledText(Arr(m), layout, indentString, old(indented))
      decreases MapSize(m), 5
    {
      hide Lines, Row, AllStored, AllRealFree, Sorted, LineLength, AllPieces;
      ArrayIsPrintable(m);
      var multi := layout.allComments;
      if !multi {
        multi := IsMultilineArray(m);
      }
      if multi {
        WriteMultiLine(m);
      } else {
        WriteSingleLine(m);
      }
    }

    /** isMultilineArray: the side buffer is left empty, or with exactly the one piece of each element. It is filled
        exactly when the elements are few and single pieces, in particular when the array goes on one line. */
    method IsMultilineArray(m: seq<Member>) returns (multi: bool)
      requires Valid() && Indexed(m) && AllPrintable(m) && m != [] && !addChildValues && !layout.allComments
      modifies this`childValues, this`indentString, this`addChildValues, this`indented, this`sout
      ensures Valid() && !addChildValues && indentString == old(indentString) && sout == old(sout)
              && indented == old(indented)
      ensures multi == ManyLines(m, layout)
      ensures if ArraySize(m) * 3 < RIGHT_MARGIN && AllPieces(m) then Collected(m, ArraySize(m)) else childValues == []
      decreases MapSize(m), 4
    {
      hide AllStored, AllRealFree, Slot, LineLength;
      var size := ArraySize(m);
      multi := size * 3 >= RIGHT_MARGIN;
      childValues := [];
      var index := 0;
      while index < size && !multi
        invariant index <= size && childValues == []
        invariant multi <==> size * 3 >= RIGHT_MARGIN || exists i :: 0 <= i < index && !OnePiece(Slot(m, Index(i)))
      {
        var child := Slot(m, Index(index));
        multi := (child.Arr? && child.elems != []) || (child.Obj? && child.members != []);
        index := index + 1;
      }
      if !multi {
        assert AllPieces(m);
        var lineLength := Measure(m);
        multi := lineLength >= RIGHT_MARGIN;
      }
    }

    /** The side buffer holds the pieces of the first `n` elements. */
    ghost predicate Collected(m: seq<Member>, n: nat)
      requires Indexed(m) && AllPrintable(m) && AllPieces(m) && n <= ArraySize(m)
      reads this`childValues
    {
      |childValues| == n && forall i :: 0 <= i < n ==> childValues[i] == PieceAt(m, i, layout)
    }

    /** The second loop of isMultilineArray: every element is printed into the side buffer. */
    method Measure(m: seq<Member>) returns (lineLength: nat)
      requires Valid() && Indexed(m) && AllPrintable(m) && m != [] && AllPieces(m) && !addChildValues
               && !layout.allComments && childValues == []
      modifies this`childValues, this`indentString, this`addChildValues, this`indented, this`sout
      ensures Valid() && !addChildValues && indentString == old(indentString) && sout == old(sout)
              && indented == old(indented)
      ensures Collected(m, ArraySize(m)) && lineLength == LineLength(m, layout)
      decreases MapSize(m), 3
    {
      hide AllStored, AllRealFree, Slot, AllPieces, Piece;
      addChildValues := true;
      var size := ArraySize(m);
      lineLength := 4 + (size - 1) * 2;
      var index := 0;
      while index < size
        invariant index <= size && Valid() && addChildValues && indentString == old(indentString) && sout == old(sout)
                  && indented == old(indented)
        invariant Collected(m, index) && lineLength == 4 + (size - 1) * 2 + PiecesLength(m, index, layout)
      {
        MeasureOne(m, index);
        lineLength := lineLength + |childValues[index]|;
        index := index + 1;
      }
      addChildValues := false;
    }

    method MeasureOne(m: seq<Member>, index: nat)
      requires Valid() && Indexed(m) && AllPrintable(m) && AllPieces(m) && index < ArraySize(m) && addChildValues
               && !layout.allComments
      modifies this`childValues, this`indentString, this`addChildValues, this`indented, this`sout
      ensures Valid() && addChildValues && indentString == old(indentString) && sout == old(sout)
              && indented == old(indented)
      ensures childValues == old(childValues) + [PieceAt(m, index, layout)]
      decreases MapSize(m), 2
    {
      hide AllStored, AllRealFree, Slot, Piece;
      SlotIsPart(m, Index(index));
      WriteValue(Slot(m, Index(index)));
    }

    method WriteMultiLine(m: seq<Member>)
      requires Valid() && Indexed(m) && AllPrintable(m) && m != [] && !addChildValues && ChildrenReady(m)
      modifies this`childValues, this`indentString, this`addChildValues, this`indented, this`sout
      ensures Valid() && !addChildValues && indentString == old(indentString) && !indented
      ensures sout == old(sout) + ((if old(indented) then [] else Break(layout, indentString)) + [LBRACKET]
                      + Lines(m, 0, layout, indentString + layout.indentation) + Break(layout, indentString)
                        + [RBRACKET])
      decreases MapSize(m), 4
    {
      hide Lines, Break, AllStored, AllRealFree, ChildrenReady;
      WriteWithIndent([LBRACKET]);
      Indent();
      WriteLines(m);
      Unindent();
      WriteWithIndent([RBRACKET]);
    }

    /** The side buffer is empty, or was filled for this array. */
    ghost predicate ChildrenReady(m: seq<Member>)
      requires Indexed(m) && AllPrintable(m)
      reads this`childValues
    {
      childValues == [] || (AllPieces(m) && Collected(m, ArraySize(m)))
    }

    /** The elements of a multi-line array, from the side buffer when it was filled for this array. */
    method WriteLines(m: seq<Member>)
      requires Valid() && Indexed(m) && AllPrintable(m) && m != [] && !addChildValues && ChildrenReady(m) && !indented
      modifies this`childValues, this`indentString, this`addChildValues, this`indented, this`sout
      ensures Valid() && !addChildValues && indentString == old(indentString) && !indented
      ensures sout == old(sout) + Lines(m, 0, layout, indentString)
      decreases MapSize(m), 3
    {
      hide Lines, StyledText, Break, AllStored, AllRealFree, Slot;
      var hasChildValue := childValues != [];
      var size := ArraySize(m);
      var index := 0;
      while true
        invariant index < size
        invariant Valid() && !addChildValues && indentString == old(indentString) && !indented
        invariant hasChildValue ==> childValues != [] && ChildrenReady(m)
        invariant sout + Lines(m, index, layout, indentString) == old(sout) + Lines(m, 0, layout, indentString)
        decreases size - index
      {
        LinesStep(m, index, layout, indentString);
        WriteLine(m, index, hasChildValue);
        index := index + 1;
        if index == size {
          assert sout + [] == sout && [] + Lines(m, size, layout, indentString) == [];
          break;
        }
        sout := sout + [COMMA];
      }
    }

    method WriteLine(m: seq<Member>, index: nat, hasChildValue: bool)
      requires Valid() && Indexed(m) && AllPrintable(m) && index < ArraySize(m) && !addChildValues && !indented
      requires hasChildValue ==> childValues != [] && ChildrenReady(m)
      modifies this`childValues, this`indentString, this`addChildValues, this`indented, this`sout
      ensures Valid() && !addChildValues && indentString == old(indentString) && !indented
      ensures hasChildValue ==> childValues == old(childValues)
      ensures Printable(Slot(m, Index(index)))
      ensures sout
              == old(sout) + Break(layout, indentString) + StyledText(Slot(m, Index(index)), layout, indentString, true)
      decreases MapSize(m), 2
    {
      hide StyledText, Break, AllStored, AllRealFree, Slot, Piece;
      SlotIsPart(m, Index(index));
      if hasChildValue {
        PieceIsText(m, index, layout, indentString);
        WriteWithIndent(childValues[index]);
      } else {
        if !indented {
          WriteIndent();
        }
        indented := true;
        WriteValue(Slot(m, Index(index)));
        indented := false;
      }
    }

    /** The array on one line, from the side buffer. */
    method WriteSingleLine(m: seq<Member>)
      requires Valid() && Indexed(m) && AllPrintable(m) && m != [] && !addChildValues && AllPieces(m)
               && Collected(m, ArraySize(m))
      modifies this`sout
      ensures sout == old(sout) + ([LBRACKET] + Gap(layout) + Row(m, 0, layout) + Gap(layout) + [RBRACKET])
    {
      hide Row, AllStored, AllRealFree, AllPieces, PieceAt;
      sout := sout + [LBRACKET];
      if layout.indentation != [] {
        sout := sout + [SPACE];
      }
      assert sout == old(sout) + [LBRACKET] + Gap(layout);
      var size := ArraySize(m);
      var index := 0;
      while index < size
        invariant index <= size
        invariant sout + Row(m, index, layout) == old(sout) + [LBRACKET] + Gap(layout) + Row(m, 0, layout)
      {
        RowStep(m, index, layout);
        if index > 0 {
          sout := sout + if layout.indentation != [] then [COMMA, SPACE] else [COMMA];
        }
        sout := sout + childValues[index];
        index := index + 1;
      }
      RowEnd(m, layout);
      assert sout + [] == sout;
      if layout.indentation != [] {
        sout := sout + [SPACE];
      }
      sout := sout + [RBRACKET];
    }

    // ---------------------------------------------------------------- objects

    /** An object that is not empty. */
    method WriteObject(m: seq<Member>)
      requires Valid() && AllNamed(m) && Sorted(m) && AllPrintable(m) && m != [] && !addChildValues
      modifies this`childValues, this`indentString, this`addChildValues, this`indented, this`sout
      ensures Valid() && !addChildValues && indentString == old(indentString) && !indented
      ensures sout == old(sout) + ((if old(indented) then [] else Break(layout, indentString)) + [LBRACE]
                      + Fields(m, 0, layout, indentString + layout.indentation) + Break(layout, indentString)
                        + [RBRACE])
      decreases MapSize(m), 5
    {
      hide Fields, Break, AllStored, AllRealFree, Sorted;
      WriteWithIndent([LBRACE]);
      Indent();
      WriteFields(m);
      Unindent();
      WriteWithIndent([RBRACE]);
    }

    method WriteFields(m: seq<Member>)
      requires Valid() && AllNamed(m) && Sorted(m) && AllPrintable(m) && m != [] && !addChildValues && !indented
      modifies this`childValues, this`indentString, this`addChildValues, this`indented, this`sout
      ensures Valid() && !addChildValues && indentString == old(indentString) && !indented
      ensures sout == old(sout) + Fields(m, 0, layout, indentString)
      decreases MapSize(m), 4
    {
      hide Fields, StyledText, Break, AllStored, AllRealFree, Sorted, Quoted;
      var it := 0;
      while true
        invariant it < |m|
        invariant Valid() && !addChildValues && indentString == old(indentString) && !indented
        invariant sout + Fields(m, it, layout, indentString) == old(sout) + Fields(m, 0, layout, indentString)
        decreases |m| - it
      {
        FieldsStep(m, it, layout, indentString);
        WriteField(m, it);
        it := it + 1;
        if it == |m| {
          assert sout + [] == sout && [] + Fields(m, |m|, layout, indentString) == [];
          break;
        }
        sout := sout + [COMMA];
      }
    }

    /** A name, the colon and the value. */
    method WriteField(m: seq<Member>, i: nat)
      requires Valid() && AllNamed(m) && Sorted(m) && AllPrintable(m) && i < |m| && !addChildValues && !indented
      modifies this`childValues, this`indentString, this`addChildValues, this`indented, this`sout
      ensures Valid() && !addChildValues && indentString == old(indentString) && !indented
      ensures sout == old(sout) + Break(layout, indentString) + Quoted(m[i].key.s, layout.emitUtf8) + layout.colonSymbol
                      + StyledText(m[i].val, layout, indentString, false)
      decreases MapSize(m), 3
    {
      hide StyledText, Break, Quoted, Sorted;
      FindsKey(m, m[i].key, i);
      MemberSize(m, i);
      var childValue := Slot(m, m[i].key);
      var name := ValueToQuotedString(m[i].key.s, layout.emitUtf8);
      WriteWithIndent(name);
      sout := sout + layout.colonSymbol;
      WriteValue(childValue);
    }
  }

  lemma ArrayIsPrintable(m: seq<Member>)
    requires Indexed(m) && Sorted(m) && AllPrintable(m)
    ensures Printable(Arr(m))
  {
  }

  lemma PieceIsText(m: seq<Member>, i: nat, l: Layout, indent: bytes)
    requires Indexed(m) && AllPrintable(m) && AllPieces(m) && i < ArraySize(m)
    ensures Printable(Slot(m, Index(i))) && PieceAt(m, i, l) == StyledText(Slot(m, Index(i)), l, indent, true)
  {
    hide Slot, Piece;
    SlotIsPart(m, Index(i));
  }

  lemma RowEnd(m: seq<Member>, l: Layout)
    requires Indexed(m) && AllPrintable(m) && AllPieces(m)
    ensures Row(m, ArraySize(m), l) == []
  {
  }

  // ---------------------------------------------------------------- what the text spells

  /** The settings of a builder: the layout is white space, and nulls are printed or left out. */
  predicate Sensible(l: Layout)
  {
    AllSpace(l.indentation) && (l.nullSymbol == NULL_TEXT || l.nullSymbol == [])
      && Spells(l.colonSymbol, [NAME_SEPARATOR])
  }

  lemma BreakSpells(l: Layout, indent: bytes)
    requires AllSpace(indent)
    ensures Spells(Break(l, indent), []) && Spells(Gap(l), []) && Spells([], []) && Solid([])
  {
    SpellsSpace(Break(l, indent));
    SpellsSpace(Gap(l));
    SpellsNothing();
  }

  lemma BracketsSpell()
    ensures Spells([LBRACE], [LC]) && Solid([LC]) && Spells([RBRACE], [RC]) && Solid([RC])
    ensures Spells([LBRACKET], [LB]) && Solid([LB]) && Spells([RBRACKET], [RB]) && Solid([RB])
    ensures Spells([COMMA], [SEPARATOR]) && Solid([SEPARATOR]) && Solid([NAME_SEPARATOR])
  {
    SpellsOne(LC);
    SpellsOne(RC);
    SpellsOne(LB);
    SpellsOne(RB);
    CommaSpells();
  }

  /** Pieces of text that spell tokens which cannot run together. */
  lemma Then(a: bytes, t: seq<Lexeme>, b: bytes, u: seq<Lexeme>)
    requires Spells(a, t) && Solid(t) && Spells(b, u) && Solid(u)
    ensures Spells(a + b, t + u) && Solid(t + u)
  {
    hide Spells;
    SpellsAppend(a, t, b, u);
  }

  lemma TokensSolid(v: Value, s: Style)
    requires Printable(v)
    ensures Solid(TokensOf(v, s))
  {
    TokensSeparated(v, s);
    SeparatedIsSolid(TokensOf(v, s));
  }

  lemma PieceSpells(v: Value, l: Layout)
    requires Printable(v) && OnePiece(v) && Sensible(l)
    ensures Spells(Piece(v, l), TokensOf(v, ModeOf(l)))
  {
    hide Spells, Quoted, IntText;
    TokensSolid(v, ModeOf(l));
    SpellsNothing();
    if v.Arr? {
      Bracketed(LB, [], [], RB);
      assert LB.text + [] + RB.text == [LBRACKET, RBRACKET];
    } else if v.Obj? {
      Bracketed(LC, [], [], RC);
      assert LC.text + [] + RC.text == [LBRACE, RBRACE];
    } else if TokensOf(v, ModeOf(l)) != [] {
      SpellsOne(TokensOf(v, ModeOf(l))[0]);
    }
  }

  /** Whatever the layout, the text spells the tokens of the value. */
  lemma {:induction false} StyledSpells(v: Value, l: Layout, indent: bytes, indented: bool)
    requires Printable(v) && Sensible(l) && AllSpace(indent)
    ensures Spells(StyledText(v, l, indent, indented), TokensOf(v, ModeOf(l)))
    decreases Size(v), 0
  {
    hide Spells, Solid, Piece, Lines, Row, Fields, ManyLines, ElementTokens, MemberTokens, Break, Gap, AllStored,
         AllRealFree, Sorted;
    if OnePiece(v) {
      PieceSpells(v, l);
    } else {
      BreakSpells(l, indent);
      BracketsSpell();
      var start := if indented then [] else Break(l, indent);
      match v
      case Arr(m) =>
        ElementsSolid(m, 0, ModeOf(l));
        if ManyLines(m, l) {
          LinesSpell(m, 0, l, indent + l.indentation);
          Enclosed(start, LB, [], Lines(m, 0, l, indent + l.indentation), ElementTokens(m, 0, ModeOf(l)),
                   Break(l, indent), RB);
          assert start + [LBRACKET] + [] == start + [LBRACKET];
        } else {
          AllPiecesOnOneLine(m, l);
          RowSpells(m, 0, l);
          assert RowTokens(m, 0, ModeOf(l)) == ElementTokens(m, 0, ModeOf(l));
          Enclosed([], LB, Gap(l), Row(m, 0, l), ElementTokens(m, 0, ModeOf(l)), Gap(l), RB);
          assert [] + [LBRACKET] == [LBRACKET];
        }
      case Obj(m) =>
        FieldsSpell(m, 0, l, indent + l.indentation);
        MembersSolid(m, 0, ModeOf(l));
        Enclosed(start, LC, [], Fields(m, 0, l, indent + l.indentation), MemberTokens(m, 0, ModeOf(l)),
                 Break(l, indent), RC);
        assert start + [LBRACE] + [] == start + [LBRACE];
    }
  }

  lemma AllPiecesOnOneLine(m: seq<Member>, l: Layout)
    requires Indexed(m) && AllPrintable(m) && m != [] && !ManyLines(m, l)
    ensures AllPieces(m)
  {
  }

  lemma ElementsSolid(m: seq<Member>, i: nat, s: Style)
    requires Indexed(m) && AllPrintable(m) && i <= ArraySize(m)
    ensures Solid(ElementTokens(m, i, s))
  {
    ElementsSeparated(m, i, s);
    SeparatedIsSolid(ElementTokens(m, i, s));
  }

  lemma MembersSolid(m: seq<Member>, i: nat, s: Style)
    requires AllNamed(m) && AllPrintable(m) && i <= |m|
    ensures Solid(MemberTokens(m, i, s))
  {
    MembersSeparated(m, i, s);
    SeparatedIsSolid(MemberTokens(m, i, s));
  }

  /** White space around brackets changes nothing. */
  lemma Enclosed(a: bytes, open: Lexeme, b: bytes, s: bytes, t: seq<Lexeme>, c: bytes, close: Lexeme)
    requires Spells(a, []) && Spells(b, []) && Spells(c, []) && Spells(s, t) && Solid(t)
    requires Spells(open.text, [open]) && Solid([open]) && Spells(close.text, [close]) && Solid([close])
    ensures Spells(a + open.text + b + s + c + close.text, [open] + t + [close])
  {
    hide Spells, Solid;
    NothingIsSolid();
    Then(a, [], open.text, [open]);
    Then(a + open.text, [] + [open], b, []);
    Then(a + open.text + b, [] + [open] + [], s, t);
    Then(a + open.text + b + s, [] + [open] + [] + t, c, []);
    Then(a + open.text + b + s + c, [] + [open] + [] + t + [], close.text, [close]);
    assert [] + [open] + [] + t + [] + [close] == [open] + t + [close];
  }

  lemma NothingIsSolid()
    ensures Solid([])
  {
  }

  lemma {:induction false} LinesSpell(m: seq<Member>, i: nat, l: Layout, indent: bytes)
    requires Indexed(m) && AllPrintable(m) && i <= ArraySize(m) && Sensible(l) && AllSpace(indent)
    ensures Spells(Lines(m, i, l, indent), ElementTokens(m, i, ModeOf(l)))
    decreases MapSize(m), ArraySize(m) - i
  {
    hide Spells, Solid, StyledText, TokensOf, Break, Slot, AllStored, AllRealFree;
    if i == ArraySize(m) {
      SpellsNothing();
    } else {
      SlotIsPart(m, Index(i));
      var e := Slot(m, Index(i));
      StyledSpells(e, l, indent, true);
      LinesSpell(m, i + 1, l, indent);
      TokensSolid(e, ModeOf(l));
      ElementsSolid(m, i + 1, ModeOf(l));
      BreakSpells(l, indent);
      Then(Break(l, indent), [], StyledText(e, l, indent, true), TokensOf(e, ModeOf(l)));
      assert [] + TokensOf(e, ModeOf(l)) == TokensOf(e, ModeOf(l));
      Joined(Break(l, indent) + StyledText(e, l, indent, true), TokensOf(e, ModeOf(l)), i + 1 < ArraySize(m),
             Lines(m, i + 1, l, indent), ElementTokens(m, i + 1, ModeOf(l)));
    }
  }

  lemma ElementsStep(m: seq<Member>, i: nat, s: Style)
    requires Indexed(m) && AllPrintable(m) && i < ArraySize(m)
    ensures Printable(Slot(m, Index(i)))
    ensures ElementTokens(m, i, s) ==
            TokensOf(Slot(m, Index(i)), s)
              + ((if i + 1 < ArraySize(m) then [SEPARATOR] else []) + ElementTokens(m, i + 1, s))
    ensures ElementTokens(m, ArraySize(m), s) == []
  {
    hide TokensOf, Slot;
    SlotIsPart(m, Index(i));
  }

  ghost function RowTokens(m: seq<Member>, i: nat, s: Style): seq<Lexeme>
    requires Indexed(m) && AllPrintable(m) && i <= ArraySize(m)
  {
    (if 0 < i < ArraySize(m) then [SEPARATOR] else []) + ElementTokens(m, i, s)
  }

  lemma {:induction false} RowSpells(m: seq<Member>, i: nat, l: Layout)
    requires Indexed(m) && AllPrintable(m) && AllPieces(m) && i <= ArraySize(m) && Sensible(l)
    ensures Spells(Row(m, i, l), RowTokens(m, i, ModeOf(l))) && Solid(RowTokens(m, i, ModeOf(l)))
    decreases ArraySize(m) - i
  {
    hide Spells, Solid, Piece, TokensOf, Slot, AllPieces, ElementTokens, Sensible, Row, PieceAt, Gap;
    BracketsSpell();
    BreakSpells(l, []);
    ElementsSolid(m, i, ModeOf(l));
    if i == ArraySize(m) {
      RowEnd(m, l);
      ElementsEnd(m, ModeOf(l));
      assert RowTokens(m, i, ModeOf(l)) == [];
    } else {
      var s, e := ModeOf(l), Slot(m, Index(i));
      PieceAtSpells(m, i, l);
      RowSpells(m, i + 1, l);
      RowStep(m, i, l);
      ElementsStep(m, i, s);
      var rest := RowTokens(m, i + 1, s);
      Then(PieceAt(m, i, l), TokensOf(e, s), Row(m, i + 1, l), rest);
      assert ElementTokens(m, i, s) == TokensOf(e, s) + rest;
      if i > 0 {
        Then([COMMA], [SEPARATOR], Gap(l), []);
        assert [SEPARATOR] + [] == [SEPARATOR];
        Then([COMMA] + Gap(l), [SEPARATOR], PieceAt(m, i, l) + Row(m, i + 1, l), ElementTokens(m, i, s));
      } else {
        assert [] + (PieceAt(m, i, l) + Row(m, i + 1, l)) == PieceAt(m, i, l) + Row(m, i + 1, l);
        assert [] + ElementTokens(m, i, s) == ElementTokens(m, i, s);
      }
    }
  }

  lemma ElementsEnd(m: seq<Member>, s: Style)
    requires Indexed(m) && AllPrintable(m)
    ensures ElementTokens(m, ArraySize(m), s) == []
  {
  }

  lemma PieceAtSpells(m: seq<Member>, i: nat, l: Layout)
    requires Indexed(m) && AllPrintable(m) && AllPieces(m) && i < ArraySize(m) && Sensible(l)
    ensures Printable(Slot(m, Index(i)))
    ensures var t := TokensOf(Slot(m, Index(i)), ModeOf(l));
            Spells(PieceAt(m, i, l), t) && Solid(t)
  {
    hide Spells, Solid, Piece, TokensOf, Slot;
    SlotIsPart(m, Index(i));
    PieceSpells(Slot(m, Index(i)), l);
    TokensSolid(Slot(m, Index(i)), ModeOf(l));
  }

  lemma {:induction false} FieldsSpell(m: seq<Member>, i: nat, l: Layout, indent: bytes)
    requires AllNamed(m) && AllPrintable(m) && i <= |m| && Sensible(l) && AllSpace(indent)
    ensures Spells(Fields(m, i, l, indent), MemberTokens(m, i, ModeOf(l)))
    decreases MapSize(m), |m| - i
  {
    hide Spells, Solid, StyledText, TokensOf, Break, Quoted;
    if i == |m| {
      SpellsNothing();
    } else {
      MemberSize(m, i);
      StyledSpells(m[i].val, l, indent, false);
      TokensSolid(m[i].val, ModeOf(l));
      FieldsSpell(m, i + 1, l, indent);
      MembersSolid(m, i + 1, ModeOf(l));
      NameSpells(m[i].key.s, l, indent);
      var head := Break(l, indent) + Quoted(m[i].key.s, l.emitUtf8) + l.colonSymbol;
      var tokens := [Lexeme(String, Quoted(m[i].key.s, l.emitUtf8)), NAME_SEPARATOR];
      Then(head, tokens, StyledText(m[i].val, l, indent, false), TokensOf(m[i].val, ModeOf(l)));
      Joined(head + StyledText(m[i].val, l, indent, false), tokens + TokensOf(m[i].val, ModeOf(l)), i + 1 < |m|,
             Fields(m, i + 1, l, indent), MemberTokens(m, i + 1, ModeOf(l)));
    }
  }

  lemma NameSpells(name: bytes, l: Layout, indent: bytes)
    requires Sensible(l) && AllSpace(indent)
    ensures var t := [Lexeme(String, Quoted(name, l.emitUtf8)), NAME_SEPARATOR];
            Spells(Break(l, indent) + Quoted(name, l.emitUtf8) + l.colonSymbol, t) && Solid(t)
  {
    hide Spells, Quoted, Lexical, Break;
    var n := Lexeme(String, Quoted(name, l.emitUtf8));
    QuotedIsLexical(name, l.emitUtf8);
    LexicalIsSolid(n);
    SpellsOne(n);
    BreakSpells(l, indent);
    Then(Break(l, indent), [], n.text, [n]);
    assert [] + [n] == [n];
    Then(Break(l, indent) + n.text, [n], l.colonSymbol, [NAME_SEPARATOR]);
    assert [n] + [NAME_SEPARATOR] == [n, NAME_SEPARATOR];
  }

  // ---------------------------------------------------------------- without indentation

  /** The settings under which the output is that of FastWriter byte for byte. */
  predicate Compact(l: Layout)
  {
    l.indentation == [] && l.colonSymbol == [COLON] && !l.emitUtf8 && (l.nullSymbol == NULL_TEXT || l.nullSymbol == [])
  }

  function PlainOf(l: Layout, lib: Doubles): Options { Options(false, l.nullSymbol == [], lib) }

  lemma {:induction false} CompactText(v: Value, l: Layout, indent: bytes, indented: bool, lib: Doubles)
    requires Printable(v) && Compact(l)
    ensures StyledText(v, l, indent, indented) == FastText(v, PlainOf(l, lib))
    decreases Size(v), 0
  {
    hide *;
    if OnePiece(v) {
      PieceAlone(v, l, indent, indented);
      CompactPiece(v, l, lib);
    } else {
      CompactUnfolds(v, l, indent, indented, lib);
      match v
      case Arr(m) =>
        if ManyLines(m, l) {
          CompactLines(m, 0, l, indent + l.indentation, lib);
        } else {
          CompactRow(m, 0, l, lib);
        }
      case Obj(m) =>
        CompactFields(m, 0, l, indent + l.indentation, lib);
    }
  }

  lemma PieceAlone(v: Value, l: Layout, indent: bytes, indented: bool)
    requires Printable(v) && OnePiece(v)
    ensures StyledText(v, l, indent, indented) == Piece(v, l)
  {
    hide Piece;
  }

  /** Both texts of a container are brackets around its parts. */
  lemma CompactUnfolds(v: Value, l: Layout, indent: bytes, indented: bool, lib: Doubles)
    requires Printable(v) && Compact(l) && !OnePiece(v)
    ensures v.Arr? || v.Obj?
    ensures if v.Arr? then MapSize(v.elems) < Size(v) else MapSize(v.members) < Size(v)
    ensures v.Arr? ==>
            var m, o := v.elems, PlainOf(l, lib);
            Indexed(m) && AllPrintable(m) && m != []
            && FastText(v, o) == [LBRACKET] + ElementTexts(m, 0, o) + [RBRACKET]
            && (ManyLines(m, l) ==>
               StyledText(v, l, indent, indented) == [LBRACKET] + Lines(m, 0, l, indent + l.indentation) + [RBRACKET])
            && (!ManyLines(m, l) ==>
               AllPieces(m) && StyledText(v, l, indent, indented) == [LBRACKET] + Row(m, 0, l) + [RBRACKET])
    ensures v.Obj? ==>
            var m, o := v.members, PlainOf(l, lib);
            AllNamed(m) && AllPrintable(m) && m != [] && FastText(v, o) == [LBRACE] + MemberTexts(m, 0, o) + [RBRACE]
            && StyledText(v, l, indent, indented) == [LBRACE] + Fields(m, 0, l, indent + l.indentation) + [RBRACE]
  {
    hide Lines, Row, Fields, ElementTexts, MemberTexts, AllStored, AllRealFree, Sorted, ManyLines, AllPieces, Piece,
         Quoted, IntText;
    if v.Arr? {
      assert [] + [LBRACKET] == [LBRACKET];
      if ManyLines(v.elems, l) {
        assert Lines(v.elems, 0, l, indent + l.indentation) + [] == Lines(v.elems, 0, l, indent + l.indentation);
      } else {
        AllPiecesOnOneLine(v.elems, l);
      }
    } else {
      assert [] + [LBRACE] == [LBRACE];
      assert Fields(v.members, 0, l, indent + l.indentation) + [] == Fields(v.members, 0, l, indent + l.indentation);
    }
  }

  lemma CompactPiece(v: Value, l: Layout, lib: Doubles)
    requires Printable(v) && OnePiece(v) && Compact(l)
    ensures Piece(v, l) == FastText(v, PlainOf(l, lib))
  {
    hide Quoted, IntText;
    if v.Arr? {
      assert ElementTexts(v.elems, 0, PlainOf(l, lib)) == [];
    } else if v.Obj? {
      assert MemberTexts(v.members, 0, PlainOf(l, lib)) == [];
    }
  }

  lemma {:induction false} CompactLines(m: seq<Member>, i: nat, l: Layout, indent: bytes, lib: Doubles)
    requires Indexed(m) && AllPrintable(m) && i <= ArraySize(m) && Compact(l)
    ensures Lines(m, i, l, indent) == ElementTexts(m, i, PlainOf(l, lib))
    decreases MapSize(m), ArraySize(m) - i
  {
    hide StyledText, FastText, Slot, AllStored, AllRealFree;
    if i < ArraySize(m) {
      SlotIsPart(m, Index(i));
      CompactText(Slot(m, Index(i)), l, indent, true, lib);
      CompactLines(m, i + 1, l, indent, lib);
    }
  }

  lemma {:induction false} CompactRow(m: seq<Member>, i: nat, l: Layout, lib: Doubles)
    requires Indexed(m) && AllPrintable(m) && AllPieces(m) && i <= ArraySize(m) && Compact(l)
    ensures Row(m, i, l) == (if 0 < i < ArraySize(m) then [COMMA] else []) + ElementTexts(m, i, PlainOf(l, lib))
    decreases ArraySize(m) - i
  {
    hide Piece, FastText, Slot, AllStored, AllRealFree;
    if i < ArraySize(m) {
      SlotIsPart(m, Index(i));
      CompactPiece(Slot(m, Index(i)), l, lib);
      CompactRow(m, i + 1, l, lib);
    }
  }

  lemma {:induction false} CompactFields(m: seq<Member>, i: nat, l: Layout, indent: bytes, lib: Doubles)
    requires AllNamed(m) && AllPrintable(m) && i <= |m| && Compact(l)
    ensures Fields(m, i, l, indent) == MemberTexts(m, i, PlainOf(l, lib))
    decreases MapSize(m), |m| - i
  {
    hide StyledText, FastText, Quoted;
    if i < |m| {
      MemberSize(m, i);
      CompactText(m[i].val, l, indent, false, lib);
      CompactFields(m, i + 1, l, indent, lib);
    }
  }

  // ---------------------------------------------------------------- main results

  function StyledDocument(v: Value, l: Layout, ending: bytes): bytes
    requires Printable(v)
  {
    StyledText(v, l, [], true) + ending
  }

  lemma StyledDocumentSpells(v: Value, l: Layout, ending: bytes)
    requires Printable(v) && Sensible(l) && AllSpace(ending)
    ensures Spells(StyledDocument(v, l, ending), TokensOf(v, ModeOf(l)))
  {
    hide StyledText, Spells, TokensOf;
    StyledSpells(v, l, [], true);
    TokensSolid(v, ModeOf(l));
    SpellsSpace(ending);
    SpellsAppend(StyledText(v, l, [], true), TokensOf(v, ModeOf(l)), ending, []);
    assert TokensOf(v, ModeOf(l)) + [] == TokensOf(v, ModeOf(l));
  }

  /** With empty indentation the styled document is FastWriter's text and the ending. */
  lemma CompactDocument(v: Value, l: Layout, ending: bytes, lib: Doubles)
    requires Printable(v) && Compact(l)
    ensures StyledDocument(v, l, ending) == FastText(v, PlainOf(l, lib)) + ending
  {
    hide StyledText, FastText;
    CompactText(v, l, [], true, lib);
  }

  /** For any white space indentation the styled document has the tokens of FastWriter's. */
  lemma LexesLikeFast(v: Value, l: Layout, ending: bytes, o: Options, f: Features)
    requires Printable(v) && Sensible(l) && AllSpace(ending) && !l.emitUtf8
             && (o.dropNullPlaceholders <==> l.nullSymbol == [])
    ensures Lex(StyledDocument(v, l, ending), f, 0) == Lex(FastText(v, o), f, 0) == TokensOf(v, StyleOf(o))
  {
    hide Spells, TokensOf, FastText, StyledText, Lex;
    var text := StyledDocument(v, l, ending);
    StyledDocumentSpells(v, l, ending);
    TextSpells(v, o);
    TokensSeparated(v, StyleOf(o));
    assert text[0..] == text && FastText(v, o)[0..] == FastText(v, o);
    SpellsLex(text, f, 0, TokensOf(v, StyleOf(o)));
    SpellsLex(FastText(v, o), f, 0, TokensOf(v, StyleOf(o)));
  }

  /** Styled printing preserves meaning: for any layout and every feature setting, and whether strings keep their UTF-8
      or not, the document is read as FastWriter's would be. */
  lemma StyledRoundTrip(v: Value, l: Layout, ending: bytes, f: Features, lib: Doubles, root: Value)
    requires Printable(v) && Sensible(l) && AllSpace(ending) && !(v.Null? && l.nullSymbol == [])
    ensures var r := ParseDocument(Context(StyledDocument(v, l, ending), f, lib), root);
            var s := ModeOf(l);
            var first := First(Checks(v, s, f, f.stackLimit));
            var within, distinct := WithinLimits(v, s, f, f.stackLimit), f.rejectDupKeys ==> DistinctNames(v, s, f);
            Outcomes(r, first, f, Reread(v, s, f)) && (first == Fine <==> within && distinct && NullsExpected(v, s, f))
  {
    hide StyledText, Spells, TokensOf, ParseDocument, Checks, First, Outcomes, WithinLimits, DistinctNames,
         NullsExpected, Reread;
    StyledDocumentSpells(v, l, ending);
    ParseSpelled(Context(StyledDocument(v, l, ending), f, lib), root, v, ModeOf(l));
  }
}
