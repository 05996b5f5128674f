# Verification of ETJump components

Dafny models of six parts of the ETJump repository, with proofs of what they are for. Each module
models one component in the form the source has: functions for code made of expressions, classes with
`modifies` clauses for code that updates state. The methods are proved equal to specification functions,
and the properties a caller relies on are proved about those.

- **JSON** (`deps/json/jsoncpp.cpp`). `Utf8`, `Quoting` and `Integers` are the codecs; `Values`,
  `ValueOrder` and `ArrayValues` the value store, where arrays and objects are sorted maps; `Lexer` and
  `Parser` say what the reader computes and `OurReader` is the reader with its cursor, error list and node
  stack; `FastWriter` and `StyledWriter` are the printers. `Tokens` stands between printers and reader: a
  printer's text *spells* the tokens of its value, and any text that spells them is lexed to them.
  `StringSyntax`, `NumberSyntax` and `TokenSyntax` give the tokens by their characters, as RFC 8259 has
  them, whoever wrote them; `Errors` says which check gives which error; `Indentation` tells the lines of
  the styled printer from its text; and `Rewriting` reads, prints and reads again. `Grammar` gives the
  reader's language as trees with a meaning, for each feature setting, and proves that the reader accepts
  exactly the sentences; `Leniency` draws conclusions about separators. `RoundTrip` says which tree a
  printed value has and what it means, and `FastWriter.DocumentRoundTrip` and `StyledWriter.StyledRoundTrip`
  put this together.
- **SHA-1** (`deps/sha-1/sha1.c`). `Sha1` holds the functions of FIPS PUB 180-1 (sections 4 to 7), the
  streaming context that is proved to compute them, and its state machine of resets, inputs and results;
  `Sha1Example` works out the digest of appendix A.
- **Smoke sprites** (`src/cgame/cg_effects.cpp`, `src/cgame/cg_snapshot.cpp`). `SmokeSprites` is the pool of
  512 nodes with its free list and doubly linked used list, the sweep that frees nodes as it walks, and the
  counts of the emitters through smoking, snapshots and restarts.
- **Entity traversal** (`src/cgame/cg_ents.cpp`). `EntityOrder` specifies the recursion that adds parents
  first and proves what a frame does; `Entities` is the code over shared entities.
- **Lagometer** (`src/cgame/cg_draw.cpp`). `Lagometer` is the sample window with its running sum.
- **UUIDs** (`deps/uuid4/uuid4.c`). `Words` are numbers below 2^64 with their bits, and `Uuid4` is the
  xorshift generator on them and the template printer.

Where the code does not do what one would expect, the model follows the code, and the exact condition is
proved, with an input where that helps:

- a bare minus is the number 0 (`Integers.BareMinusIsZero`); the two readers disagree on the sign tag
  (`Integers.ReadersAgreeExactly`);
- an unterminated comment is accepted when the document ends in a slash (`Lexer.CommentAcceptedExactly`),
  and a NUL byte between tokens ends the stream (`Lexer.ReadToken`);
- after an empty name a trailing comma is accepted under every feature setting
  (`Leniency.TrailingCommaExactly`, `AcceptedTrailingComma`); after a comment any token passes for the comma
  between members, also where comments are not allowed (`Leniency.SeparatorsExactly`,
  `AcceptedStringForComma`). The language that is accepted is given by a grammar
  (`Grammar.DocumentsExactly`);
- writing past the end makes an array sparse (`ArrayValues.FullPutExactly`), removing the last element of a
  sparse array takes off more than one (`RemoveExactly`), and cutting a sparse array can fail the assertion
  of resize (`ResizeExactly`);
- a string that is not well-formed UTF-8 does not survive printing
  (`Quoting.LosslessExactlyOnWellFormed`); what becomes of it is stated unit by unit
  (`Quoting.RepairExactly`, with the inputs `SwallowedByte` and `WrappedNumber`);
- with dropped nulls the array of one null comes back empty (`FastWriter.LoneNullIsLost`), and a reader that
  does not expect them accepts only nulls at the end of arrays, and loses those
  (`FastWriter.DocumentRoundTrip`, with `RoundTrip.NullsExpected`);
- a smoke emitter's count goes wrong in three ways: a grenade starts to smoke with sprites linked
  (`SmokeSprites.Pool.ResetEmitter`); the map is restarted, where `InitSmokeSprites` is called at
  `src/cgame/cg_servercmds.cpp:990` and forgets the sprites but not the counts (`SmokeSprites.Pool.Init`;
  the other calls, at `src/cgame/cg_main.cpp:3113` and `3775`, set the game up); and a grenade comes back
  into the snapshot, where `CG_ResetEntity` clears its count while its sprites, which the sweep leaves alone,
  stay linked (`SmokeSprites.Pool.TransitionSnapshot`, `LeavesAndReturns`). The results on the pool hold for
  any counts, each falling short of the sprites by some offset; with a count of zero or less the unlink
  loop is skipped and sprites stay linked to a grenade that is gone (`SmokeSprites.Pool.UnlinkEmitter`),
  which the sweep then never frees (`SmokeSprites.AbsentKeeps`). The reset for entities that left the
  snapshot (`src/cgame/cg_snapshot.cpp:269`) is never reached;
- a missing spline makes the order of a snapshot matter (`EntityOrder.OrderFreeExactly`), and two views make
  entities appear twice (`EntityOrder.AtMostOnceExactly`);
- a full lagometer buffer makes the sum drift (`Lagometer.SumKeptExactly`, `SumOfRun`) and loses samples of
  the last five seconds (`Lagometer.WindowKeptExactly`, `AlwaysFilteredExactly`).

To check everything: `dafny verify dfyconfig.toml`.

## Model

| member | source | states |
|---|---|---|
| Utf8.DecodeEncode | deps/json/jsoncpp.cpp:4250-4299 | for every Unicode scalar value and any bytes after it, the reader recovers the code point and takes exactly the bytes the encoder wrote, and those bytes are one well-formed unit of RFC 3629 section 4 |
| Utf8.EncodeDecode | deps/json/jsoncpp.cpp:125-151 | for every well-formed unit of RFC 3629 at the front of a byte string, encoding the code point that is read gives back the same bytes |
| Utf8.ReadExactly | deps/json/jsoncpp.cpp:4250-4299 | for every byte string the reader checks only that the unit is long enough for its lead byte, not overlong and, in three bytes, no surrogate; then it gives the number in the payload bits, whatever the top bits of the later bytes are and however large the number, else U+FFFD |
| Utf8.ReplacementExactly | deps/json/jsoncpp.cpp:4250-4299 | a unit that does not start with an ASCII byte is read as U+FFFD if and only if it is cut off, starts with a byte from 0xF8 on, is overlong, is a surrogate in three bytes, or is U+FFFD itself |
| Quoting.DoesAnyCharRequireEscaping | deps/json/jsoncpp.cpp:4242-4248 | true if and only if some byte is a quote, a backslash, below 0x20 or above 0x7F |
| Quoting.ValueToQuotedString | deps/json/jsoncpp.cpp:4337-4412 | the loop with its early return writes, for all bytes and both settings, the literal that escapes unit after unit; no read goes past the end |
| Quoting.FastPath | deps/json/jsoncpp.cpp:4342-4343 | when no byte needs escaping, escaping one unit after the other changes nothing: the early return agrees with the slow path |
| Quoting.ScanEscaped | deps/json/jsoncpp.cpp:1653-1663 | wherever escaped text followed by a quote stands in a document, the scan for the closing quote stops at that quote and not before |
| Quoting.LiteralRoundTrip | deps/json/jsoncpp.cpp:1906-1957 | for every byte string and both settings: the printed literal, anywhere in a document, is delimited exactly and decodes to the repaired string |
| Quoting.DecodeEscaped | deps/json/jsoncpp.cpp:1906-1957 | for every byte string and both settings, decoding what was printed gives the repaired string; what the repair does is the subject of `RepairUtf8` and `RepairExactly` |
| Quoting.RepairExactly | deps/json/jsoncpp.cpp:4380-4407 | unit by unit, what printing without emitUTF8 and reading makes of any string: a rejected unit becomes U+FFFD, every other one, well-formed or not, becomes the encoding of the number in its payload bits, of which only twenty survive above U+FFFF |
| Quoting.SwallowedByte | deps/json/jsoncpp.cpp:4258-4266 | a lead byte swallows a byte that continues nothing: C3 28 comes back as C3 A8, and C3 with a quote as C3 A2 |
| Quoting.WrappedNumber | deps/json/jsoncpp.cpp:4281-4296 | F4 90 80 80 is read as the number 0x110000 and comes back as U+10000 |
| Quoting.DecodeSurrogatePair | deps/json/jsoncpp.cpp:1959-1982 | two hexadecimal escapes made from a 20-bit offset decode to the one code point they stand for (section 7 of RFC 8259) |
| Quoting.RepairUtf8 | deps/json/jsoncpp.cpp:4384-4390 | when UTF-8 is emitted nothing is repaired: all byte strings survive |
| Quoting.RepairWellFormed | deps/json/jsoncpp.cpp:4391-4406 | without emitUTF8 a well-formed UTF-8 string survives unchanged |
| Quoting.LosslessExactlyOnWellFormed | deps/json/jsoncpp.cpp:4391-4406 | without emitUTF8 a string survives printing and reading if and only if it is well-formed UTF-8 |
| Quoting.RepairIsWellFormed | deps/json/jsoncpp.cpp:4250-4299 | for every byte string, decoding the printed literal yields well-formed UTF-8 |
| Quoting.EscapeRepair | deps/json/jsoncpp.cpp:4352-4409 | sanitising is idempotent: escaping the decoded result gives the same text again |
| Quoting.EscapeIsAscii | deps/json/jsoncpp.cpp:4352-4409 | for every byte string the escaper emits only the bytes 0x20 to 0x7F, and at most 6n+2 of them for n bytes |
| StringSyntax.EscapeAnyCase | deps/json/jsoncpp.cpp:1984-2008 | for every number below 0x10000 and every spelling of its four digits, each in either case with the value given by its place in the row, the escape decodes to the number |
| StringSyntax.EscapeFailsExactly | deps/json/jsoncpp.cpp:1984-2008 | the escape fails if and only if fewer than four bytes follow or one of the four is in neither row of digits, and the first such byte is where the error is |
| StringSyntax.LettersExactly | deps/json/jsoncpp.cpp:1917-1941 | the eight letters of section 7 of RFC 8259, the slash among them, stand for their bytes, and no other byte does |
| StringSyntax.EscapeErrors | deps/json/jsoncpp.cpp:1917-1953 | a backslash at the end, before a byte that is no letter, or before a u with fewer than four bytes: which error, and where |
| StringSyntax.PairErrors | deps/json/jsoncpp.cpp:1959-1982 | a high surrogate fails if and only if fewer than six bytes follow, they do not start with a backslash and a u, or the four digits are not digits: which error, and where |
| StringSyntax.PiecesDecode | deps/json/jsoncpp.cpp:1906-1957 | any sequence of plain bytes, letters, escapes and pairs of escapes, whoever wrote it, decodes to the concatenation of what they stand for |
| StringSyntax.DecodedArePieces | deps/json/jsoncpp.cpp:1906-1957 | whatever is decoded was such a sequence |
| StringSyntax.HexEscapeExactly | deps/json/jsoncpp.cpp:4301-4336 | the printer writes a backslash, a u and the four digits of the number from the lower-case row |
| StringSyntax.PrintedExactly | deps/json/jsoncpp.cpp:4352-4409 | for every string and both settings, what is printed for its next character: a letter for seven bytes but not for the slash, an escape for the other control characters, the byte itself for the rest of ASCII and for all else when UTF-8 is kept, otherwise one escape, or two above U+FFFF |
| Integers.UintToString | deps/json/jsoncpp.cpp:167-173 | the backward digit loop writes the decimal digits and a final NUL, stays inside 21 of the bytes of the buffer and changes no other byte |
| Integers.DigitsShort | deps/json/jsoncpp.cpp:153-157 | a number below 10^k has at most k digits, the reason the buffer is large enough |
| Integers.NatOfDigits | deps/json/jsoncpp.cpp:167-173 | the digits written for a number denote that number |
| Integers.ValueToStringInt | deps/json/jsoncpp.cpp:4156-4170 | every signed 64-bit value, the minimum included, is printed as its sign and digits |
| Integers.ValueToStringUint | deps/json/jsoncpp.cpp:4172-4178 | every unsigned 64-bit value is printed as its digits |
| Integers.DecodeNumber | deps/json/jsoncpp.cpp:1793-1871 | the loop with its overflow guard returns the integer that the text denotes, signed up to 2^63-1 and unsigned beyond, and leaves the integer path exactly when there is none in range; no intermediate exceeds 64 bits |
| Integers.OldDecodeNumber | deps/json/jsoncpp.cpp:784-825 | the older reader returns the same integer for every token, but signed only up to 2^31-1 and unsigned beyond |
| Integers.ReadersAgreeExactly | deps/json/jsoncpp.cpp:784-825 | the two readers make the same value of a token if and only if it is no integer in range, at most 2^31-1, or above 2^63-1 |
| Integers.TooBig | deps/json/jsoncpp.cpp:1843-1855 | whenever the guard of the loop fires, the whole token denotes a number above the maximum |
| Integers.IntegerPathExactly | deps/json/jsoncpp.cpp:1793-1871 | a token of an optional minus and digits takes the integer path if and only if its mathematical value is in [-2^63, 2^64-1], and then has that value, signed up to 2^63-1 and unsigned beyond |
| Integers.IntegerRoundTrip | deps/json/jsoncpp.cpp:4156-4178 | every value in [-2^63, 2^64-1] is read back from its printed text |
| Integers.BareMinusIsZero | deps/json/jsoncpp.cpp:1839-1863 | a bare minus is read as the integer 0 |
| Values.BytesLessIsLex | deps/json/jsoncpp.cpp:2709-2724 | the length and memcmp comparison of keys is the lexicographic order of unsigned bytes |
| Values.KeyTrichotomy | deps/json/jsoncpp.cpp:2709-2738 | of two map keys exactly one is smaller, or they are equal |
| Values.KeyTransitive | deps/json/jsoncpp.cpp:2709-2724 | the key order is transitive |
| Values.FindsKey | deps/json/jsoncpp.cpp:3346-3348 | in a sorted map lower_bound followed by the equality test finds the element of every key that is there |
| Values.PutSorted | deps/json/jsoncpp.cpp:3346-3352 | inserting at lower_bound keeps the map sorted, sets the key and leaves all other keys alone |
| ValueOrder.EqualIsEquality | deps/json/jsoncpp.cpp:2960-3000 | operator== on real-free trees is equality of the trees |
| ValueOrder.Trichotomy | deps/json/jsoncpp.cpp:2904-3000 | operator< is irreflexive and asymmetric, and two trees are incomparable if and only if operator== holds |
| ValueOrder.Transitive | deps/json/jsoncpp.cpp:2904-2952 | operator< is transitive through nested arrays and objects |
| ValueOrder.MapTransitive | deps/json/jsoncpp.cpp:2940-2947 | the order of maps, first by size and then lexicographically by key and value, is transitive |
| ValueOrder.TypesInOrder | deps/json/jsoncpp.cpp:2904-2908 | values of different types are ordered null, integer, unsigned integer, string, boolean, array, object |
| ValueOrder.ScalarsInOrder | deps/json/jsoncpp.cpp:2909-2939 | integers and unsigned integers are ordered by size, strings by the first byte that differs with a proper prefix first, and false comes before true |
| ValueOrder.KeysInOrder | deps/json/jsoncpp.cpp:2709-2724 | indices are ordered by size, and names by the first byte that differs with a proper prefix first |
| ValueOrder.ContainersInOrder | deps/json/jsoncpp.cpp:2940-2947 | containers of one type are ordered by the number of entries, then by the first entry that differs: by its key, and then by its value |
| ArrayValues.ArrayValue.Size | deps/json/jsoncpp.cpp:3273-3294 | the highest index plus one is the number of positions, gaps included, of which the last is never a gap; 0 for null |
| ArrayValues.ArrayValue.At | deps/json/jsoncpp.cpp:3339-3353 | for any index: the element at it; a gap or a position beyond the end is filled with a null first, leaving gaps before it |
| ArrayValues.ArrayValue.Assign | deps/json/jsoncpp.cpp:3339-3353 | for any index: the element there is replaced or created, with gaps up to it, and nothing else changes |
| ArrayValues.ArrayValue.Clear | deps/json/jsoncpp.cpp:3304-3318 | no position is left |
| ArrayValues.ArrayValue.Append | deps/json/jsoncpp.cpp:3542-3549 | the value is appended and no other position changes |
| ArrayValues.ArrayValue.Insert | deps/json/jsoncpp.cpp:3555-3567 | the loop that swaps elements upwards inserts the value at the index and turns the gaps behind it into nulls; beyond the size it fails and changes nothing |
| ArrayValues.ArrayValue.RemoveIndex | deps/json/jsoncpp.cpp:3612-3634 | a present element is handed out and the later ones move down, gaps among them becoming nulls; after a removal at the end the gaps before it no longer count; with a gap or nothing at the index nothing changes |
| ArrayValues.ArrayValue.ShiftLeft | deps/json/jsoncpp.cpp:3624-3628 | the inner loop moves every later position one down and fills the gaps it reads |
| ArrayValues.ArrayValue.Resize | deps/json/jsoncpp.cpp:3320-3337 | truncates to a prefix, without the gaps at its end, or pads with nulls; the assertion at the end holds if and only if the size is the wanted one |
| ArrayValues.ArrayValue.Grow | deps/json/jsoncpp.cpp:3328-3330 | the loop of indexings appends exactly the missing nulls |
| ArrayValues.ArrayValue.Shrink | deps/json/jsoncpp.cpp:3331-3336 | erasing indices upwards from the new size leaves exactly the prefix, without the gaps at its end |
| ArrayValues.ArrayValue.Find | deps/json/jsoncpp.cpp:3616-3620 | answers with the element at the index, or with nothing at a gap or beyond the end, and changes nothing |
| ArrayValues.PutSlot | deps/json/jsoncpp.cpp:3346-3352 | for every index, storing in the sorted map keeps it sorted and is the write to that position of a row with gaps |
| ArrayValues.EraseSlot | deps/json/jsoncpp.cpp:3625-3632 | erasing a key below the size makes a gap, or takes the end off together with the gaps before it |
| ArrayValues.FullPut | deps/json/jsoncpp.cpp:3339-3353 | without gaps, writing at or below the size is the sequence update or append, and reading changes nothing |
| ArrayValues.FullInsert | deps/json/jsoncpp.cpp:3555-3567 | without gaps, insert is insertion into a sequence |
| ArrayValues.FullRemove | deps/json/jsoncpp.cpp:3612-3634 | without gaps, removeIndex is removal from a sequence |
| ArrayValues.FullResize | deps/json/jsoncpp.cpp:3320-3337 | without gaps, resize is a prefix or appends nulls |
| ArrayValues.FullPutExactly | deps/json/jsoncpp.cpp:3339-3353 | writing keeps an array without gaps if and only if the index is at most the size |
| ArrayValues.RemoveExactly | deps/json/jsoncpp.cpp:3612-3634 | for every array, sparse or not, removing a present index lowers the size by exactly one if and only if it was not the last, was the only one, or the position before the last is present |
| ArrayValues.ResizeExactly | deps/json/jsoncpp.cpp:3320-3337 | cutting an array gives the wanted size, so that the assertion at the end holds, if and only if that is zero, the old size, or ends right after a present element |
| ArrayValues.FullIsDense | deps/json/jsoncpp.cpp:3273-3294 | an array has no gaps if and only if its map holds exactly the keys 0 to n-1 |
| Lexer.ReadToken | deps/json/jsoncpp.cpp:1389-1498 | every token lies inside the document, takes at least one byte unless it is the end of the stream, and the end is reported exactly at the end or at a NUL byte outside a string |
| Lexer.NextToken | deps/json/jsoncpp.cpp:1379-1387 | skipping comments never moves back, and stops at a token with the same guarantees |
| Lexer.Recover | deps/json/jsoncpp.cpp:2019-2030 | recovery terminates and never moves back or past the end |
| Lexer.CommentAcceptedExactly | deps/json/jsoncpp.cpp:1597-1609 | a C comment is accepted if and only if it is terminated or the last byte of the document is a slash |
| NumberSyntax.NumberIsRead | deps/json/jsoncpp.cpp:1627-1652 | wherever an optional sign, digits, an optional point with digits and an optional e or E with an optional sign and digits stand, followed by nothing that could prolong them, the token is exactly that text |
| NumberSyntax.NumberHasParts | deps/json/jsoncpp.cpp:1627-1652 | whatever is read as a number consists of such parts |
| NumberSyntax.NumbersExactly | deps/json/jsoncpp.cpp:1627-1652 | a byte that is no white space starts a number token with a given end if and only if parts of a number stand there and end there |
| TokenSyntax.SpacesExactly | deps/json/jsoncpp.cpp:1500-1508 | white space are blank, tab, carriage return and line feed |
| TokenSyntax.PunctuationExactly | deps/json/jsoncpp.cpp:1394-1486 | the six structural characters, and only they, are tokens of their own |
| TokenSyntax.KeywordsExactly | deps/json/jsoncpp.cpp:1453-1472 | true, false, null and, where special floats are allowed, NaN are keyword tokens if and only if their characters stand there |
| TokenSyntax.InfinitiesExactly | deps/json/jsoncpp.cpp:1437-1480 | Infinity with or without a sign is a token if and only if special floats are allowed and its characters stand there |
| TokenSyntax.KeywordValues | deps/json/jsoncpp.cpp:1315-1350 | true, false and null stand for their values, the infinities for the doubles with the greatest exponent and no fraction, and NaN for the quiet one |
| TokenSyntax.ByteOrderMark | deps/json/jsoncpp.cpp:1510-1518 | three bytes, the encoding of U+FEFF, are skipped if and only if they stand first and the features say so |
| TokenSyntax.LineComment | deps/json/jsoncpp.cpp:1611-1625 | a line comment ends behind its line, whether the line ends in LF, CR, both, or with the document |
| TokenSyntax.BlockComment | deps/json/jsoncpp.cpp:1597-1609 | a block comment ends at the first closing mark behind its opening, which may not share the star |
| TokenSyntax.StringToken | deps/json/jsoncpp.cpp:1653-1663 | a literal made of plain bytes, letters and escapes between quotes is one token, wherever it stands |
| TokenSyntax.SingleQuotes | deps/json/jsoncpp.cpp:1664-1675 | text between single quotes is a string token if single quotes are allowed, and the quote alone is an error otherwise |
| Parser.ReadValue | deps/json/jsoncpp.cpp:1287-1377 | for every feature setting the position after a value is not before its start and not past the end, although a token may be un-read for a dropped null |
| OurReader.Reader.GetNextChar | deps/json/jsoncpp.cpp:2040-2044 | takes one byte, or gives NUL without moving at the end |
| OurReader.Reader.DoSkipSpaces | deps/json/jsoncpp.cpp:1500-1508 | moves to the first byte that is not one of the four white space bytes |
| OurReader.Reader.DoMatch | deps/json/jsoncpp.cpp:1520-1529 | moves past the pattern if it stands at the cursor, and not at all otherwise |
| OurReader.Reader.ReadCStyleComment | deps/json/jsoncpp.cpp:1597-1609 | the loop ends where the specification of C comments says, with the same verdict |
| OurReader.Reader.ReadCppStyleComment | deps/json/jsoncpp.cpp:1611-1625 | the loop ends after the line, with the two-byte line end taken as one |
| OurReader.Reader.ReadString | deps/json/jsoncpp.cpp:1653-1663 | the loop ends after the closing quote, or at the end of the document |
| OurReader.Reader.ReadNumber | deps/json/jsoncpp.cpp:1627-1652 | the three loops with their one-byte lookahead end after the longest digits, fraction and exponent; an infinity is reported |
| OurReader.Reader.DoReadToken | deps/json/jsoncpp.cpp:1389-1498 | returns the specified token and leaves the cursor at its end, for every byte and feature setting |
| OurReader.Reader.SkipCommentTokens | deps/json/jsoncpp.cpp:1379-1387 | reads tokens until one is not a comment when comments are allowed |
| OurReader.Reader.AddError | deps/json/jsoncpp.cpp:2010-2017 | appends exactly one error and fails |
| OurReader.Reader.RecoverFromError | deps/json/jsoncpp.cpp:2019-2030 | skips to the wanted token or the end and leaves the list of errors as it was |
| OurReader.Reader.AddErrorAndRecover | deps/json/jsoncpp.cpp:2032-2036 | adds exactly one error, whatever the recovery meets |
| OurReader.Reader.DecodeNumberToken | deps/json/jsoncpp.cpp:1793-1871 | the integer of the token, else what the floating point reader makes of it, else one error |
| OurReader.Reader.DecodeUnicodeEscapeSequence | deps/json/jsoncpp.cpp:1984-2008 | four hexadecimal digits give their value; otherwise one error |
| OurReader.Reader.DecodeUnicodeCodePoint | deps/json/jsoncpp.cpp:1959-1982 | one escape or a pair of surrogates gives the code point; otherwise one error |
| OurReader.Reader.DecodeStringToken | deps/json/jsoncpp.cpp:1906-1957 | the loop over a string token returns its decoded bytes, or adds exactly one error |
| OurReader.Reader.DoReadValue | deps/json/jsoncpp.cpp:1287-1377 | puts the specified value on top of the node stack and restores the rest of it; adds no error on success and exactly one on failure; throws exactly beyond the stack limit or at an over-long key |
| OurReader.Reader.ReadSlot | deps/json/jsoncpp.cpp:1758-1763 | reading through a reference into a container fills that one slot and leaves the rest of the stack as it was |
| OurReader.Reader.DoReadArray | deps/json/jsoncpp.cpp:1741-1781 | the loop reads the specified array, with trailing commas and dropped nulls as the features say; no error on success, exactly one on failure |
| OurReader.Reader.ReadElement | deps/json/jsoncpp.cpp:1747-1778 | one turn of the loop: the closing bracket, or an element with its separator |
| OurReader.Reader.NextElement | deps/json/jsoncpp.cpp:1757-1778 | the rest of a turn: an element that is read into its slot, and its separator; or the recovery after an error |
| OurReader.Reader.DoReadObject | deps/json/jsoncpp.cpp:1677-1739 | the loop reads the specified object; no error on success, exactly one on failure |
| OurReader.Reader.ReadNamed | deps/json/jsoncpp.cpp:1683-1735 | one turn of the loop: the closing brace (also after an empty name and a comma), or a name and its member |
| OurReader.Reader.ReadName | deps/json/jsoncpp.cpp:1694-1704 | a string, or a number when the features allow it, gives the name; otherwise one error |
| OurReader.Reader.ReadRest | deps/json/jsoncpp.cpp:1705-1735 | rejects duplicate keys when asked to, requires the colon, and then reads the value and the separator; throws at 2^30 bytes of name |
| OurReader.Reader.NextMember | deps/json/jsoncpp.cpp:1717-1735 | the rest of a turn: the value of a member that is read into its slot, and its separator; or the recovery after an error |
| OurReader.Reader.Parse | deps/json/jsoncpp.cpp:1241-1285 | for every document and feature setting: the value and the errors are the specified ones, the stack is empty again and never exceeded stackLimit plus one, and the result is true if and only if there are no errors |
| Grammar.Understand | deps/json/jsoncpp.cpp:1287-1377 | under every feature setting, wherever the tokens of a tree of the grammar are next, readValue gives the meaning of the tree and stops behind it, throws, or fails, as the meaning says |
| Grammar.Derive | deps/json/jsoncpp.cpp:1287-1377 | whatever readValue accepts are the tokens of a tree of the grammar whose meaning is the value read |
| Grammar.LanguageExactly | deps/json/jsoncpp.cpp:1287-1377 | readValue succeeds at a position if and only if the tokens of a sentence are next there, and then gives the meaning of every such sentence |
| Grammar.DocumentsExactly | deps/json/jsoncpp.cpp:1241-1285 | for every document and feature setting, parse succeeds if and only if after the byte order mark there is a sentence, with nothing behind it if failIfExtra, that means a container if strictRoot; then the root is its meaning |
| Grammar.RecordExactly | deps/json/jsoncpp.cpp:1677-1739 | entries that are in order by themselves make an object if and only if a comma or comments stand between any two, and a comma trails only if the features allow it or the last name is empty; otherwise the reader fails |
| Grammar.ListExactly | deps/json/jsoncpp.cpp:1741-1781 | items that are in order by themselves make an array if and only if no comma trails or the features allow it |
| Grammar.ParseUnderstood | deps/json/jsoncpp.cpp:1241-1377 | a text that spells a sentence, with any white space between its tokens, parses to the meaning of the sentence under every feature setting, the only further error being that of strictRoot |
| Errors.RecoverExactly | deps/json/jsoncpp.cpp:2019-2030 | recovery skips tokens that are not of the wanted kind and stops behind the first one that is, or at the end of the stream |
| Errors.NoValue | deps/json/jsoncpp.cpp:1287-1377 | a token that starts no value gives the error that a value was expected, at that token, unless it stands for a dropped null |
| Errors.BadStringAt | deps/json/jsoncpp.cpp:1906-1957 | a string token gives its decoded bytes as value or name, or the error of the decoder, located as far before the closing quote as the decoder had bytes left |
| Errors.AtName | deps/json/jsoncpp.cpp:1683-1704 | what starts a member: the closing brace where it may stand, a string, or a number if names may be numbers; any other token gives the error about a missing brace or name, and a bad string or number its own error |
| Errors.AfterName | deps/json/jsoncpp.cpp:1705-1723 | behind a name: at 2^30 bytes an exception, then the error about a duplicate key at the name, then the error about a missing colon at the next token, then the outcome of the value |
| Errors.AfterValue | deps/json/jsoncpp.cpp:1724-1735 | behind a member: a brace ends the object, a comma leads to the next name, any token but a comment gives the error about a missing comma or brace, and behind comments any token passes |
| Errors.AfterItem | deps/json/jsoncpp.cpp:1765-1778 | behind an element and comments: a bracket ends the array, a comma leads to the next element, anything else gives the error about a missing comma or bracket at that token |
| Errors.RootChecks | deps/json/jsoncpp.cpp:1261-1284 | the errors of a document are that of its value, if any, and then that of the first check behind it which fails: nothing but comments follows, and the root is a container |
| Leniency.SeparatorsExactly | deps/json/jsoncpp.cpp:1677-1739 | a document of one object whose entries are in order is accepted if and only if a comma or comments stand between any two entries (after a comment, whatever token follows counts as the separator) and a trailing comma is allowed or follows an empty name |
| Leniency.TrailingCommaExactly | deps/json/jsoncpp.cpp:1683-1692 | for every object that is not empty, and every feature setting: its text with a comma before the brace is accepted if and only if no check on the object fails, and allowTrailingCommas holds or the last name is empty; then the object is read as without the comma |
| Leniency.AcceptedTrailingComma | deps/json/jsoncpp.cpp:1689-1692 | {"":1,} is accepted under every feature setting with a stackLimit of two |
| Leniency.AcceptedStringForComma | deps/json/jsoncpp.cpp:1724-1735 | {"a":1/**/"b""c":2} is accepted under every feature setting with a stackLimit of two, also without allowComments, and the second string is lost |
| Tokens.SpellsAppend | deps/json/jsoncpp.cpp:4443-4494 | pieces of text that spell token sequences spell the concatenation when put together |
| Tokens.SpellsLex | deps/json/jsoncpp.cpp:1389-1498 | a text that spells a token sequence, with any white space between the tokens, is split by the reader into exactly that sequence, for every feature setting |
| RoundTrip.TokensSeparated | deps/json/jsoncpp.cpp:4443-4494 | in the tokens of a value no number stands before a token that could prolong it |
| RoundTrip.YieldOfPrinted | deps/json/jsoncpp.cpp:4443-4494 | the tokens of a printed value, sparse arrays and dropped nulls included, are those of a tree of the grammar |
| RoundTrip.EvalPrinted | deps/json/jsoncpp.cpp:1287-1377 | that tree means the value that comes back, unless a check fails, and the first one that fails in the order of the text decides whether the reader throws (depth, length of a name) or fails (a repeated name, a dropped null it does not expect) |
| RoundTrip.ChecksExactly | deps/json/jsoncpp.cpp:1287-1377 | no check fails if and only if the limits are kept, no names collide that may not, and no dropped null is missed; a first failure that throws means a limit, any other means a collision or a missed null |
| RoundTrip.NoneMissed | deps/json/jsoncpp.cpp:1345-1356 | a reader that expects dropped nulls misses none, nor does any reader when none are dropped |
| RoundTrip.ParseSpelled | deps/json/jsoncpp.cpp:1241-1377 | for every feature setting, a text that spells a value, with or without emitUTF8 and dropped nulls, is accepted if and only if nesting and repaired names stay within the limits, no two names collide when rejectDupKeys is on, each dropped null is expected or stands at the end of an array, alone or behind a comma that may trail, and strictRoot does not stand against the root; then it gives what comes back of the value, else it throws or fails as the first failing check says |
| RoundTrip.RereadExactly | deps/json/jsoncpp.cpp:1859-1869 | what comes back is the value itself if and only if it has no small unsigned number, no string or name that needs repair, no gap in an array and no null at the end of an array that the reader does not recognise |
| RoundTrip.FaithfulIsDistinct | deps/json/jsoncpp.cpp:1707-1710 | in a value that comes back unchanged no two names collide |
| RoundTrip.BlankDocument | deps/json/jsoncpp.cpp:1241-1285 | a document of white space, which is what a dropped null leaves, is never accepted |
| FastWriter.Writer.constructor | deps/json/jsoncpp.cpp:4425-4427 | all options are off and nothing is written |
| FastWriter.Writer.Write | deps/json/jsoncpp.cpp:4435-4441 | returns the specified text and the line feed unless it is omitted; an earlier document leaves no trace |
| FastWriter.Writer.WriteValue | deps/json/jsoncpp.cpp:4443-4494 | appends exactly the specified text of the value |
| FastWriter.Writer.WriteElements | deps/json/jsoncpp.cpp:4470-4479 | the loop appends the elements with commas between them, a null for each missing index of a sparse array |
| FastWriter.Writer.WriteMembers | deps/json/jsoncpp.cpp:4480-4492 | the loop over the sorted names appends names, colons and values with commas between them |
| FastWriter.Writer.WriteMember | deps/json/jsoncpp.cpp:4483-4491 | one turn: the quoted name, the colon and the value found under that name |
| FastWriter.TextSpells | deps/json/jsoncpp.cpp:4443-4494 | the text written for a value, with any options, spells exactly the tokens of that value |
| FastWriter.ArrayTextExactly | deps/json/jsoncpp.cpp:4470-4479 | the text of an array is that of its elements, missing ones being nulls, in order between commas and brackets |
| FastWriter.ObjectTextExactly | deps/json/jsoncpp.cpp:4480-4492 | the text of an object is that of its names, colons and values, in order between commas and brackets; the colon has a blank behind it if and only if YAML compatibility is on |
| FastWriter.KeywordTextsExactly | deps/json/jsoncpp.cpp:4445-4469 | the texts of null, which may be dropped, and of the booleans |
| FastWriter.DocumentRoundTrip | deps/json/jsoncpp.cpp:4435-4494 | for every real-free value, all writer options and all reader features: the written document is accepted if and only if the limits are kept, no names collide that may not, no dropped null is missed, strictRoot allows the root and the root is no dropped null; then the root is what comes back of the value, which is the value itself if and only if nothing in it changes on the way; otherwise the first failing check tells exception from error |
| FastWriter.FaithfulRoundTrip | deps/json/jsoncpp.cpp:4435-4494 | without dropped nulls, or with a reader that expects them, a value in which nothing changes comes back as it was, throwing exactly beyond the limits and with no error unless strictRoot forbids the root |
| FastWriter.LoneNullIsLost | deps/json/jsoncpp.cpp:4443-4479 | with dropped nulls the array of one null is printed as [] and comes back empty to every reader |
| StyledWriter.Writer.Write | deps/json/jsoncpp.cpp:4988-5001 | for every indentation, colon, null symbol and comment style the document is exactly the laid out text of the value and the ending; an earlier document leaves no trace |
| StyledWriter.Writer.WriteValue | deps/json/jsoncpp.cpp:5003-5064 | while children are measured exactly one entry, the piece of the value, is added and nothing is printed; otherwise exactly the laid out text is appended |
| StyledWriter.Writer.WriteArrayValue | deps/json/jsoncpp.cpp:5066-5114 | appends exactly the layout of the array, on one line or on many, from the collected children or by recursion |
| StyledWriter.Writer.IsMultilineArray | deps/json/jsoncpp.cpp:5116-5141 | the answer is true if and only if comments are on, the array is long, holds a non-empty container, or would reach the right margin on one line; the side buffer then holds the piece of each element if the elements are few and single pieces, and is empty otherwise |
| StyledWriter.Writer.Measure | deps/json/jsoncpp.cpp:5128-5138 | the second loop collects exactly one piece for each element and returns the length of the one line |
| StyledWriter.Writer.WriteFields | deps/json/jsoncpp.cpp:5044-5059 | the loop over the sorted names appends exactly one line for each member |
| StyledWriter.Writer.PushValue | deps/json/jsoncpp.cpp:5143-5148 | goes to the collected children or to the output, never both |
| StyledWriter.Writer.WriteIndent | deps/json/jsoncpp.cpp:5150-5160 | a new line and the indentation when there is one, else nothing |
| StyledWriter.Writer.WriteWithIndent | deps/json/jsoncpp.cpp:5162-5167 | the text follows the indentation unless the line is already indented |
| StyledWriter.Writer.Unindent | deps/json/jsoncpp.cpp:5171-5174 | takes back exactly one indentation |
| StyledWriter.StyledSpells | deps/json/jsoncpp.cpp:5003-5114 | for every value, white space layout and indentation the text spells exactly the tokens of the value |
| StyledWriter.CompactDocument | deps/json/jsoncpp.cpp:4988-5114 | with empty indentation the document is byte for byte the FastWriter text and the ending |
| StyledWriter.LexesLikeFast | deps/json/jsoncpp.cpp:5003-5114 | for every white space layout the document is split into the same tokens as the FastWriter text, for every reader feature |
| StyledWriter.StyledRoundTrip | deps/json/jsoncpp.cpp:4988-5141 | for every layout and all reader features the document is accepted under exactly the conditions of the FastWriter document, gives what comes back of the value, and fails as the first failing check says |
| Indentation.LinesIndented | deps/json/jsoncpp.cpp:5036-5174 | for every value and white space indentation, after every line feed of the text, which never stands in a string, come exactly as many copies of the indentation as containers are open there, one fewer before a closing bracket |
| Indentation.TextShifts | deps/json/jsoncpp.cpp:5003-5114 | the text at a deeper place is the text at the shallower one with the difference put after every line feed |
| Indentation.ManyLinesExactly | deps/json/jsoncpp.cpp:5116-5141 | an array takes many lines if and only if comments are on, it has more than 24 elements, an element is a container that is not empty, or its text on one line has 74 bytes or more |
| Indentation.ArrayOnOneLine | deps/json/jsoncpp.cpp:5097-5112 | otherwise its text is a bracket, a blank, the pieces with a comma and a blank between them, a blank and a bracket |
| Indentation.ArrayOnManyLines | deps/json/jsoncpp.cpp:5072-5096 | on many lines each element and the closing bracket start a line, with commas between the elements |
| Indentation.ObjectOnManyLines | deps/json/jsoncpp.cpp:5036-5062 | each member of an object, its name, the colon and its value, starts a line, and so does the closing bracket |
| Rewriting.ReadIsBuilt | deps/json/jsoncpp.cpp:1287-1781 | for every document and feature setting, whatever readValue accepts has arrays without gaps, objects sorted by names below 2^30 bytes, numbers of 64 bits that are signed whenever they fit, and nests no deeper than the stack limit leaves room for |
| Rewriting.RewrittenExactly | deps/json/jsoncpp.cpp:4435-4494 | for every accepted document without doubles, under every feature setting: the FastWriter text of its value is accepted with the same value if and only if all strings and names in it are well-formed UTF-8 |
| Rewriting.RestyledExactly | deps/json/jsoncpp.cpp:4988-5114 | the same for every layout of the styled writer, and without any condition when it keeps UTF-8 |
| Sha1.CircularShifts | deps/sha-1/sha1.c:46-48 | the shift macro is the rotation of FIPS PUB 180-1 for the three amounts in use |
| Sha1.Context.Reset | deps/sha-1/sha1.c:71-85 | whatever happened before, the context absorbs an empty message |
| Sha1.Context.Input | deps/sha-1/sha1.c:143-185 | the byte loop takes the message into the context: the digest words are the fold over all full blocks, the block buffer holds the rest, the two length words encode eight times the bytes; too long a message or input after a result corrupts |
| Sha1.Context.TakeOctet | deps/sha-1/sha1.c:160-181 | one turn of the loop keeps these relations, flushing a full block |
| Sha1.Context.CountOctet | deps/sha-1/sha1.c:163-176 | the 64-bit count in two words grows by eight and reports the overflow |
| Sha1.LengthCarry | deps/sha-1/sha1.c:163-176 | the carry between the length words is right, and it is lost exactly when the bit count reaches 2^64 |
| Sha1.Context.ProcessMessageBlock | deps/sha-1/sha1.c:207-301 | the schedule and the four loops of twenty rounds compute the compression function of section 7 of FIPS PUB 180-1 |
| Sha1.Context.FillSchedule | deps/sha-1/sha1.c:221-235 | the array W is the message schedule of section 7 of FIPS PUB 180-1 |
| Sha1.Context.FirstRounds | deps/sha-1/sha1.c:243-253 | twenty assignments with the choice of B between C and D and the first constant are rounds 0 to 19 of the standard |
| Sha1.Context.SecondRounds | deps/sha-1/sha1.c:255-264 | twenty assignments with the exclusive or of B, C and D and the second constant are rounds 20 to 39 |
| Sha1.Context.ThirdRounds | deps/sha-1/sha1.c:266-276 | twenty assignments with the majority of B, C and D and the third constant are rounds 40 to 59 |
| Sha1.Context.LastRounds | deps/sha-1/sha1.c:278-287 | twenty assignments with the exclusive or and the fourth constant are rounds 60 to 79 |
| Sha1.Context.PadMessage | deps/sha-1/sha1.c:326-371 | the digest words become the SHA-1 of all bytes taken in, with one block or, above index 55, two |
| Sha1.Context.PadBuffer | deps/sha-1/sha1.c:334-362 | the one bit and the zeros are exactly the padding of section 4 of FIPS PUB 180-1 up to the length |
| Sha1.Context.StoreLength | deps/sha-1/sha1.c:364-371 | the last eight bytes are the bit length, most significant first |
| Sha1.Context.Result | deps/sha-1/sha1.c:104-119 | succeeds unless corrupted; then the words are SHA-1 of the message, and further calls leave the digest as it is |
| Sha1.PaddedLength | deps/sha-1/sha1.c:304-371 | the padded message is a whole number of blocks for every length |
| Sha1.PaddedExactly | deps/sha-1/sha1.c:304-371 | the padded message is the message, a byte 0x80, zeros, and eight bytes that denote eight times its length |
| Sha1.ConstantsAreRoots | deps/sha-1/sha1.c:209-215 | in each of the four ranges the constant of the standard is 2^30 times the square root of 2, 3, 5 or 10, rounded down |
| Sha1Example.DigestOfAbc | deps/sha-1/sha1.c:206-297 | the digest of the three bytes of abc is A9993E36 4706816A BA3E2571 7850C26C 9CD0D89D, as in appendix A of FIPS PUB 180-1 |
| Sha1.FoldAppend | deps/sha-1/sha1.c:207-301 | one more block compresses the fold of the blocks before |
| Sha1.AnyChunking | deps/sha-1/sha1.c:143-185 | any sequence of inputs takes in the concatenation of its chunks, or corrupts the context exactly when its bit count reaches 2^64 |
| Sha1.CorruptExactly | deps/sha-1/sha1.c:143-184 | over every sequence of calls without a reset the context is corrupted if and only if some input overflowed the count or a non-empty input followed a result; otherwise it holds exactly the bytes given |
| Sha1.OnlyResetClears | deps/sha-1/sha1.c:71-119 | a corrupted context stays so under all calls but a reset, and a reset always gives a fresh one |
| SmokeSprites.Pool.Init | src/cgame/cg_effects.cpp:891-902 | from any state: no node is used and the free list goes through all 512 nodes in order; the emitters' counts are right afterwards if and only if they were all zero before |
| SmokeSprites.Pool.Alloc | src/cgame/cg_effects.cpp:904-925 | the first free node moves to the end of the used list; it fails, changing nothing, if and only if all 512 nodes are used; both lists stay acyclic, disjoint, mirrored and complete |
| SmokeSprites.Pool.Dealloc | src/cgame/cg_effects.cpp:929-958 | the node leaves the used list, wherever it is, for the front of the free list, the order of the others is kept and the predecessor is returned |
| SmokeSprites.Pool.Partition | src/cgame/cg_effects.cpp:884-958 | the used and the free list never share a node and together hold exactly the nodes of the array |
| SmokeSprites.Pool.Spawn | src/cgame/cg_effects.cpp:1002-1028 | from any counts: on success the sprite belongs to the emitter and its count grows; a stuck sprite is taken back without trace; what each count falls short by stays the same |
| SmokeSprites.Pool.ResetEmitter | src/cgame/cg_effects.cpp:1036-1042 | from any counts: afterwards the count falls short by all sprites of the emitter; it falls short by what it did before if and only if it was zero, and is right if and only if the emitter has no sprite |
| SmokeSprites.Pool.UnlinkEmitter | src/cgame/cg_effects.cpp:1118-1131 | from any counts: a positive count makes all sprites of the emitter lose it and ends at what it was too high by; any other count skips the loop, so no sprite belongs to the emitter afterwards if and only if the count was positive or none did before |
| SmokeSprites.Pool.SpawnAll | src/cgame/cg_effects.cpp:1079-1117 | from any counts: the loop adds one sprite for each pair of tries that does not fail twice, until the pool is full, and the counts fall short by what they did |
| SmokeSprites.Pool.Render | src/cgame/cg_effects.cpp:1030-1132 | from any counts, by state of the grenade: reset, smoke, unlink under a positive count, or nothing; what the counts fall short by changes if and only if a count that is not zero is reset |
| SmokeSprites.Pool.Sweep | src/cgame/cg_effects.cpp:1134-1233 | from any counts: every sprite used at the start is visited exactly once, last first, although nodes are freed on the way; exactly the stuck and expired ones whose emitter is valid or gone are freed; survivors keep their order, an emitter that is not valid keeps all its sprites, and the counts fall short by what they did |
| SmokeSprites.Pool.SweepOne | src/cgame/cg_effects.cpp:1147-1177 | one turn of the sweep goes on with the predecessor whether the node is freed or kept, and counts the emitter of a freed node down |
| SmokeSprites.Pool.OffsetsExactly | src/cgame/cg_effects.cpp:1002-1177 | whatever the counts are, there is exactly one offset for each emitter by which its count falls short, so that the results above leave out no state |
| SmokeSprites.Pool.ResetEntity | src/cgame/cg_snapshot.cpp:23-60 | the count becomes zero without a look at the sprites: it is right if and only if the entity has none |
| SmokeSprites.Pool.TransitionEntity | src/cgame/cg_snapshot.cpp:69-109 | an entity that is not interpolated has its count reset, any other keeps it; it is valid afterwards and no longer interpolated |
| SmokeSprites.Pool.SetNextSnap | src/cgame/cg_snapshot.cpp:328-346 | exactly the entities that are in the current snapshot and do not teleport will be interpolated |
| SmokeSprites.Pool.TransitionSnapshot | src/cgame/cg_snapshot.cpp:231-272 | exactly the entities of the next snapshot that are not interpolated, or appear twice, have their counts reset; the counts fall short by what they did if and only if all those counts were zero; an entity that is gone becomes invalid and keeps its count, since the reset meant for it is never reached |
| SmokeSprites.Pool.LeavesAndReturns | src/cgame/cg_snapshot.cpp:97-102 | a grenade that leaves the snapshot, comes back and is then gone keeps all its sprites, although its count is zero |
| SmokeSprites.AbsentKeeps | src/cgame/cg_effects.cpp:1147-1150 | the sweep frees no sprite of an emitter that is not in the snapshot |
| SmokeSprites.AllocKeeps | src/cgame/cg_effects.cpp:904-925 | the pointer updates of an allocation keep both lists well linked |
| SmokeSprites.DeallocKeeps | src/cgame/cg_effects.cpp:929-958 | the pointer updates of a deallocation keep both lists well linked, for the first, a middle, the last and the only node |
| SmokeSprites.SelectSplits | src/cgame/cg_effects.cpp:1145-1231 | survivors and freed sprites together are exactly the sprites there were |
| Entities.Scene.AddLinkedEntity | src/cgame/cg_ents.cpp:2776-2928 | marks, moving flags and processed entities change as the specification of the recursion says, with and without ignoreframe |
| Entities.Scene.AddEntityToTag | src/cgame/cg_ents.cpp:2939-3010 | the same for tag-connected entities, whose parent is added first |
| Entities.Scene.AddCEntityFilter | src/cgame/cg_ents.cpp:3021-3036 | the same for the function that chooses between the kinds of entities |
| Entities.Scene.AddCEntity | src/cgame/cg_ents.cpp:2757-2770 | an entity that is not event-only is marked and processed |
| Entities.Scene.CalcEntityLerpPositions | src/cgame/cg_ents.cpp:2346-2379 | evaluating the mover below an entity changes moving flags only as three evaluations of its chain do |
| Entities.Scene.NextFrame | src/cgame/cg_view.cpp:2119 | raising the frame counter unmarks every entity |
| Entities.Scene.AddPacketEntities | src/cgame/cg_ents.cpp:3082-3090 | over a whole frame: parents before children, at most once with fewer than two views, and unless a given-up entity has waiting children the set processed is the closure of the snapshot and every linked entity moves as the head of its chain |
| EntityOrder.FrameKeeps | src/cgame/cg_ents.cpp:3088-3090 | in every world with acyclic parent links and for every snapshot: each processed entity comes after its parent unless that is event-only or given up; what is marked but not processed was given up for want of a spline; with fewer than two views nothing is processed twice |
| EntityOrder.LinkedKeeps | src/cgame/cg_ents.cpp:2776-2928 | a visit of a linked entity keeps these relations and marks only entities of its own chain |
| EntityOrder.FilteredKeeps | src/cgame/cg_ents.cpp:3021-3036 | a visit of any entity keeps these relations |
| EntityOrder.FrameExact | src/cgame/cg_ents.cpp:3088-3090 | unless a given-up entity has children that wait for it, the set processed is the closure of the snapshot under the parents that are needed |
| EntityOrder.OrderFreeExactly | src/cgame/cg_ents.cpp:2811-2827 | the set processed is the same for all orders of every snapshot if and only if no entity that is given up for want of a spline has children that wait for it |
| EntityOrder.OrderMatters | src/cgame/cg_ents.cpp:2811-2827 | for any child of a given-up parent: with the parent first the child is processed, with the child first it is not |
| EntityOrder.AtMostOnceExactly | src/cgame/cg_ents.cpp:2786-2790 | no entity is processed twice in any frame of any world if and only if mvTotalClients is below two |
| EntityOrder.AddedTwice | src/cgame/cg_ents.cpp:2786-2790 | with two views a train of three cars in the order last, middle has its middle car processed twice |
| EntityOrder.ReevaluationLeavesOrder | src/cgame/cg_ents.cpp:2262-2272 | evaluating a chain with ignoreframe marks and processes nothing |
| EntityOrder.FrameInherits | src/cgame/cg_ents.cpp:2896-2923 | every linked entity that is processed has its moving flag from the head of its chain, through parents that were up to date in this frame |
| Lagometer.SampledStat.AddSnapshot | src/cgame/cg_draw.cpp:606-663 | one snapshot restarts the statistics when time went back, stores the sample, prunes the stale front and adjusts the sum |
| Lagometer.SampledStat.Store | src/cgame/cg_draw.cpp:631-647 | the sample goes to the end, or over the last one when the buffer is full, and the sum grows by it |
| Lagometer.SampledStat.Prune | src/cgame/cg_draw.cpp:649-663 | the loop and the move drop exactly the stale front and take its elapsed times off the sum |
| Lagometer.WindowIsFilter | src/cgame/cg_draw.cpp:596-663 | over every run in which no snapshot finds the buffer full: the samples are exactly those since the last restart that are younger than five seconds, in order, and the sum is that of their elapsed times |
| Lagometer.NeverFullExactly | src/cgame/cg_draw.cpp:632-638 | no snapshot of a run finds the buffer full if and only if, as the times alone tell, before each snapshot that does not restart fewer than 1024 came in the five seconds up to the one before |
| Lagometer.AlwaysFilteredExactly | src/cgame/cg_draw.cpp:606-663 | over every run: the window is the filtered history after every snapshot if and only if each snapshot restarts, comes after fewer than 1024 in five seconds, or comes five seconds after the one before |
| Lagometer.WindowKeptExactly | src/cgame/cg_draw.cpp:632-663 | one snapshot keeps the window equal to the filtered history if and only if the buffer was not full or the overwritten sample was stale anyway |
| Lagometer.SumKeptExactly | src/cgame/cg_draw.cpp:632-647 | one snapshot keeps the running sum exact if and only if the buffer was not full or the overwritten sample had no elapsed time |
| Lagometer.Drift | src/cgame/cg_draw.cpp:632-657 | each snapshot moves the sum away from the samples by exactly the elapsed time that was overwritten |
| Lagometer.SumOfRun | src/cgame/cg_draw.cpp:606-663 | on every run the running sum exceeds that of the samples by exactly the elapsed times overwritten since the last restart |
| Lagometer.FullBufferDrifts | src/cgame/cg_draw.cpp:632-647 | after 1025 snapshots one millisecond apart the sum is one too high |
| Lagometer.CountBounds | src/cgame/cg_draw.cpp:634-663 | on every run there are 1 to 1024 samples after a snapshot, the newest being the last |
| Uuid4.Generator.Xorshift128plus | deps/uuid4/uuid4.c:22-30 | one step of the seed and the sum it returns |
| Uuid4.Generator.Generate | deps/uuid4/uuid4.c:67-90 | draws twice, writes the 36 characters of the template and a NUL, and nothing else of the buffer |
| Uuid4.Generator.Print | deps/uuid4/uuid4.c:76-89 | the loop over the template writes the specified characters |
| Uuid4.StepBitByBit | deps/uuid4/uuid4.c:22-30 | bit by bit on numbers, without naming a shift: the new words from the old ones, and the output as a sum modulo 2^64 |
| Uuid4.OctetIsDigit | deps/uuid4/uuid4.c:70-74 | octet i of a drawn word is its digit i to the base 256 |
| Uuid4.DigitAt | deps/uuid4/uuid4.c:76-89 | each half-byte, the low one first, is printed as its hexadecimal digit at the place that follows from the template, and the variant digit keeps its two low bits |
| Uuid4.KnownUuid | deps/uuid4/uuid4.c:67-90 | the seed (1, 32) prints 02000800-0000-4000-8024-040110000000 |
| Uuid4.TemplateShape | deps/uuid4/uuid4.c:68-88 | the template has 36 places with the hyphens, the 4 and the y where section 4.4 of RFC 4122 wants them, and only 31 of the 32 half-bytes are consumed |
| Uuid4.StepIsBijection | deps/uuid4/uuid4.c:22-30 | the step on the 128-bit state has an inverse on both sides |
| Uuid4.NeverZero | deps/uuid4/uuid4.c:22-30 | any number of steps leads to the zero state if and only if it began there |
| Uuid4.UuidIsVersion4 | deps/uuid4/uuid4.c:67-90 | every generated string has the version 4 layout: hexadecimal groups of 8, 4, 4, 4 and 12, version digit 4, variant digit 8 to b |
| Uuid4.BitsUsed | deps/uuid4/uuid4.c:79-85 | the template consumes 122 bits in all |
| Uuid4.DependsOnUsedBits | deps/uuid4/uuid4.c:79-85 | two draws print alike if and only if they agree in those 122 bits |

## Left out

- FastWriter.DocumentRoundTrip: real numbers are excluded.
- Rewriting.RewrittenExactly: documents with real numbers are excluded, since their text is up to the C library, and so is the printer's setting that drops nulls, for which `FastWriter.DocumentRoundTrip` gives the condition.
- RoundTrip.ParseSpelled: values are real-free; floating point reading and printing are parameters of the model (`Doubles`), because they are done by the C library.
- Grammar.Understand: the meaning of a tree says whether reading it throws or fails; which error it is, and where, is told check by check in `Errors`, not for whole trees.
- OurReader.Reader.DoReadValue: `nodes_` holds copies that are written back when a node is popped, where the source holds pointers into the tree; aliasing is not modelled.
- OurReader.Reader.ReadSlot: the slot that is filled is a copy which is written back, where the source fills it through a reference into the tree.
- OurReader.Reader.Parse: comments are skipped but not collected, offsets of values are not stored, and the text of an error message is a datatype of its causes; the root value is passed in and returned.
- StyledWriter.Writer.Write: values carry no comments and hold no real numbers, and lengths are unbounded integers.
- ArrayValues.ArrayValue.At: indices are unbounded; the wrap of a 32-bit index or size is not modelled.
- ValueOrder.Trichotomy: real numbers are excluded, since a NaN is neither smaller, larger nor equal; keys of one map are all indices or all names.
- SmokeSprites.Pool.Sweep: what physics and distance decide for each sprite is an argument; positions, colours and drawing are not modelled.
- SmokeSprites.Pool.Render: the floating point arithmetic on times that yields the number of sprites due is an argument, and so is whether the emitter is stuck in a solid.
- SmokeSprites.Pool.TransitionSnapshot: of the entities only the fields that emitters use are modelled; events, the player's own entity and the first snapshot of a game are not. Speakers and landmines write the same count field for purposes of their own, which any offset allows for.
- Entities.Scene.AddLinkedEntity: of the computed position only the moving flag is modelled; the links must be acyclic (on a cycle the source recurses without end) and within the entity array.
- Entities.Scene.AddEntityToTag: of the computed position only the moving flag is modelled; the tag's place on the model is not.
- Entities.Scene.AddPacketEntities: the entity of the predicted player, which is outside the array, and the second loop over movers are not modelled; every further call of the filter keeps the relations of `EntityOrder.FilteredKeeps`.
- Entities.Scene.CalcEntityLerpPositions: the conditions under which a position is adjusted for a mover are one field of the entity.
- Lagometer.SampledStat.AddSnapshot: the rounded average and the ring buffers of frame and snapshot times are not modelled, and times are unbounded integers.
- Indentation.LinesIndented: the indentation is white space without a line feed, and the colon has no line feed, quote or bracket, as the settings of the builder have it; otherwise lines could not be told from the text.
- Uuid4.Generator.Generate: the two words are numbers below 2^64 with their bits (`Words`); the bytes of the two words are taken in little-endian order; any seed is allowed, the reading of the seed from the system is not part of this model.
- Sha1.Context.Input: a single call takes fewer than 2^32 bytes, the range of its length parameter; octets are taken as already masked.
- The contents of single-quoted strings, special floats in the writers, comment placement, error message locations and `Path`.
- The older `StyledWriter` and `StyledStreamWriter`, and all of the older `Reader` except its integer decoder.
- Secure memory, prefixed string storage, locales, streams and the choice between exceptions and abort.
- Rendering, sound, traces, menus and the remaining game code.
