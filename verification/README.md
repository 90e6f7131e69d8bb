# Verified models of the ICE bridge server

This project models four parts of the server in Dafny and proves what they are for.

* **JSON text layer** (`third/eice/src/jsoncpp.cpp`). `JsonReader.Reader` is the hand-written recursive-descent
  reader: a class with the cursor, the node stack and the error list, every method proved against a recursive
  function over the text (`JsonParsing`). `JsonWriter` holds `FastWriter` and `StyledWriter` as classes that append
  to a document. What a value prints is a list of lexemes (`JsonTokens.Tokens`); both writers lay out exactly that
  list, `JsonRoundTrip` proves what any layout of it reads back as, and exactly when that is the value's normal form,
  and `JsonLexemes` that reading depends on nothing but the lexemes. `JsonGrammar` gives the accepted language by syntax
  trees and says what each means: the reader accepts exactly these, members in any order and names repeated or not.
  `JsonText` pins the tokenizer to characters, `JsonEscapes` string bodies to the escapes they are made of, `JsonMaps`
  insertion and lookup to the entries of a map, `JsonOrder` the ordering to the contents of the values. `JsonNumber`,
  `JsonString` and `JsonValue` hold integer conversion, quoting and escapes, and the ordering of values;
  `BatchAllocator` the page and free-list allocator.
* **Relay negotiation** (`third/eice/src/eice.cpp`, "confice", and the session that races it against direct ICE).
  `Confice` gives one step function per entry point, since each runs under the group lock; `ConficeMachine` is the
  object the source updates in place, each method proved equal to its step function; the table lists those with a loop
  or a shared helper, and the remaining handlers (starting negotiation, completion of the ICE check, wrapped packets,
  the two kicks, cancelling) equal theirs in the same way. `ConficeNet` puts two parties on a network that loses,
  duplicates, reorders and misroutes datagrams; `ConficeProgress` shows that selection can always be completed there,
  `ConficeLoss` that one firing of the timer makes up for everything lost before, `ConficeResult` when both parties end
  alike, `ConficeBuffers` that the packet buffers suffice. `ConficeDatagrams` says which datagrams are acted on,
  `ConficeTrace` which callbacks are made. `ConficeTimer` adds clock readings, `EiceSession` and `EiceMachine` the outer
  session, `EiceStart` what starting it brings about, `EicePair` two sessions over that network.
  `Packet` is the wire format.
* **INI tree** (`bridgeserver/ini.hpp`). `IniParser` has the linked `Level` objects with their parent pointers, the
  parser that never pops its recursion and the recursive dump, all proved against a tree listed in preorder
  (`IniTree`); `IniRoundTrip` says exactly which trees survive dump and parse, `IniLines` what single lines mean.
* **Command framing** (`bridgeserver/IceConnection.cpp`), in `Framing`: reassembly of length-prefixed commands from
  arbitrarily chunked reads, and the sender of such commands in `bridgeserver/IceService.cpp`.

Strings are sequences of characters, one per byte. Integer widths are explicit wherever they matter: 64-bit
conversion in `JsonNumber`, the signed size counter of the printers, bit vectors in `Packet`. Clock readings,
transaction numbers, the ICE library's answers and the printing and scanning of doubles are parameters.

`dafny verify dfyconfig.toml` checks the project.

## Where the code does less than its documentation or callers expect

* A string value holding a null pointer prints nothing, so it does not survive a round trip, and an array whose size
  does not fit `int` prints as empty. With `dropNullPlaceholders` on, a null that is the root, the last element of an
  array or the last member of an object is lost or has the text refused; one in another place, or a gap in an array,
  comes back only if the reader allows dropped nulls. For values without doubles `RoundTripExactly` shows that there is
  no other exception but a scalar root under `strictRoot_`; `OversizedArrayIsLost`, `NothingIsLost` and
  `LastNothingIsRefused` are instances, and `LayoutParses` says what every such text reads as.
* `parse` of a `dump` differs from the tree when an unnamed section holds values or is followed by another unnamed
  one, or when a key starts with a comment sign. `IniRoundTrip.RoundTrip` is the exact condition for any tree,
  `ReparseExactly` for one that was itself parsed, and `UnnamedSectionIsLost` a file that shows it.
* The loop of `handleCommand` compares the bytes used with the length of the new chunk instead of the buffer's. A
  complete frame can stay in the buffer until the next read: `DrainedExactly` says when, `FrameLeftBehind` is an
  instance, `LeftBehindIsNext` says that the next read delivers it.
* `third/eice/src/json/json.h:1594-1597` says that currently only one error can be returned. With `strictRoot_` on
  there are two exactly when the caller's root is no container and the text does not start with a value:
  `ExactlyOneError` for every text, `TwoErrors` for the text `x`.
* A high surrogate escape followed by any other `\u` escape is taken for a pair (`HalfPairIsAccepted`). A comment behind a
  member's value stands for the comma, and the token behind the comment is dropped (`CommentForComma`). A member with an
  empty name may be followed by a comma and the closing brace, and `parse` does not look at what follows the root:
  `JsonGrammar.Proper` and `TreeParses` have both.
* The controlled side of the relay negotiation keeps acknowledging after it has ended with a failure, so the parties'
  results can differ: `ResultsCanDiffer` is a run, and `ResultsAgreeExactly` says that they agree exactly when the
  controlled side was not cancelled, failed or timed out before its end. Two sessions can then answer "by relay" and
  "direct": `AnswersCanDiffer` is a run, `AnswersAgreeExactly` the condition.
* The acknowledgement of a select-relay request is copied into the channel's 1024 bytes without a look at its length.
  `BuffersSuffice` shows that they are enough for whatever a party really sends; `RoomNeeded` gives the room that any
  accepted request takes.

## Model

| member | source | states |
|---|---|---|
| `JsonRoundTrip.RoundTripExactly` | third/eice/src/jsoncpp.cpp:3160-3214 | Parsing what `FastWriter::write` prints, at any nesting, under every reader feature and every printer option, gives the value's normal form without error if and only if it holds no null string and no array whose size leaves `int`, where nulls are dropped every null stands where the reader can tell it, and under `strictRoot_` the root is a container |
| `JsonRoundTrip.LayoutParses` | third/eice/src/jsoncpp.cpp:291-330 | Any text that lays out the lexemes of any value, doubles, null strings and dropped nulls included, parses to what comes back of it, using the whole text, or is refused when nothing does or a strict root is no container, over every previous root and under every combination of features |
| `JsonRoundTrip.ReadsBack` | third/eice/src/jsoncpp.cpp:332-403 | The reader turns the lexemes of a value into what comes back of it and stops right before the lexemes that follow, or fails when nothing comes back |
| `JsonRoundTrip.ReadsNothing` | third/eice/src/jsoncpp.cpp:380-395 | Where a value printed nothing the reader takes null in front of a comma, which it does not consume, if dropped nulls are allowed, and fails otherwise |
| `JsonRoundTrip.ReadsBackArray` | third/eice/src/jsoncpp.cpp:642-677 | The same for an array; absent elements come back as null, and one element that prints nothing leaves an empty array |
| `JsonRoundTrip.ReadsBackObject` | third/eice/src/jsoncpp.cpp:587-640 | The same for an object, members in key order |
| `JsonRoundTrip.StringStops` | third/eice/src/jsoncpp.cpp:575-585 | `readString` stops exactly at the closing quote of any text in which quotes stand only behind a backslash |
| `JsonRoundTrip.ReadNumberLexeme` | third/eice/src/jsoncpp.cpp:566-573 | A printed number followed by a closing lexeme is one token with exactly its text |
| `JsonRoundTrip.BackIsNormal` | third/eice/src/jsoncpp.cpp:3168-3214 | What comes back is the normal form, with tags chosen by magnitude and gaps filled with null, exactly when every array size fits `int` and dropped nulls stand where they can be told |
| `JsonRoundTrip.NormalKeepsNullStrings` | third/eice/src/jsoncpp.cpp:3009-3141 | A value whose normal form has no null string has none itself |
| `JsonRoundTrip.OversizedArrayIsLost` | third/eice/src/jsoncpp.cpp:3186-3194 | A sparse array with one element at index 2^31 - 1 is printed and parsed without error to an empty array |
| `JsonRoundTrip.NothingIsLost` | third/eice/src/jsoncpp.cpp:3169-3185 | The text of a null string, or of a dropped null, is refused, and that of an array holding just that parses to an empty array |
| `JsonRoundTrip.LastNothingIsRefused` | third/eice/src/jsoncpp.cpp:3186-3194 | In the last place of a longer array it has the text refused, whether dropped nulls are allowed or not |
| `JsonParsing.ExactlyOneError` | third/eice/src/jsoncpp.cpp:291-330 | `parse` succeeds iff no error is recorded, and a failure records exactly one, but two iff `strictRoot_` is on, the caller's root is no container and the first token that is no comment neither opens one nor is a value |
| `JsonParsing.FailsWithoutContainer` | third/eice/src/jsoncpp.cpp:332-403 | A read of the root fails and leaves no container exactly when the text starts no value and there was none before; once opened a container stays one, however its reading ends |
| `JsonParsing.TwoErrors` | third/eice/src/jsoncpp.cpp:313-328 | A text with two errors over a null root and one over an array |
| `JsonParsing.OneErrorPerFailure` | third/eice/src/jsoncpp.cpp:332-403 | A failing `readValue` records one error at any depth and through any recovery, a succeeding one none |
| `JsonParsing.OneErrorInObject` | third/eice/src/jsoncpp.cpp:587-640 | The same for the member loop from any round on |
| `JsonParsing.OneErrorInArray` | third/eice/src/jsoncpp.cpp:642-677 | The same for the element loop from any round on |
| `JsonParsing.ReadHasNoNullString` | third/eice/src/jsoncpp.cpp:332-403 | No text makes the reader build a null string |
| `JsonReader.Reader.constructor` | third/eice/src/jsoncpp.cpp:259-267 | A new reader has an empty stack and no errors |
| `JsonReader.Reader.GetNextChar` | third/eice/src/jsoncpp.cpp:935-939 | Advances by one inside the document and yields NUL at its end |
| `JsonReader.Reader.SkipSpaces` | third/eice/src/jsoncpp.cpp:493-501 | Moves to the first character that is no blank |
| `JsonReader.Reader.Match` | third/eice/src/jsoncpp.cpp:503-512 | Moves past the pattern iff the text continues with it |
| `JsonReader.Reader.ReadNumber` | third/eice/src/jsoncpp.cpp:566-573 | Moves past the longest run of number characters |
| `JsonReader.Reader.ReadString` | third/eice/src/jsoncpp.cpp:575-585 | Moves past the closing quote, skipping escaped characters, or fails at the end |
| `JsonReader.Reader.ReadComment` | third/eice/src/jsoncpp.cpp:514-564 | Moves past either kind of comment or fails |
| `JsonReader.Reader.ReadToken` | third/eice/src/jsoncpp.cpp:422-491 | Yields the token function's token and leaves the cursor at its end, inside the document |
| `JsonReader.Reader.SkipCommentTokens` | third/eice/src/jsoncpp.cpp:405-413 | Skips comment tokens when comments are allowed |
| `JsonReader.Reader.AddError` | third/eice/src/jsoncpp.cpp:903-911 | Appends one error and answers false |
| `JsonReader.Reader.RecoverFromError` | third/eice/src/jsoncpp.cpp:913-924 | Skips to the wanted token or the end and drops the errors met on the way |
| `JsonReader.Reader.AddErrorAndRecover` | third/eice/src/jsoncpp.cpp:926-931 | Exactly the new error remains |
| `JsonReader.Reader.DecodeNumber` | third/eice/src/jsoncpp.cpp:679-781 | The number of a token, or one recorded error |
| `JsonReader.Reader.DecodeString` | third/eice/src/jsoncpp.cpp:783-844 | The text of a token, or one recorded error with its place |
| `JsonReader.Reader.ReadValue` | third/eice/src/jsoncpp.cpp:332-403 | Terminates on every input under every feature setting, including the dropped null that un-reads a comma; the cursor stays in the document, the stack keeps its height and everything below its top, on success and on every failure, and value, position and errors are those of the recursive function |
| `JsonReader.Reader.ReadObject` | third/eice/src/jsoncpp.cpp:587-640 | The same for objects |
| `JsonReader.Reader.ReadArray` | third/eice/src/jsoncpp.cpp:642-677 | The same for arrays |
| `JsonReader.Reader.Parse` | third/eice/src/jsoncpp.cpp:291-330 | Answer, root and error list are those of the parse function for any document and any earlier state of the reader |
| `JsonWriter.FastWriter.WriteValue` | third/eice/src/jsoncpp.cpp:3168-3214 | Appends exactly the value's lexemes in a row |
| `JsonWriter.FastWriter.Write` | third/eice/src/jsoncpp.cpp:3160-3166 | The lexemes of the root in a row, then the optional newline; the text the round trip is about |
| `JsonWriter.ObjectLooks` | third/eice/src/jsoncpp.cpp:3196-3212 | An object in full, under each option |
| `JsonWriter.ArrayLooks` | third/eice/src/jsoncpp.cpp:3186-3194 | An array in full |
| `JsonWriter.StyledWriter.Write` | third/eice/src/jsoncpp.cpp:3222-3231 | The text lays out exactly the lexemes `FastWriter` prints |
| `JsonWriter.StyledWriter.WriteValue` | third/eice/src/jsoncpp.cpp:3233-3283 | While leaves are collected it adds one entry to the shared buffer and leaves the document alone, otherwise the document grows by a layout of the lexemes; indentation is balanced |
| `JsonWriter.StyledWriter.WriteArrayValue` | third/eice/src/jsoncpp.cpp:3285-3326 | Both layouts of an array hold the same lexemes; the single-line branch finds exactly one buffered text per element |
| `JsonWriter.StyledWriter.IsMultilineArray` | third/eice/src/jsoncpp.cpp:3328-3351 | Several lines iff too many elements, a non-empty container among them, or a line as long as the margin; afterwards the buffer is empty or holds one text per element |
| `JsonWriter.StyledWriter.WriteIndent` | third/eice/src/jsoncpp.cpp:3360-3369 | Starts a new line with the indentation, unless the document ends in a space, and adds only blanks |
| `JsonWriter.StyledWriter.Indent` | third/eice/src/jsoncpp.cpp:3376 | Deepens the indentation by its fixed width |
| `JsonWriter.StyledWriter.Unindent` | third/eice/src/jsoncpp.cpp:3378-3381 | Undoes one `Indent`; the source's assertion is its precondition, met at every call |
| `JsonWriter.PrintersAgree` | third/eice/src/jsoncpp.cpp:3222-3381 | For every value the styled text and the running text both parse without error to what comes back of it, or both are refused |
| `JsonGrammar.ParsedIsTree` | third/eice/src/jsoncpp.cpp:332-403 | Every text of lexemes that parses begins with the spelling of a proper syntax tree: nothing outside the grammar is accepted, under any setting |
| `JsonGrammar.TreeParses` | third/eice/src/jsoncpp.cpp:291-330 | Every text that spells a proper tree parses without error to what the tree means, over every previous root and whatever follows, unless a strict root is no container |
| `JsonGrammar.ObjectHoldsLast` | third/eice/src/jsoncpp.cpp:587-640 | Members in any order, names repeated or not, mean an ascending map in which every name finds the value of its last occurrence and nothing else is found |
| `JsonGrammar.Spelled` | third/eice/src/jsoncpp.cpp:332-403 | Whatever `readValue` accepts at the front of a row of lexemes is spelled by a proper tree |
| `JsonGrammar.Reads` | third/eice/src/jsoncpp.cpp:332-403 | What a proper tree spells is read to its meaning, and the reader stops at the lexemes behind it |
| `JsonGrammar.NumberMeans` | third/eice/src/jsoncpp.cpp:679-781 | A number token means its integer if 64 bits hold it, signed up to 2^31 - 1 and unsigned above, and what the C library scans otherwise |
| `JsonMaps.PutMeans` | third/eice/src/jsoncpp.cpp:2384-2391 | Insertion puts the value under its key, changes no other and keeps the keys ascending |
| `JsonMaps.FindMeans` | third/eice/src/jsoncpp.cpp:2384-2391 | Lookup finds exactly the entries that are there |
| `JsonMaps.SameFindings` | third/eice/src/jsoncpp.cpp:2384-2391 | An ascending map is determined by what is found in it |
| `JsonMaps.ReadIsWellFormed` | third/eice/src/jsoncpp.cpp:332-403 | However a read of any text ends, over a well-formed value it leaves one: object keys are names and ascend, array keys are indices and ascend |
| `JsonText.BlanksAreSkipped` | third/eice/src/jsoncpp.cpp:493-501 | Exactly space, tab, newline and carriage return are skipped in front of a token |
| `JsonText.NumberRuns` | third/eice/src/jsoncpp.cpp:566-573 | A number is the longest run of digits, points, exponent letters and signs behind a digit or a minus |
| `JsonText.EndOfText` | third/eice/src/jsoncpp.cpp:422-491 | The text ends at its end or at a NUL, nowhere else |
| `JsonText.OtherCharacters` | third/eice/src/jsoncpp.cpp:422-491 | No other character starts a token |
| `JsonText.BlockComment` | third/eice/src/jsoncpp.cpp:548-555 | A block comment ends at its first closing mark, and the reader goes on as if it began there |
| `JsonText.LineComment` | third/eice/src/jsoncpp.cpp:557-564 | A line comment ends with its line |
| `JsonText.OpenComment` | third/eice/src/jsoncpp.cpp:548-555 | An unclosed comment is an error up to the end |
| `JsonText.CommentsForbidden` | third/eice/src/jsoncpp.cpp:405-413 | Where comments are not allowed a value cannot start with one |
| `JsonText.NamesEndAtNul` | third/eice/src/jsoncpp.cpp:618 | A member's name ends at its first NUL |
| `JsonText.BracketThenBrace` | third/eice/src/jsoncpp.cpp:668-675 | `[true}`: the message, its token and what stays in the root |
| `JsonText.NoColon` | third/eice/src/jsoncpp.cpp:613-617 | `{"a",true}`: the same |
| `JsonText.BraceThenBracket` | third/eice/src/jsoncpp.cpp:625-631 | `{"a":true]`: the same |
| `JsonText.TrailingComma` | third/eice/src/jsoncpp.cpp:638-640 | `{"a":true,}`: the same |
| `JsonText.WrongEscape` | third/eice/src/jsoncpp.cpp:783-844 | A wrong escape, with the place it is reported at |
| `JsonText.NameExpected` | third/eice/src/jsoncpp.cpp:606-610 | `{true}`: a member needs a name |
| `JsonText.NoValue` | third/eice/src/jsoncpp.cpp:380-396 | `]` and `,` are no values |
| `JsonText.WrongNumber` | third/eice/src/jsoncpp.cpp:737-781 | A number the C library cannot scan |
| `JsonText.StrictRoot` | third/eice/src/jsoncpp.cpp:313-328 | A scalar under `strictRoot_`: the token of the error is the whole text |
| `JsonText.LoneSlash` | third/eice/src/jsoncpp.cpp:514-546 | A slash that starts no comment is an error |
| `JsonText.CommentForComma` | third/eice/src/jsoncpp.cpp:624-636 | A comment behind a member's value replaces the comma, and the token behind it is dropped |
| `JsonLexemes.SameLexemesSameParse` | third/eice/src/jsoncpp.cpp:291-677 | Reading depends on the lexemes only: two texts that lay out the same row of marks, words, numbers and string literals of any kind, read or refused, give the same answer, root and error messages under every setting and over every previous root |
| `JsonLexemes.PrintersReadAlike` | third/eice/src/jsoncpp.cpp:3222-3381 | For every value, even one with null strings, the styled and the running text parse to the same answer, root and error messages |
| `JsonLexemes.SameValue` | third/eice/src/jsoncpp.cpp:332-403 | From two places with the same lexemes ahead, `readValue` goes the same way through every branch, recovery and dropped null, and leaves the same lexemes ahead |
| `JsonLexemes.TokenOf` | third/eice/src/jsoncpp.cpp:422-491 | `readToken` takes exactly the next lexeme, whatever blanks surround it |
| `JsonLexemes.TokensWellLexed` | third/eice/src/jsoncpp.cpp:3168-3214 | Printers emit lexemes the tokenizer keeps apart: no two numbers in a row |
| `JsonTokens.LaysOutConcat` | third/eice/src/jsoncpp.cpp:493-501 | Putting two laid-out texts side by side lays out both lists of lexemes |
| `JsonTokens.JoinedLaysOut` | third/eice/src/jsoncpp.cpp:3168-3214 | Lexemes in a row, with either spelling of the colon, are a layout of them |
| `JsonNumber.DecodeExact` | third/eice/src/jsoncpp.cpp:689-735 | An optional minus and any number of digits decode to their mathematical value iff it lies in [-2^63, 2^64 - 1], and go to the double path otherwise; nothing wraps |
| `JsonNumber.DecodeNumber` | third/eice/src/jsoncpp.cpp:689-735 | The loop with its threshold test computes the decoding function |
| `JsonNumber.NumberNeverRejected` | third/eice/src/jsoncpp.cpp:566-573 | A token of the number scanner is never refused by the digit loop when it is a well-formed number |
| `JsonNumber.PrintThenDecode` | third/eice/src/jsoncpp.cpp:3009-3028 | Decoding undoes printing over the whole 64-bit range, up to the choice of tag |
| `JsonNumber.UintToString` | third/eice/src/jsoncpp.cpp:145-151 | Fills the buffer backwards with the decimal digits and the terminator, never below its start |
| `JsonNumber.IntToText` | third/eice/src/jsoncpp.cpp:3009-3020 | The 25-byte buffer suffices for every signed value, the smallest included |
| `JsonNumber.UIntToText` | third/eice/src/jsoncpp.cpp:3022-3028 | The same for unsigned values |
| `JsonNumber.DecimalCanonical` | third/eice/src/jsoncpp.cpp:145-151 | Printed numbers are digits without leading zeros |
| `JsonNumber.DigitsMean` | third/eice/src/jsoncpp.cpp:728-733 | The ten digits have their values, and nothing else is a digit |
| `JsonNumber.PositionalTen` | third/eice/src/jsoncpp.cpp:728-733 | A digit counts ten times as much one place further to the left |
| `JsonNumber.LargestUIntLength` | third/eice/src/jsoncpp.cpp:134-138 | No unsigned 64-bit number has more than twenty digits |
| `JsonString.ValueToQuotedString` | third/eice/src/jsoncpp.cpp:3081-3141 | The fast path that only adds quotes and the escaping loop yield the same quoted text; a null pointer yields nothing |
| `JsonString.QuoteRoundTrip` | third/eice/src/jsoncpp.cpp:793-844 | Decoding the quoted form of any string gives the string back |
| `JsonString.DecodeString` | third/eice/src/jsoncpp.cpp:793-844 | The loop computes the decoding function, errors and their places included |
| `JsonString.DecodeUnicodeCodePoint` | third/eice/src/jsoncpp.cpp:846-873 | Surrogate pairs are joined as the function says, errors at the same places |
| `JsonString.DecodeUnicodeEscapeSequence` | third/eice/src/jsoncpp.cpp:875-901 | Four digits in either case, or the error at the offending one |
| `JsonString.Utf8RoundTrip` | third/eice/src/jsoncpp.cpp:100-126 | Every Unicode scalar value is encoded in the form of section 3 of RFC 3629 |
| `JsonString.ScalarEscapeRoundTrip` | third/eice/src/jsoncpp.cpp:793-901 | A scalar value spelled as section 7 of RFC 8259 prescribes, with one escape or a surrogate pair and digits of either case given by their place in the two rows of digits, decodes to its UTF-8 form and nothing else |
| `JsonString.HexDigits` | third/eice/src/jsoncpp.cpp:885-895 | The reader takes exactly the digits of the two rows, each at its place in the row; the printer uses the upper-case row |
| `JsonString.Utf8OfAny` | third/eice/src/jsoncpp.cpp:100-126 | Surrogates, which are not refused, get the three bytes of their number |
| `JsonEscapes.TextIsSpelled` | third/eice/src/jsoncpp.cpp:793-844 | Whatever decodes is a row of plain characters, the eight short escapes, four-digit groups and pairs of groups, and decodes to what these mean |
| `JsonEscapes.SpelledDecodes` | third/eice/src/jsoncpp.cpp:793-844 | Every such row decodes to what it means, up to the end or a bare quote |
| `JsonEscapes.ShortEscapes` | third/eice/src/jsoncpp.cpp:806-828 | The eight short escapes stand for the characters of section 7 of RFC 8259, and no other letter is one |
| `JsonEscapes.NumberIsEncoded` | third/eice/src/jsoncpp.cpp:829-835 | A group or pair becomes the shortest UTF-8 form of its number |
| `JsonEscapes.WhereItFails` | third/eice/src/jsoncpp.cpp:793-901 | One string of each kind of error, with the place reported |
| `JsonEscapes.HalfPairIsAccepted` | third/eice/src/jsoncpp.cpp:855-868 | A high surrogate and any other group make a pair |
| `JsonEscapes.EscapeIsPiece` | third/eice/src/jsoncpp.cpp:3081-3141 | Quoting prints a short escape for quote, backslash and five control characters, upper-case digits for the other control characters, and everything else as it is |
| `JsonValue.Trichotomy` | third/eice/src/jsoncpp.cpp:1904-1987 | Exactly one of less, equal, greater holds for values of any nesting, null strings included |
| `JsonValue.Transitive` | third/eice/src/jsoncpp.cpp:1904-1941 | The ordering is transitive through the size-first comparison of maps |
| `JsonValue.EqualIsIdentity` | third/eice/src/jsoncpp.cpp:1949-1987 | `==` holds exactly for values with the same contents |
| `JsonValue.CompareAgrees` | third/eice/src/jsoncpp.cpp:1896-1902 | `compare` is antisymmetric and its sign is the ordering |
| `JsonValue.KeyTotal` | third/eice/src/jsoncpp.cpp:1666-1676 | Keys of a map are totally ordered |
| `JsonOrder.LessMeans` | third/eice/src/jsoncpp.cpp:1904-1941 | One value is less than another exactly when its kind comes first, its number or text is smaller, it is false against true, or its map has fewer entries or the smaller one at the first difference, at any nesting |
| `JsonOrder.StrLessMeans` | third/eice/src/jsoncpp.cpp:1666-1670 | A string is less exactly when it ends, or has the smaller character, where the two first differ |
| `JsonOrder.KeyLessMeans` | third/eice/src/jsoncpp.cpp:1666-1676 | Indices are ordered by number, names as strings |
| `JsonOrder.CompareMeans` | third/eice/src/jsoncpp.cpp:1896-1902 | `compare` answers -1, 0 or 1 accordingly |
| `BatchAllocator.Allocator.constructor` | third/eice/src/jsoncpp.cpp:1111-1121 | Starts with a page without room and nothing live |
| `BatchAllocator.Allocator.Allocate` | third/eice/src/jsoncpp.cpp:1134-1156 | Never returns a live slot and always one inside a page; live, freed and never-used slots stay a partition of the capacity, pages after the current one stay full, and a freed slot is reused before new room is taken |
| `BatchAllocator.Allocator.FindRoom` | third/eice/src/jsoncpp.cpp:1143-1151 | The walk over the pages ends, and a new page goes to the front |
| `BatchAllocator.Allocator.Release` | third/eice/src/jsoncpp.cpp:1161-1166 | The slot moves from the live ones to the head of the free list |
| `BatchAllocator.Allocator.Overwrite` | third/eice/src/jsoncpp.cpp:1134-1142 | Writing to a live object cannot damage the free list kept inside freed ones |
| `Packet.MessageRoundTrip` | third/eice/src/eice.cpp:461-485 | The receiver's big-endian reads recover every field the builder wrote, the payload is intact and the checksum verifies |
| `Packet.SingleByteChangeDetected` | third/eice/src/eice.cpp:216-229 | Changing any one byte of a packet that verifies makes verification fail |
| `Packet.AckEchoes` | third/eice/src/eice.cpp:935-941 | The acknowledgement differs from the request in type and checksum only, and verifies |
| `Packet.MessageLayout` | third/eice/src/eice.cpp:461-485 | Where each field of a message stands on the wire |
| `Packet.RegisterLayout` | third/eice/src/eice.cpp:331-368 | The fields of a register request as a relay server reads them; the lengths are cut to eight bits |
| `Packet.BigEndian` | third/eice/src/eice.cpp:192-199 | The most significant byte comes first |
| `Packet.SealedVerifies` | third/eice/src/eice.cpp:216-229 | A packet closed with its checksum verifies |
| `Packet.U32RoundTrip` | third/eice/src/eice.cpp:192-199 | Reading four big-endian bytes undoes writing them |
| `Packet.CalcChecksum` | third/eice/src/eice.cpp:216-222 | The accumulator loop computes the checksum |
| `Packet.VerifyChecksum` | third/eice/src/eice.cpp:224-229 | True iff the last byte is the checksum of those before it |
| `Packet.BeSetU32` | third/eice/src/eice.cpp:193-199 | Writes the four bytes in place and touches nothing after them |
| `Packet.BuildMsgHeader` | third/eice/src/eice.cpp:461-485 | Fills the buffer with the 18-byte header and leaves the rest |
| `Packet.BuildMessage` | third/eice/src/eice.cpp:618-642 | Header, payload and checksum make the message |
| `Confice.StepKeepsInv` | third/eice/src/eice.cpp:489-1081 | Every entry point keeps the invariant and only moves forward: state, callbacks, datagrams, flags, and a final result once set |
| `Confice.NeverBackwards` | third/eice/src/eice.cpp:489-502 | Between any two moments of any run the state never falls although `_set_state` assigns unconditionally; FINAL is absorbing with its result; callbacks strictly increase with at most one FINAL, last; FINAL with result 0 means all channels registered and relayed; otherwise the timer is armed |
| `Confice.NoLostKick` | third/eice/src/eice.cpp:505-546 | A kicked controlling side is never left in NEGO_DONE; SELECTING happens only there and only when kicked |
| `Confice.KickCommutesWithSuccess` | third/eice/src/eice.cpp:576-585 | Kick then success and success then kick reach the same state, SELECTING |
| `Confice.IceCompleteKeepsInv` | third/eice/src/eice.cpp:571-587 | The ICE callback with any status keeps the invariant |
| `Confice.ReceiveKeepsInv` | third/eice/src/eice.cpp:800-995 | So does any datagram on any channel |
| `Confice.TimerKeepsInv` | third/eice/src/eice.cpp:1027-1081 | So does the timer, which is re-armed unless the end is reached |
| `Confice.KickKeepsInv` | third/eice/src/eice.cpp:1398-1421 | So does the kick |
| `Confice.RunKeepsInv` | third/eice/src/eice.cpp:489-1442 | Any run keeps the invariant and only moves forward |
| `ConficeMachine.ConficeObject.constructor` | third/eice/src/eice.cpp:1168-1369 | One or two channels, numbered from 1, nothing done yet |
| `ConficeMachine.ConficeObject.SetState` | third/eice/src/eice.cpp:489-495 | Assigns the state and reports it iff it is further on |
| `ConficeMachine.ConficeObject.SetFinal` | third/eice/src/eice.cpp:497-502 | Keeps the first result |
| `ConficeMachine.ConficeObject.SendReg` | third/eice/src/eice.cpp:432-452 | Sends one request per channel, counts, and enters REGING on the first |
| `ConficeMachine.ConficeObject.CheckForSelectRelay` | third/eice/src/eice.cpp:505-546 | Sends one select-relay per channel iff negotiation is done, kicked and controlling |
| `ConficeMachine.ConficeObject.CheckForSelectRelayDone` | third/eice/src/eice.cpp:548-567 | Ends with success once, when every channel is relayed |
| `ConficeMachine.ConficeObject.OnDataRecvfrom` | third/eice/src/eice.cpp:800-995 | The new state is that of the step function for any datagram |
| `ConficeMachine.ConficeObject.TimerCb` | third/eice/src/eice.cpp:1027-1081 | Retransmits or gives up after the time limit, then re-arms |
| `ConficeMachine.ConficeObject.GetResult` | third/eice/src/eice.cpp:1464-1516 | Succeeds iff ended with success |
| `ConficeNet.Agreement` | third/eice/src/eice.cpp:907-981 | In every run with loss, duplication, reordering and misrouting, once the controlling side has ended with success every channel of the controlled side is relayed and that side has ended |
| `ConficeNet.NetStepKeepsInv` | third/eice/src/eice.cpp:548-567 | Every step of either party keeps: the caller's relay flags are a subset of the callee's, the callee's acknowledgements tell the truth, the caller sends none |
| `ConficeNet.AckMeansRelayed` | third/eice/src/eice.cpp:935-941 | An acknowledgement that was really sent is for a channel the callee has marked |
| `ConficeNet.CallerStep` | third/eice/src/eice.cpp:951-981 | A relay flag of the caller is new only when an acknowledgement for that component has just come |
| `ConficeNet.CalleeStep` | third/eice/src/eice.cpp:907-950 | The callee acknowledges only after setting the flag, and flags stay |
| `ConficeProgress.SelectionCanComplete` | third/eice/src/eice.cpp:505-567 | No run leaves selection stuck: while the controlling side selects and the controlled side is past its negotiation, at most two deliveries per channel end it with success on the one and with every channel relayed on the other |
| `ConficeProgress.SelectionSucceeds` | third/eice/src/eice.cpp:907-981 | The same from any moment at which some channels are already set up |
| `ConficeProgress.ExchangeWorks` | third/eice/src/eice.cpp:907-981 | Delivering one channel's request and its acknowledgement sets that channel up on both sides and undoes no other; the last one ends the selection with success |
| `ConficeProgress.RequestIsHeard` | third/eice/src/eice.cpp:907-950 | The request passes every check of the receiver, which marks the channel and acknowledges |
| `ConficeProgress.AckIsHeard` | third/eice/src/eice.cpp:951-981 | The acknowledgement passes every check of the sender: it echoes session, component and transaction |
| `ConficeProgress.StepKeepsAsked` | third/eice/src/eice.cpp:505-546 | While selecting, each channel's buffer holds the request under the channel's current transaction number, and it has been sent |
| `ConficeLoss.OneFiringCompletes` | third/eice/src/eice.cpp:1051-1061 | Whatever happened before, and even if nothing sent before ever arrives, one firing of the caller's timer before the limit is enough: the requests it sends and the acknowledgements they provoke complete the selection on both sides in at most two deliveries per channel |
| `ConficeLoss.FiringAsksAgain` | third/eice/src/eice.cpp:1051-1061 | While selecting a firing before the limit sends every channel's request once more, in order and under the same transaction number, and does nothing else |
| `ConficeLoss.FiringRegistersAgain` | third/eice/src/eice.cpp:1033-1046 | While registering it sends every channel's register request once more |
| `ConficeLoss.FiringElsewhere` | third/eice/src/eice.cpp:1027-1081 | At the limit it gives up with -1; outside the two phases it does nothing |
| `ConficeLoss.RegistrationBegins` | third/eice/src/eice.cpp:1373-1395 | The first kick sends every channel's register request and notes the time; later ones do nothing |
| `ConficeLoss.KickMeans` | third/eice/src/eice.cpp:1398-1421 | The kick selects at once after a successful check, is remembered before it and refused later |
| `ConficeLoss.CheckMeans` | third/eice/src/eice.cpp:571-587 | A successful check selects at once where the kick came before |
| `ConficeLoss.CancelMeans` | third/eice/src/eice.cpp:1423-1442 | Cancelling ends with -1 and one callback, unless the end was reached before |
| `ConficeDatagrams.RegAckMeans` | third/eice/src/eice.cpp:405-430 | Only a complete, uncorrupted acknowledgement for this session with status 0 counts, only while registering; it registers its channel and no other, and the last one starts the check |
| `ConficeDatagrams.ForeignIsIgnored` | third/eice/src/eice.cpp:800-995 | Corrupted messages, those for another session or component, of another type, or at the wrong time or side change nothing |
| `ConficeDatagrams.RequestMeans` | third/eice/src/eice.cpp:907-950 | Any other request marks its channel alone, is acknowledged, and ends the negotiation when it was the last |
| `ConficeDatagrams.AckMeans` | third/eice/src/eice.cpp:951-981 | The same of an acknowledgement, which is not answered |
| `ConficeDatagrams.IcePacketIsWrapped` | third/eice/src/eice.cpp:604-653 | A packet of the ICE library goes out in one message for the channel's component, and nothing else changes |
| `ConficeDatagrams.RegistrationCompletes` | third/eice/src/eice.cpp:821-848 | While registering, one acknowledgement per channel ends the phase |
| `ConficeTrace.RunTellsStory` | third/eice/src/eice.cpp:489-502 | Over every run the callbacks made are exactly those that belong to the state reached |
| `ConficeResult.ResultsAgreeExactly` | third/eice/src/eice.cpp:497-567 | Over every run: once the controlling side has a result, the controlled one has it too exactly when no event harmed it (cancelled, ICE check failed or could not start, phase timed out) before it ended |
| `ConficeResult.EndsWellExactly` | third/eice/src/eice.cpp:497-502 | Over every run, a side that has ended has ended with success exactly when no event harmed it before |
| `ConficeResult.StepEndsAs` | third/eice/src/eice.cpp:489-1081 | One step: a side ends with a failure exactly when the event, judged on the state before it, harms it |
| `ConficeResult.ResultsCanDiffer` | third/eice/src/eice.cpp:907-950 | A run that leaves the controlling side with a result and the controlled one with every channel relayed and -1 |
| `ConficeBuffers.BuffersSuffice` | third/eice/src/eice.cpp:935-941 | In every run without forging each channel's packet buffer, acknowledgements included, stays within its 1024 bytes |
| `ConficeBuffers.RoomNeeded` | third/eice/src/eice.cpp:935-941 | An acknowledgement takes exactly the length of its request, and any request with the right header and checksum is accepted whatever its length |
| `ConficeTimer.RetransmissionBound` | third/eice/src/eice.cpp:1018-1081 | With firings at least 200 ms apart each of the two phases sees at most 21 firings, the 21st finds or makes it left, and at most 21 register requests go out per channel |
| `ConficeTimer.TimedStepKeepsInv` | third/eice/src/eice.cpp:432-452 | The firings seen in a phase fit between its start and its time limit |
| `EiceSession.SessionLatch` | third/eice/src/eice.cpp:1992-2057 | Over every interleaving the ICE status is written once, by callback or timeout; the relay's end is mirrored exactly with its status; a first failure on the controlling side has kicked the relay or found it ended, a first success has ended it |
| `EiceSession.AnswerIsStable` | third/eice/src/eice.cpp:3312-3376 | Once the session has set up its relay negotiation, an answer that was given never changes |
| `EiceSession.AnswerKind` | third/eice/src/eice.cpp:3312-3376 | Direct iff ICE succeeded, else by relay iff the relay negotiation ended with 0, else none |
| `EiceSession.StepKeepsInv` | third/eice/src/eice.cpp:1992-2307 | Every step, including those in the middle of `eice_start_nego`, keeps the session's invariant and its latches |
| `EiceSession.RelayStepHeard` | third/eice/src/eice.cpp:2047-2057 | After every step of the relay negotiation the session knows of its end iff it has ended, with the same status |
| `EiceSession.NotifiedFinal` | third/eice/src/eice.cpp:2047-2057 | Only the final callback sets the flag and the status |
| `EiceStart.StartedSession` | third/eice/src/eice.cpp:3077-3376 | Over every interleaving a started session has begun its relay negotiation, has told it to select where direct ICE is not used on both sides, and answers exactly when every way it uses has ended |
| `EiceStart.AbortedStays` | third/eice/src/eice.cpp:3077-3310 | A session whose ICE cannot start never starts its relay by itself |
| `EicePair.AnswersAgreeExactly` | third/eice/src/eice.cpp:3312-3376 | Over every run of two sessions and the network between their relays: two given answers are equal exactly when direct ICE succeeded on both sides, or on neither and both relays were harmed before their end or none was |
| `EicePair.RelayAnswerIsShared` | third/eice/src/eice.cpp:3312-3376 | When the controlling session answers "by relay" the other's relay has ended with every channel set up, and its answer is the same exactly when its own ICE did not succeed and nothing harmed its relay |
| `EicePair.AnswersCanDiffer` | third/eice/src/eice.cpp:1992-2057 | A run that ends with the answers "by relay" and "direct" |
| `EicePair.RunProjects` | third/eice/src/eice.cpp:1992-2307 | Every run of two sessions contains a run of their relay negotiations, to which all that holds of those applies |
| `EiceMachine.EiceObject.OnConficeComplete` | third/eice/src/eice.cpp:2047-2057 | The fields change as the callbacks made since say |
| `EiceMachine.EiceObject.CbOnIceComplete` | third/eice/src/eice.cpp:1992-2045 | Latches the first status and acts on it once |
| `EiceMachine.EiceObject.TimerIceCb` | third/eice/src/eice.cpp:2277-2307 | The timeout counts as a failure unless a status is latched |
| `EiceMachine.EiceObject.GetNegoResult` | third/eice/src/eice.cpp:3312-3376 | The answer of the session function, or none yet |
| `IniRoundTrip.RoundTrip` | bridgeserver/ini.hpp:129-190 | For every tree, parsing its dump rebuilds it with both orders, all parents and all depths if and only if everything in it can stand on one line, no key starts a comment, and unnamed sections hold no values and do not follow each other |
| `IniRoundTrip.ReparseExactly` | bridgeserver/ini.hpp:129-190 | For a tree that was itself read from a file, dump and parse give it back iff no key starts a comment and unnamed sections hold no values and do not follow each other |
| `IniRoundTrip.Reread` | bridgeserver/ini.hpp:129-174 | Reading the rest of a dump from any section on completes the tree |
| `IniRoundTrip.RunAddsProductive` | bridgeserver/ini.hpp:129-174 | Parsing adds at most one section or value per line that is neither blank nor a comment |
| `IniRoundTrip.RangeCount` | bridgeserver/ini.hpp:176-190 | A dump has as many such lines as the tree has sections and values only when none is lost to a comment or a merge |
| `IniRoundTrip.UnnamedSectionIsLost` | bridgeserver/ini.hpp:179-183 | A file whose dump reads differently |
| `IniTree.ParsedIsTree` | bridgeserver/ini.hpp:129-174 | After any successful parse each section is one deeper than the level that contains it and listed below it, names and keys are unique in their level, and all of it can be written on one line |
| `IniTree.Reaches` | bridgeserver/ini.hpp:148-151 | For every depth not too large there is an enclosing level, and everything after it is deeper |
| `IniTree.ApplyKeepsTree` | bridgeserver/ini.hpp:137-171 | Every line keeps the tree a tree |
| `IniParser.Level.constructor` | bridgeserver/ini.hpp:41 | Empty, without parent, at depth 0 |
| `IniParser.Level.Value` | bridgeserver/ini.hpp:55 | The lookup inserts an empty value when the name is missing |
| `IniParser.Level.Section` | bridgeserver/ini.hpp:56 | The lookup inserts an empty level when the name is missing |
| `IniParser.Parser.constructor` | bridgeserver/ini.hpp:63 | The levels on the heap carry exactly the tree the text describes, or the failure and its line number are those of the text |
| `IniParser.Parser.GetLine` | bridgeserver/ini.hpp:132 | Takes the next line off the input; a final newline starts none |
| `IniParser.Parser.Climb` | bridgeserver/ini.hpp:142-151 | Following parent pointers from the innermost level reaches the last level one shallower than the header |
| `IniParser.Parser.AddSection` | bridgeserver/ini.hpp:146-160 | The new level hangs in its parent's map, at the end of its order list, with pointer and depth set; a name already there is refused |
| `IniParser.Parser.AddPair` | bridgeserver/ini.hpp:166-171 | The value goes into the map and to the end of the order list; a key already there is refused |
| `IniParser.Parser.ParseLevel` | bridgeserver/ini.hpp:129-174 | The recursion that never pops builds the tree of the whole remaining input, or stops with its first error |
| `IniParser.Parser.DumpLevel` | bridgeserver/ini.hpp:176-190 | Prints the level and everything inside it in preorder; the assertion on the depths holds |
| `IniParser.Parser.Dump` | bridgeserver/ini.hpp:65 | Prints the tree that was parsed, whatever has been looked up since |
| `IniParser.Parser.LookupValue` | bridgeserver/ini.hpp:55 | On any reachable level the inserting lookup keeps the tree and answers the stored value or the empty one |
| `IniParser.Parser.LookupSection` | bridgeserver/ini.hpp:56 | On any reachable level the inserting lookup keeps the tree; what it inserts is empty and outside it |
| `IniParser.Parser.ReadString` | bridgeserver/ini.hpp:71-74 | Answers from the file alone, whatever was looked up before; a missing or empty value gives the default |
| `IniOrder.SubtreesAdjoin` | bridgeserver/ini.hpp:186-189 | In the order of the sections the subtrees follow each other without a gap |
| `IniText.Trim` | bridgeserver/ini.hpp:98-108 | Removes blanks, carriage returns, newlines and NUL at both ends |
| `IniText.CoreSplits` | bridgeserver/ini.hpp:98-108 | Only blanks are removed, and all of them at the two ends |
| `IniText.ParseSLine` | bridgeserver/ini.hpp:119-127 | The depth is the number of leading brackets, the name what the wrapped and clamped length leaves |
| `IniText.HeaderReads` | bridgeserver/ini.hpp:119-127 | A printed header is read with its name and depth |
| `IniText.PairReads` | bridgeserver/ini.hpp:162-168 | A printed pair is read as itself, or ignored when its key starts a comment |
| `IniText.ClassifyIsClean` | bridgeserver/ini.hpp:133-168 | Whatever a line is read as can be written on one line again |
| `IniLines.IgnoredExactly` | bridgeserver/ini.hpp:133-136 | Lines starting with `#` or `;`, and lines of blanks, are ignored; no others |
| `IniLines.AnyHeader` | bridgeserver/ini.hpp:119-127 | A header loses as many characters at its end as it has brackets in front, or none when fewer are left |
| `IniLines.AnyPair` | bridgeserver/ini.hpp:162-168 | Any other line is split at its first equals sign and trimmed, or refused without one |
| `IniLines.FailsAtFirst` | bridgeserver/ini.hpp:129-174 | A file fails at its first line that cannot be taken, with that line's number |
| `IniLines.StopsBecause` | bridgeserver/ini.hpp:142-171 | Which line is refused with which error |
| `IniLines.WholeFile` | bridgeserver/ini.hpp:176-190 | A small tree and its file |
| `Framing.IceConnection.HandleCommand` | bridgeserver/IceConnection.cpp:39-73 | For any chunking the frames delivered followed by the buffer are all bytes received, the commands handed on are what these frames say and a prefix of the parse of the whole stream, both assertions hold and the loop ends; a call entered with an empty buffer leaves no complete frame |
| `Framing.IceConnection.ParseCommand` | bridgeserver/IceConnection.cpp:75-96 | Succeeds iff a complete frame is there, with its fields and length |
| `Framing.ConstructCommandBuffer` | bridgeserver/IceConnection.cpp:75-96 | The sender of what is parsed here, lines 96 to 111 of `bridgeserver/IceService.cpp`: refuses what is longer than 10 KB; anything else becomes, in place, one frame that says what was sent |
| `Framing.CommandIsFrame` | bridgeserver/IceConnection.cpp:75-96 | What is sent is one frame exactly when its content is shorter than 2^16 bytes, and then it is read as the command that was sent |
| `Framing.RowReads` | bridgeserver/IceConnection.cpp:75-96 | Commands sent one after the other are parsed back, whatever follows them |
| `Framing.LeastSignificantFirst` | bridgeserver/IceConnection.cpp:84-93 | Numbers are read with the least significant byte first |
| `Framing.TakenAndRemaining` | bridgeserver/IceConnection.cpp:50-71 | What a call takes and what it leaves are the bytes it had |
| `Framing.TakenComesFirst` | bridgeserver/IceConnection.cpp:50-59 | The frames taken are the first ones of the reference parse |
| `Framing.DrainedExactly` | bridgeserver/IceConnection.cpp:50-59 | No complete frame is left behind iff the last one starts before the offset given by the chunk's length, or there is none |
| `Framing.EmptyBufferDrains` | bridgeserver/IceConnection.cpp:50-59 | With an empty buffer at the call nothing complete is left |
| `Framing.LeftBehindIsNext` | bridgeserver/IceConnection.cpp:48-59 | A frame left behind is the first one the next call delivers |
| `Framing.FrameLeftBehind` | bridgeserver/IceConnection.cpp:50 | Two chunks that leave a complete frame undelivered |
| `Framing.FramesOfConcat` | bridgeserver/IceConnection.cpp:75-96 | Parsing the concatenation of frames and a rest gives the frames and the parse of the rest |

## Left out

JSON:

- Printing and scanning of doubles: `valueToString(double)` and `decodeDouble` are parameters; only that a printed
  double is a number token is used. NaN has no place in the model's reals.
- Comments attached to values, token offsets stored in values, `StyledStreamWriter`, `Path`, iterators and the
  formatting of error messages: foreign formatting, or repeats of what is covered.
- JsonReader.Reader: the source's stack holds pointers into the value tree; here a pushed node is a copy that is
  written back when it is popped, and in between only the top is touched.
- JsonValue.Less: the difference of two map sizes is computed in `int` by the source; maps that differ by 2^31
  entries or more are not modelled. Maps never mix the two kinds of key, so comparing those is not modelled either.
- JsonWriter.StyledWriter: asks that three times the size of every array fits `int`, since the source's own
  multiplication overflows otherwise.
- JsonWriter.StyledWriter.WriteValue, JsonWriter.StyledWriter.WriteArrayValue and
  JsonWriter.StyledWriter.IsMultilineArray: ask the same.
- JsonWriter.StyledWriter.Write: fixes the lexemes and their order, and that only blanks stand between them; of the
  line breaks only `WriteIndent`, `Indent` and the choice of `IsMultilineArray` are stated.
- JsonGrammar.ParsedIsTree: about texts made of lexemes without comments between them and without two numbers in a row;
  comments are in `JsonText`.
- Documents, strings and element indices of 2^31 or more on the reading side.
- BatchAllocator.Allocator: one object per allocation; of an object's memory only its first word is modelled,
  which is where the free list keeps its link.

Relay negotiation:

- The ICE library, sockets, timer heap and locks: entry points are atomic steps, the library answers anything, and
  what it is handed (wrapped packets, candidates) is not modelled.
- `confice_new` beyond the state it sets up, `eice_new`, `eice_free`, IPv6 mapping, socket stealing, logging and
  the JSON exchanged in offers and answers.
- Confice: component numbers are taken to be distinct, as `confice_new` makes them.
- Confice.ReceiveKeepsInv: asks that a message datagram is longer than its header and no datagram is empty, since the
  source reads the type and the header from its buffer without looking at the length.
- ConficeMachine.ConficeObject.OnDataRecvfrom: asks the same.
- ConficeMachine.ConficeObject.GetResult: gives the status only; the relay pairs written into the answer are left out.
- ConficeBuffers.BuffersSuffice: about the 1024-byte buffers of the channels and of acknowledgements; packets wrapped
  for the ICE library have a buffer of their own, whose bound is up to that library.
- EiceSession.Step: `eice_start_nego` is split into its four calls and the ICE callback into latching and acting,
  so that other callbacks may come in between; the 32-bit wrap of elapsed milliseconds is not modelled.
- ConficeProgress.SelectionCanComplete: takes the component numbers to be among 1 to the number of channels, as
  `confice_new` makes them; the receiver refuses others.
- ConficeNet.Agreement: goes from the controlling to the controlled side only, since that side ends first; when the
  results are equal is `ConficeResult.ResultsAgreeExactly`.
- EicePair: starts when both sessions have set up their relay negotiation; sessions without one are in `EiceSession`.

INI:

- `readInt`, whose `atoi` is library code, and the constructor that opens a file.
- The model of a failed parse keeps the error and the line number; the message text and the half-built tree, which
  the exception destroys, are left out.

Framing:

- Framing.ConstructCommandBuffer: a null data pointer and lengths close to 2^32, which wrap, are not modelled.
- Commands are handed on as a list; `IceService`, which acts on them, is not part of this model.
- The length field is read as 16 bits in little-endian order at offset 12, as the code does on its platform; the
  two bytes after it are ignored there and here.
