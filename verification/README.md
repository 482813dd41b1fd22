# RapidJSON: parsers, printer, schema validator, pointers, pool allocator

The login server sends and reads all its messages through the RapidJSON 1.1.0 headers kept in
`LoginServer/include/rapidjson`. This project models the code of those headers in Dafny and proves what the library
is for: that the two parsers agree, that printing and parsing are inverse, that the streaming validator computes the
meaning of a schema, that pointers find, create and erase what they name, and that the allocator's blocks never
overlap. `dafny verify dfyconfig.toml` checks everything.

## How the model is laid out

Each part has a specification in functions and, where the library changes state step by step, classes and methods with
loops that are proved against those functions. What the functions themselves compute is then said a second time, without
them: by a grammar of trees and pieces for texts (`Grammar`, `NumberGrammar`, `StringGrammar`, `PointerGrammar`), keyword by
keyword for schemas (`Keywords`), character by character for the layout (`Layout`), step by step for creation (`Creating`),
and byte by byte for hashes (`HashBytes`).

- **Text and encodings** (`Text`, `Utf8`, `Utf16`). A text is a sequence of bytes; reading past its end gives the NUL
  terminator. `Utf8.Length` and `Utf8.CodePoint` are the byte sequences of section 4 of RFC 3629. The decoder's class
  table and masks are written out next to them and proved to mean the same.
- **Reading** (`Lexer`, `Numbers`, `Recursive`, `Iterative`, `Equivalence`, `Nesting`, `Reader`, `Surrogates`, and the grammar
  in `NumberGrammar`, `StringGrammar`, `Blanks`, `Grammar`, `Refusals`). A parse is a function
  of the text, the flags and the handler: it ends in a position or in an error code with its offset, and in both cases
  with the events sent. A handler is any function that says, for the events sent so far, whether it goes on.
  `Iterative` is the machine of the 14 by 11 table with its stack of (return state, count) frames. `Reader.Reader` is
  the class: cursors over an array, the stack, the parse error. It has both parsers, and both the read-only and the
  in-situ mode in which decoded strings overwrite the text being read.
- **Values and printing** (`Sax`, `Dom`, `Printer`, `Layout`, `RoundTrip`, `Writer`, `Trees`, `Documents`). `Dom.Value` has the
  64-bit pattern and the flags of every integer. `Writer.TextWriter` is the writer, compact or pretty, with a UTF-8 or
  an ASCII target; `Documents.Document` is the stack machine that rebuilds values from events. A value's events
  differ by who sends them: a visit picks the narrowest type by the flags, the reader only uses signed types for
  negative numbers (`Dom.Origin`).
- **Comparing and hashing** (`Likeness`, `Equality`, `Merging`, `Hashes`, `HashBytes`).
- **Schemas** (`Schemas`, `Keywords`, `Offenders`, `Validation`, `Streaming`, `Validators`, `Blame`). `Schemas.Accepts` is the
  meaning of a compiled schema, with no state and no order of checks. `Validation.Step` is the stack of contexts: one
  event log for the whole run, and in each context the place in the log where its value began. The validators that run
  in parallel with a context are those of its subschemas over the log since that place. `Validators` has the objects of
  the library: a `Hasher`, a `Scope` (what a context owns: its hasher and its validators, all fed every event) and the
  `Validator`, whose methods are proved to make exactly the steps of the specification.
- **Pointers** (`Pointers`, `PointerGrammar`, `PointerParser`, `Fragments`, `Positions`, `Resolving`, `Creating`, `TreeEditing`). `PointerParser.Pointer` is the
  parser that fills a name buffer and a token array; `TreeEditing.Tree` is a tree changed in place by `Create`, `Set`
  and `Erase`. Where the library holds a C++ pointer into the tree the loops hold the position it points to.
- **Memory** (`Allocators`): the list of chunks, what was granted for each, and everything that was handed out of them.
  All sums are in 64 bits.

Handlers, base allocators and the test of a double against its largest value are parameters. Nothing is assumed about
them but what a caller must see to: a base allocator returns a free, aligned region or nothing.

## Where the code departs from what it says

The model does what the code does. Where that is not what the documentation or the naive property says, there is a
lemma at an input, and a condition that says exactly when.

- The parsers differ on texts whose first character is `]`, `}`, `,` or `:`. `ParsersAgree` shows those are the only
  ones, and gives both error codes. When a handler stops the parse on a bracket they give the same code; the iterative
  parser reports the bracket, the recursive one mostly the place after it.
- The note that `operator==` is always false for an object with repeated names is false: `ComparesEqualIff` says for
  every value whether anything is equal to it, and `RepeatedNames` says it simply where only the outermost names are
  repeated. Nor is the comparison symmetric then: `SymmetryIff` says when it is, `EqualitySurprises` has a pair for
  which it is not. -1 and 2^64 - 1 are equal.
- A token index that overflows 32 bits is meant to be invalid, but the test misses some wraps: `IndexIsValue` says
  exactly which, and by `UnnoticedOverflow` the token `10000000000` has index 1410065408.
- The allocator adds in 64 bits in three places, and trusts all three sums. `SoundIff` shows that a block lies inside
  what was granted exactly when none of them wraps around; `FailingRequests` has a request for each, such as
  2^64 - 16 bytes, for which 8 are asked of the base allocator.
- An escape of a low surrogate outside a pair is taken for a character, so a string read with encodings checked need
  not be UTF-8: `AcceptedIsUtf8` says when it is. A text that is only half of `NaN` may go on with `Inf`:
  `SpecialWords` lists all that is read.
- URI fragments are not read as section 6 of RFC 6901 says, percent-decoding first: `FragmentsAgree` says on which
  fragments the parser agrees with it. `EncodedSolidus`, `EncodedEscape` and `RawReserved` are three it does not agree on.
- A name given only under `required` or `dependencies` is in the property table of the compiled schema, so
  `additionalProperties` does not see it. The meaning is stated over the compiled schema.
- The pointer the validator reports is the path to the offending value, but a pointer takes the first member of its
  name: it leads there exactly when every member on the way is the first of its name (`PositionResolves`), and not in
  `SecondOfItsName`.

## Model

| member | source | states |
|---|---|---|
| Utf8.Table | LoginServer/include/rapidjson/encodings.h:204-220 | The class table and masks accept exactly the byte sequences of section 4 of RFC 3629, and the shifted payload bits are their code points |
| Utf8.DecodeOfEncode | LoginServer/include/rapidjson/encodings.h:102-121 | Wherever the bytes of a scalar value stand in a text they decode to that value and no byte more is taken |
| Utf8.EncodeOfDecode | LoginServer/include/rapidjson/encodings.h:146-176 | Every character that decodes is a scalar value and its encoding is the bytes taken: there are no overlong forms and no surrogates |
| Utf8.StringStream.Decode | LoginServer/include/rapidjson/encodings.h:146-176 | Decoding on a cursor succeeds exactly on well-formed characters, gives their code point, and says how far the cursor goes also when it fails |
| Utf8.StringStream.Validate | LoginServer/include/rapidjson/encodings.h:179-202 | Validating accepts exactly what decoding accepts, takes as many bytes, and copies each byte it takes |
| Utf8.PutCodePoint | LoginServer/include/rapidjson/encodings.h:102-121 | The bytes put one by one are the code point's encoding |
| Utf16.DecodeOfEncode | LoginServer/include/rapidjson/encodings.h:276-289 | A scalar value's unit or surrogate pair decodes to that value |
| Utf16.EncodeOfDecode | LoginServer/include/rapidjson/encodings.h:307-322 | What decodes is encoded as the units it was decoded from |
| Utf16.UnitStream.Decode | LoginServer/include/rapidjson/encodings.h:307-322 | Decoding on a cursor fails exactly on lone surrogates |
| Utf16.UnitStream.Transcode | LoginServer/include/rapidjson/encodings.h:661-667 | One character goes from UTF-16 to UTF-8, or nothing is put |
| Utf16.Transcode | LoginServer/include/rapidjson/encodings.h:661-667 | One character goes from UTF-8 to UTF-16, or nothing is put |
| Utf16.ThereAndBack | LoginServer/include/rapidjson/encodings.h:661-667 | Transcoding character by character succeeds exactly on UTF-8 strings, and back again gives the same bytes |
| Utf16.BackAndThere | LoginServer/include/rapidjson/encodings.h:661-667 | The same from the side of UTF-16: exactly the unit sequences without lone surrogates, each given back |
| Numbers.IntegerIsExact | LoginServer/include/rapidjson/reader.h:1146-1238 | An integer literal of any length is reported with its mathematical value, as the type that the bounds 2^31, 2^32 - 1, 2^63 and 2^64 - 1 give, and as a double or not at all only beyond them |
| Numbers.SpecialWords | LoginServer/include/rapidjson/reader.h:1186-1202 | Exactly these words are read: `NaN`, and `Inf` or `Infinity`, bare or after `N` or `Na`; an `i` after `Inf` must go on to `Infinity` |
| NumberGrammar.NumberRead | LoginServer/include/rapidjson/reader.h:1133-1388 | Whenever sign, integer part, fraction and exponent stand in the text, each as long as it can be, the number is read to its end or is too big; with a fraction or an exponent, or as a special word, it is sent as a double of exactly its characters, and otherwise as the integer it writes |
| NumberGrammar.NumberIff | LoginServer/include/rapidjson/reader.h:1133-1388 | Conversely whatever is read has such parts. A number is too big exactly when a digit that 64 bits do not hold finds the double too big, or its exponent passes 308 and the fraction digits that count; it is no value exactly when no integer part stands there |
| NumberGrammar.DoubleIfMarked | LoginServer/include/rapidjson/reader.h:1265-1295 | A dot or an `e` anywhere among the characters taken makes the event a double of exactly those characters |
| NumberGrammar.DigitsMissing | LoginServer/include/rapidjson/reader.h:1244-1323 | A dot without a digit after it, and an `e` without one after its sign, are refused with their codes at the place where the digit is missing |
| NumberGrammar.FractionRead | LoginServer/include/rapidjson/reader.h:1253-1283 | However long the fraction, as many of its digits count as bring the significant digits to 17; the rest are taken and change nothing |
| Reader.Reader.ScanNarrow | LoginServer/include/rapidjson/reader.h:1158-1185 | The 32-bit accumulator holds the value of the digits taken without ever wrapping, and stops only where one more digit would pass the bound |
| Reader.Reader.ScanWide | LoginServer/include/rapidjson/reader.h:1204-1229 | The same for the 64-bit accumulator that goes on from there |
| Reader.Reader.ScanNegativeExponent | LoginServer/include/rapidjson/reader.h:1305-1311 | The bounded accumulator still takes every digit of the exponent |
| Reader.Reader.ParseNumber | LoginServer/include/rapidjson/reader.h:1133-1388 | The number scanned by the loops is the one of the specification, which NumberGrammar.NumberRead and NumberIff characterise: same event, same position, same error and offset |
| Reader.Reader.SkipWhitespaceAndComments | LoginServer/include/rapidjson/reader.h:560-586 | Whitespace and comments are skipped to where the specification says, or the comment error is set where it says |
| Reader.Reader.ParseHex4 | LoginServer/include/rapidjson/reader.h:755-774 | Four hexadecimal digits give their number, by the tables of StringGrammar.Hex4Is, anything else the error at the escape |
| Reader.Reader.ParseUnicodeEscape | LoginServer/include/rapidjson/reader.h:867-882 | Surrogate pairs are joined, and a high surrogate without its low one is refused |
| Reader.Reader.ParseStringToStream | LoginServer/include/rapidjson/reader.h:840-905 | The decoded bytes are those of the string; in-situ they end strictly behind the read cursor |
| Reader.Reader.Put | LoginServer/include/rapidjson/stream.h:144-167 | In-situ a character is written behind the read cursor and no other cell changes; all text not yet read is intact |
| Reader.Reader.TakeString | LoginServer/include/rapidjson/stream.h:157-158 | The string handed to the handler is in the buffer with its NUL, before the read cursor; otherwise the stack is as before |
| Reader.Reader.ParseString | LoginServer/include/rapidjson/reader.h:808-838 | In either mode the event, position and error are those of the string's text, and every string handed out earlier is still in the buffer, with the NUL after it |
| Surrogates.AcceptedIsUtf8 | LoginServer/include/rapidjson/reader.h:867-882 | A string accepted with encodings checked decodes to UTF-8 exactly when a scan of its text finds no escape of a low surrogate outside a pair |
| Surrogates.LoneSurrogate | LoginServer/include/rapidjson/reader.h:871-881 | The escape of DC00 alone is accepted, and its three bytes are not UTF-8 |
| StringGrammar.StringIff | LoginServer/include/rapidjson/reader.h:840-905 | A string is accepted exactly when it is made, up to its closing quote, of characters as they are, one-letter escapes, escapes of units and escapes of surrogate pairs, and then it decodes to their bytes |
| StringGrammar.SpelledReads | LoginServer/include/rapidjson/reader.h:840-905 | The same with the errors: where neither a piece nor the quote stands, the code is the one for what does stand there, at that place |
| StringGrammar.Hex4Is | LoginServer/include/rapidjson/reader.h:755-774 | Four characters are read as a number exactly when they are its digits in `0123456789abcdef` or `0123456789ABCDEF` |
| StringGrammar.Hex4Refused | LoginServer/include/rapidjson/reader.h:767-771 | They are refused exactly when one of them is in neither table |
| StringGrammar.UnescapeIs | LoginServer/include/rapidjson/reader.h:842-849 | The eight letters that may follow a backslash, and what each stands for |
| Blanks.SkipIff | LoginServer/include/rapidjson/reader.h:560-586 | What is skipped is a gap made of whitespace and, where the flag allows them, whole comments, and all of it |
| Blanks.WhitespaceIs | LoginServer/include/rapidjson/reader.h:268-270 | Whitespace is space, line feed, carriage return and tab |
| Blanks.SkipWhitespaceIff | LoginServer/include/rapidjson/reader.h:264-271 | Skipping whitespace ends at the first character that is none |
| Blanks.BlockCommentIff | LoginServer/include/rapidjson/reader.h:565-575 | A block comment ends after the first star and slash, with no NUL before them |
| Blanks.LineCommentIff | LoginServer/include/rapidjson/reader.h:577-578 | A line comment ends after the first line feed, or at the end of the text |
| Reader.Reader.ParseValue | LoginServer/include/rapidjson/reader.h:1392-1405 | Recursive descent, in either mode, is the specification from any position, leaves the stack as it was and keeps all earlier strings |
| Reader.Reader.ParseObject | LoginServer/include/rapidjson/reader.h:589-654 | The same for an object and its member loop, with the member count sent at its end |
| Reader.Reader.ParseMember | LoginServer/include/rapidjson/reader.h:615-631 | One name, colon and value, with every error in its place |
| Reader.Reader.ParseArray | LoginServer/include/rapidjson/reader.h:657-701 | The same for an array and its element loop |
| Reader.Reader.Parse | LoginServer/include/rapidjson/reader.h:485-516 | A whole text, in-situ or not, gives the events and the result of the specification, which does not depend on the mode |
| Reader.Reader.Transit | LoginServer/include/rapidjson/reader.h:1649-1797 | One transition on the real stack of words is one transition on frames, or stops with the same error |
| Reader.Reader.HandleError | LoginServer/include/rapidjson/reader.h:1801-1820 | An error already set stays; otherwise the state decides the code |
| Reader.Reader.SetParseError | LoginServer/include/rapidjson/reader.h:1801-1820 | Callable only while no error is set, so at most one is set in a parse |
| Reader.Reader.IterativeParse | LoginServer/include/rapidjson/reader.h:1822-1854 | The loop over the table, in either mode, gives the events and the result of the machine |
| Nesting.TransitKeepsNesting | LoginServer/include/rapidjson/reader.h:1649-1797 | A transition sends at most one opening or closing event and its frames change with it |
| Nesting.ReachedIsNested | LoginServer/include/rapidjson/reader.h:1482-1644 | After any number of transitions there is one frame for each container opened and not closed by the events, of its kind, Start is only at the bottom, and the state is never Error, ObjectFinish, ArrayFinish or Value |
| Equivalence.ValueFollows | LoginServer/include/rapidjson/reader.h:1392-1405 | From every state in which a value may start, the machine does what recursive descent does on that value and goes on after it, or stops with the same error |
| Equivalence.MembersFollow | LoginServer/include/rapidjson/reader.h:614-652 | The same for the members of an object from any of them on, with the count reached |
| Equivalence.ElementsFollow | LoginServer/include/rapidjson/reader.h:681-700 | The same for the elements of an array |
| Equivalence.ParsersAgree | LoginServer/include/rapidjson/reader.h:485-516 | For every text, flags and handler the two parsers send the same events and give the same result exactly when the text does not start with a stray bracket, comma or colon; there the codes are ValueInvalid and DocumentEmpty. Offsets are the same but where the handler stops the parse on a bracket: the iterative one is the bracket's, the recursive one is one more, always for an opening bracket, and for a closing one unless trailing commas are allowed, when it may be the same |
| Grammar.ParsedIff | LoginServer/include/rapidjson/reader.h:485-516 | A text is accepted exactly when a tree of the JSON grammar stands in it, gaps, optional trailing commas and all, and the events sent are those of the tree |
| Grammar.IterativelyParsedIff | LoginServer/include/rapidjson/reader.h:1822-1854 | The same of the iterative parser |
| Refusals.RefusedFor | LoginServer/include/rapidjson/reader.h:485-516 | Whatever the text, flags and handler, a refusal is justified by what stands at its offset: no name, colon, comma or bracket where one is due, a second root, a literal that breaks off, the fault of a string or number or comment there, or a handler that refused the events sent |
| Grammar.ValueReads | LoginServer/include/rapidjson/reader.h:1392-1405 | Any tree standing at any place of a text is read to its end and sent |
| Grammar.ValueStands | LoginServer/include/rapidjson/reader.h:1392-1405 | Whatever recursive descent accepts at any place, for any handler, is a tree standing there |
| Dom.ConstructorsAgree | LoginServer/include/rapidjson/document.h:634-670 | Whichever of the four constructors builds an integer, pattern and flags are those of its mathematical value |
| Dom.IntegerEvent | LoginServer/include/rapidjson/document.h:1797-1803 | A number is one event of a type that holds it, and reports its value, whoever sends it |
| Dom.VisitedEvent | LoginServer/include/rapidjson/document.h:1797-1803 | A visited integer is sent as the first of int, unsigned, int64 and unsigned 64 that holds it |
| Dom.PairsOfCells | LoginServer/include/rapidjson/document.h:2361-2365 | The cells taken off the stack at the end of an object are its members, names and values in order |
| Dom.BuildValue | LoginServer/include/rapidjson/document.h:2333-2373 | The events of any value, whoever sends them, push that one value and leave the stack below alone |
| Trees.ValueTree | LoginServer/include/rapidjson/document.h:2155-2165 | The events of every text accepted as a value push exactly one value, whose integers are as the constructors build them |
| Trees.ParsedTree | LoginServer/include/rapidjson/document.h:2155-2165 | Every accepted text leaves exactly one root |
| Trees.ParseIsHandled | LoginServer/include/rapidjson/document.h:2361-2373 | At every moment of every parse, also of one that fails or is stopped, a document that handles the events as they are sent has on its stack what each one pops |
| Documents.Document.EndObject | LoginServer/include/rapidjson/document.h:2361-2365 | The top cells become the members of the object under them |
| Documents.Document.EndArray | LoginServer/include/rapidjson/document.h:2369-2373 | The top cells become the elements of the array under them |
| Documents.Document.ParseStream | LoginServer/include/rapidjson/document.h:2155-2165 | With either parser the document gets the text's one value when the text is accepted and keeps its old one when not; all that was sent is handled in both cases, and the stack ends empty |
| Documents.CopyTo | LoginServer/include/rapidjson/document.h:1768-1805 | Visiting a value with a document pushes an equal value and changes nothing below |
| Documents.DeepCopy | LoginServer/include/rapidjson/document.h:2408-2431 | A deep copy is the value, doubles included |
| Printer.EscapeFails | LoginServer/include/rapidjson/writer.h:359-431 | A string cannot be written exactly when the target is ASCII and the string is not UTF-8 |
| Printer.EscapeBound | LoginServer/include/rapidjson/writer.h:374-377 | The escapes of a string fit in six bytes a character, with either target |
| StringGrammar.BytesWritten | LoginServer/include/rapidjson/writer.h:361-422 | For a UTF-8 target every byte is written as it is but for letter escapes, and upper-case escapes of the other control characters; a solidus is not escaped |
| StringGrammar.PointsWritten | LoginServer/include/rapidjson/writer.h:383-411 | For an ASCII target every code point beyond is written as one escape, or as the two of its surrogate pair |
| Layout.PrettyIsSpread | LoginServer/include/rapidjson/prettywriter.h:137-253 | A pretty text is the compact text with whitespace put in by a scan of its characters: a line feed and width times open brackets indent characters after an opening bracket that does not close at once, after a comma and before a closing bracket, one space after a colon and after a comma in an array on one line; a compact text has no whitespace outside its strings |
| Writer.TextWriter.WriteString | LoginServer/include/rapidjson/writer.h:359-431 | Succeeds exactly on strings that can be written, puts their quoted escapes, and never more than 2 + 6n bytes even when it fails |
| Writer.TextWriter.PutPrefix | LoginServer/include/rapidjson/prettywriter.h:206-247 | Comma, colon, line break and indentation as the level and the parity of its count ask for, compact or pretty: what Layout.PrettyIsSpread says of the whole text |
| Writer.TextWriter.String | LoginServer/include/rapidjson/writer.h:201-207 | A string or a name takes its separator first; it fails exactly when the text cannot be written |
| Writer.TextWriter.Integer | LoginServer/include/rapidjson/writer.h:182-185 | Integers of all four types are written as the same decimal number |
| Writer.TextWriter.StartObject | LoginServer/include/rapidjson/writer.h:214-218 | A value is counted in the level around it before the new level is pushed |
| Writer.TextWriter.WriteIndent | LoginServer/include/rapidjson/prettywriter.h:250-253 | As many indentation characters as the open containers ask for |
| Writer.TextWriter.EndObject | LoginServer/include/rapidjson/prettywriter.h:137-152 | The brace goes on a line of its own unless the object is empty; the level is popped |
| Writer.TextWriter.EndArray | LoginServer/include/rapidjson/prettywriter.h:161-176 | The same for a bracket, and on the same line in single-line format |
| Writer.WriteValue | LoginServer/include/rapidjson/writer.h:180-245 | A value's events keep every assertion of the writer, write exactly the value's text where a value is due, and count one value |
| RoundTrip.NumberReads | LoginServer/include/rapidjson/reader.h:1133-1388 | A printed integer in [-2^63, 2^64 - 1] reads back as itself |
| RoundTrip.CodePointReads | LoginServer/include/rapidjson/reader.h:867-882 | A code point written as one escape or as a surrogate pair reads back as itself |
| RoundTrip.BodyReads | LoginServer/include/rapidjson/reader.h:840-905 | What is written of a string, raw or escaped to ASCII, decodes to the same bytes, with encodings checked or not |
| RoundTrip.ValueReads | LoginServer/include/rapidjson/reader.h:1392-1405 | A value printed anywhere in a text, in any format, reads as its own events, up to its last character |
| RoundTrip.PrintReads | LoginServer/include/rapidjson/prettywriter.h:123-177 | Compact or pretty with any whitespace for indentation, the text of a value parses to the value's events, the same for every format |
| Documents.WriteTo | LoginServer/include/rapidjson/document.h:1768-1805 | Visiting a value with a writer succeeds exactly when all its strings can be written, and then has written its text |
| Documents.WriteParseBuild | LoginServer/include/rapidjson/document.h:1768-1805 | What a visit writes, both parsers read without error to its end, and the events rebuild the value |
| Documents.SaveAndLoad | LoginServer/include/rapidjson/document.h:2155-2165 | Writing any value to text and parsing it, with either parser, in place or not, gives the value back: member order, bytes of strings and integer flags included; only a reader told to check encodings asks for strings that are UTF-8 |
| Equality.Compare | LoginServer/include/rapidjson/document.h:852-891 | The loops with their early exits decide the comparison |
| Equality.Find | LoginServer/include/rapidjson/document.h:1153-1161 | The first member of that name, or the end |
| Equality.EqualIffAlike | LoginServer/include/rapidjson/document.h:852-891 | Without repeated names, one inclusion and equal sizes are enough: values compare equal exactly when they are the same up to the order of members at any depth, integers by their 64 bits |
| Equality.EqualityIsEquivalence | LoginServer/include/rapidjson/document.h:852-891 | Without repeated names the comparison is an equivalence relation |
| Equality.SymmetryIff | LoginServer/include/rapidjson/document.h:852-867 | For objects whose members' values have unique names, a true comparison is true the other way round exactly when members of one name on the right are equal and no name on the right is missing on the left |
| Equality.RepeatedNames | LoginServer/include/rapidjson/document.h:848-867 | An object compares equal to some value exactly when its members of one name have equal values; the note that one with repeated names never does is false |
| Merging.ComparesEqualIff | LoginServer/include/rapidjson/document.h:848-867 | For every value, repeated names at any depth included: it compares equal to some value exactly when the values that meet under one name can be merged, and then it compares equal to the merged one |
| Merging.MergeIsAbove | LoginServer/include/rapidjson/document.h:852-867 | All the values that were merged compare equal to the result |
| Merging.MergeExists | LoginServer/include/rapidjson/document.h:852-867 | Values that compare equal to one and the same value can be merged |
| Equality.EqualitySurprises | LoginServer/include/rapidjson/document.h:886 | -1 equals 2^64 - 1, and a pair of objects with repeated names that compare equal one way only |
| Likeness.AlikeSymmetric | LoginServer/include/rapidjson/document.h:852-867 | Being the same up to the order of members is symmetric, though defined by searching for the partners of one side |
| Likeness.AlikeTransitive | LoginServer/include/rapidjson/document.h:852-867 | And transitive |
| Hashes.HashValue | LoginServer/include/rapidjson/schema.h:171-252 | The events of any value leave exactly one more hash on the stack, the same whoever sends them |
| Hashes.HashIgnoresOrder | LoginServer/include/rapidjson/schema.h:197-204 | Reordering the members of objects at any depth does not change the hash |
| HashBytes.BufferHashLast | LoginServer/include/rapidjson/schema.h:237-252 | The hash of a buffer is that of all but its last byte combined with that byte |
| HashBytes.CombineIs | LoginServer/include/rapidjson/schema.h:247-252 | Combining is FNV-1a: exclusive or, then multiplication by the 64-bit FNV prime |
| HashBytes.OneByteMatters | LoginServer/include/rapidjson/schema.h:237-252 | Buffers that differ in exactly one byte have different hashes |
| HashBytes.StringsDiffer | LoginServer/include/rapidjson/schema.h:190-193 | Two strings that differ in exactly one byte never have one hash |
| HashBytes.NumberHashIs | LoginServer/include/rapidjson/schema.h:216-235 | A number is hashed by its type, the eight bytes of its two's complement, and the eight bytes of its double |
| HashBytes.DoubleIsNearest | LoginServer/include/rapidjson/schema.h:173-176 | The double of an integer has its sign, the exponent of its highest power of two, and a 53-bit significand that is exact below 2^53 and otherwise the nearest, to even |
| HashBytes.HashOfIs | LoginServer/include/rapidjson/schema.h:171-214 | Each kind of value begins with its own type |
| HashBytes.OneMore | LoginServer/include/rapidjson/schema.h:196-214 | One element more is combined with the hash of the array before it; one member more is added by exclusive or |
| HashBytes.ElementMatters | LoginServer/include/rapidjson/schema.h:207-214 | Arrays that differ in the hash of exactly one element have different hashes |
| Validators.Hasher.EndObject | LoginServer/include/rapidjson/schema.h:197-204 | The loop over name and value hashes pops them and pushes the object's hash |
| Validators.Hasher.EndArray | LoginServer/include/rapidjson/schema.h:207-214 | The loop over element hashes pops them and pushes the array's hash |
| Validators.Hasher.Handle | LoginServer/include/rapidjson/schema.h:171-252 | Every event does to the stack what the specification says |
| Offenders.EnumIgnoresOrder | LoginServer/include/rapidjson/schema.h:651-658 | A value that is an enum member up to member order is accepted as if there were no enum |
| Keywords.AcceptsIff | LoginServer/include/rapidjson/schema.h:600-900 | From the fields of the compiled schema alone: a value is accepted exactly when every keyword is met, and one that is not is enough to refuse it |
| Keywords.ItemIff | LoginServer/include/rapidjson/schema.h:600-625 | Every element is accepted by the single items schema; with a tuple by the schema of its place, and beyond it by the additional schema, or freely, or not at all |
| Keywords.MemberIff | LoginServer/include/rapidjson/schema.h:783-826 | Every member is accepted by the schema of the first property of its name; without one by the additional schema, or freely, or not at all |
| Keywords.TypelessAccepts | LoginServer/include/rapidjson/schema.h:952-955 | The schema that asks nothing accepts every value |
| Keywords.LengthIff | LoginServer/include/rapidjson/schema.h:744-757 | minLength and maxLength bound the number of code points of the string, and a string that is not UTF-8 has none to bound |
| Keywords.RangeIff | LoginServer/include/rapidjson/schema.h:1100-1175 | minimum and maximum, exclusive or not, and multipleOf bound an integer as they say |
| Keywords.MatchesOne | LoginServer/include/rapidjson/schema.h:673-684 | oneOf is met exactly when one schema accepts and no other does |
| Offenders.OffenderIff | LoginServer/include/rapidjson/schema.h:600-690 | In the order in which checks are made, some value is found to blame exactly when the schema does not accept |
| Streaming.AdmitsIff | LoginServer/include/rapidjson/schema.h:1100-1175 | The type and range checks on a value's first event, signed or unsigned, decide what the schema asks of the value |
| Streaming.PopUndoesToken | LoginServer/include/rapidjson/schema.h:1874-1896 | Popping the path to its last slash removes exactly the last token, whatever characters the name has |
| Streaming.MarkedIff | LoginServer/include/rapidjson/schema.h:783-826 | After an object's members a property is marked exactly when one of them carries its name |
| Streaming.ObjectEndsIff | LoginServer/include/rapidjson/schema.h:828-856 | The checks on counts, marks and parallel validators at the end of an object decide what the schema asks of it |
| Streaming.EndsIff | LoginServer/include/rapidjson/schema.h:625-690 | The hash and the verdicts of the parallel validators at the end of a value decide enum, allOf, anyOf, oneOf and not |
| Streaming.ContentIff | LoginServer/include/rapidjson/schema.h:1050-1084 | A validator nested at any depth that was fed all of a value is valid exactly when its own schema accepts the value |
| Streaming.ValueStreams | LoginServer/include/rapidjson/schema.h:1663-1734 | Inside any run, a value's events either leave the contexts as they were but for the count, marks and hash of this value, or stop with the path to the value to blame |
| Streaming.PathInRun | LoginServer/include/rapidjson/schema.h:1276-1284 | In a run still valid the path buffer, when any value begins, is the RFC 6901 string of the way to it |
| Streaming.ValidatorAccepts | LoginServer/include/rapidjson/schema.h:1663-1734 | Feeding a value's events leaves the validator valid exactly when the schema accepts the value; then stack and path are empty, else the path is that of the value to blame |
| Validators.Scope.constructor | LoginServer/include/rapidjson/schema.h:1050-1084 | A value's hasher and one validator for each of its schema's subschemas are made, all fresh |
| Validators.Scope.Feed | LoginServer/include/rapidjson/schema.h:1670-1680 | Hasher and validators all handle the event, each without disturbing another |
| Validators.Scope.EndValue | LoginServer/include/rapidjson/schema.h:625-690 | The loops over the groups of validators find what the specification finds |
| Validators.Scope.EndObject | LoginServer/include/rapidjson/schema.h:828-856 | The loops over required names and dependencies find what the specification finds |
| Validators.Validator.BeginValue | LoginServer/include/rapidjson/schema.h:1813-1842 | The context of the next value is pushed with the schema that Keywords.ItemIff and MemberIff characterise, or the value may not be there |
| Validators.Validator.FeedAll | LoginServer/include/rapidjson/schema.h:1670-1680 | Every open context's hasher and validators handle the event |
| Validators.Validator.AppendToken | LoginServer/include/rapidjson/schema.h:1881-1896 | A slash and the name with its tildes and slashes escaped |
| Validators.Validator.PopLastToken | LoginServer/include/rapidjson/schema.h:1874-1876 | The loop over characters removes the last token |
| Validators.Validator.Scalar | LoginServer/include/rapidjson/schema.h:1690-1700 | A scalar begins, is checked, is seen by all that runs in parallel, and ends |
| Validators.Validator.StartObject | LoginServer/include/rapidjson/schema.h:1702-1706 | An object begins: its context is pushed and everything open sees the event |
| Validators.Validator.StartArray | LoginServer/include/rapidjson/schema.h:1723-1727 | The same for an array |
| Validators.Validator.Key | LoginServer/include/rapidjson/schema.h:1708-1714 | A member's name reaches the path, the context and all that runs in parallel, as the specification says |
| Validators.Validator.EndObject | LoginServer/include/rapidjson/schema.h:1716-1721 | The end of an object, for its context and all that runs in parallel |
| Validators.Validator.EndArray | LoginServer/include/rapidjson/schema.h:1729-1734 | The same for an array |
| Validators.Validator.EndValue | LoginServer/include/rapidjson/schema.h:1844-1879 | The last checks; then the context is popped, the hash noted where elements must be unique, and the path goes back |
| Validators.Validator.Handle | LoginServer/include/rapidjson/schema.h:1663-1734 | Any event makes the object take exactly one step of the specification |
| Validators.Validator.Reset | LoginServer/include/rapidjson/schema.h:1626-1631 | The validator is as new |
| Validators.Validate | LoginServer/include/rapidjson/schema.h:1663-1734 | The object fed the events of a value says yes exactly when the schema accepts it, and otherwise holds the path to the value to blame |
| Blame.PathParses | LoginServer/include/rapidjson/schema.h:1648-1650 | The path buffer always parses as a pointer, to the names it was made of |
| Blame.FailureNamesCulprit | LoginServer/include/rapidjson/schema.h:1648-1650 | After a failure the reported pointer parses, and it is the path to the one value that is itself at fault with everything before it in document order accepted: it may not be there, repeats an earlier element, or fails its own type, bounds, end or combination. It leads there exactly when every member on the way is the first of its name |
| Blame.OneCulprit | LoginServer/include/rapidjson/schema.h:1813-1879 | There is never a second such value |
| Blame.CulpritRejected | LoginServer/include/rapidjson/schema.h:1663-1734 | A value that has one inside is not accepted |
| Blame.PositionResolves | LoginServer/include/rapidjson/pointer.h:479-507 | The path to a place, read as a pointer, leads to that place exactly when every member on the way is the first of its name and every index fits 32 bits |
| Blame.SecondOfItsName | LoginServer/include/rapidjson/schema.h:1648-1650 | Of two members of one name the second is at fault, and the reported pointer resolves to the first |
| Pointers.IndexIsValue | LoginServer/include/rapidjson/pointer.h:904-917 | The index is the number written below 2^32 and invalid above, exactly when the number fits, or some step of the wrapping sum comes out smaller, or the wrapped value happens to be the invalid one |
| Pointers.UnnoticedOverflow | LoginServer/include/rapidjson/pointer.h:904-917 | 10000000000 is beyond 32 bits, no step shows it, and its index is 1410065408 |
| Pointers.StringifyFails | LoginServer/include/rapidjson/pointer.h:941-972 | Every pointer has a string form; it has a fragment form exactly when all its names are UTF-8 |
| Pointers.StringifyParses | LoginServer/include/rapidjson/pointer.h:941-972 | Whatever is written, in either form, parses to its end and gives the same names, with the indices they write |
| Pointers.AcceptedReparses | LoginServer/include/rapidjson/pointer.h:802-932 | Every accepted text, in either form, gives tokens whose string form parses to the same tokens |
| Pointers.StringFormInverse | LoginServer/include/rapidjson/pointer.h:802-932 | An accepted string form is given back to the byte by writing its tokens |
| Fragments.FragmentsAgree | LoginServer/include/rapidjson/pointer.h:840-893 | Against section 6 of RFC 6901, percent-decoding first and then the string form: a fragment that is no pointer there is refused; one that is gives the same tokens exactly when no triplet writes a solidus, no tilde is escaped by a triplet, and no reserved character of RFC 3986 is raw |
| Fragments.CodeOkIff | LoginServer/include/rapidjson/pointer.h:840-893 | The one-pass scan accepts exactly where the decoded bytes are UTF-8 with every tilde escaped and nothing of the last two kinds is in the text |
| Fragments.EncodedSolidus | LoginServer/include/rapidjson/pointer.h:842-861 | `#/a%2Fb` is read as one name, and is two by the standard |
| Fragments.EncodedEscape | LoginServer/include/rapidjson/pointer.h:870-884 | `#/~%30` is refused, and is the name `~` by the standard |
| Fragments.RawReserved | LoginServer/include/rapidjson/pointer.h:862-865 | `#/!` is refused, and is the name `!` by the standard |
| PointerGrammar.StringFormIff | LoginServer/include/rapidjson/pointer.h:802-932 | A string form is read as certain tokens exactly when it is their names after solidi, `~` spelled `~0` and `/` spelled `~1`, and they carry their indices |
| PointerGrammar.PointerSpelled | LoginServer/include/rapidjson/pointer.h:941-972 | What is written is the same spelling and, in a fragment, a number sign before it and upper-case triplets for all but the unreserved characters |
| PointerGrammar.WritesIndexIff | LoginServer/include/rapidjson/pointer.h:904-917 | The names that write an index are exactly the decimal numbers in their only spelling; any other has the invalid index |
| PointerGrammar.NeedPercentIff | LoginServer/include/rapidjson/pointer.h:790-792 | All but the unreserved characters of RFC 3986 need a triplet |
| PointerGrammar.PercentByteIs | LoginServer/include/rapidjson/pointer.h:980-1021 | A triplet gives a byte exactly when it is a percent sign and the byte's two hexadecimal digits, in either case of letter |
| PointerGrammar.RefusalIs | LoginServer/include/rapidjson/pointer.h:824-893 | Every refusal names what is wrong where reading stopped |
| PointerParser.PercentDecodeStream.Take | LoginServer/include/rapidjson/pointer.h:980-1021 | Three characters give the byte of PointerGrammar.PercentByteIs, or the stream is no longer valid and gives zero |
| PointerParser.Pointer.DecodeChar | LoginServer/include/rapidjson/pointer.h:844-861 | Percent triplets of one UTF-8 character give its bytes; also when they do not, only the next four places of the buffer are written |
| PointerParser.Pointer.TakeBytes | LoginServer/include/rapidjson/pointer.h:846-848 | Each byte is put into the buffer as it is taken, never past its end, before it is known whether the bytes are a character |
| PointerParser.Pointer.ParseName | LoginServer/include/rapidjson/pointer.h:840-893 | A name is unescaped into the buffer without passing what has been read of the source, or fails with the code and offset of the specification |
| PointerParser.Pointer.ParseIndex | LoginServer/include/rapidjson/pointer.h:896-917 | The loop over digits gives the index the name writes |
| PointerParser.Pointer.ParseTokens | LoginServer/include/rapidjson/pointer.h:833-919 | The loop fills exactly the tokens counted by their slashes, within the buffer |
| PointerParser.Pointer.Parse | LoginServer/include/rapidjson/pointer.h:802-932 | The parser accepts what the specification accepts, with the same tokens, or the same error at the same offset and no tokens |
| PointerParser.Pointer.constructor | LoginServer/include/rapidjson/pointer.h:802-932 | The same when a pointer is made from a text |
| PointerParser.Pointer.Stringify | LoginServer/include/rapidjson/pointer.h:941-972 | Writes the form asked for, or fails exactly when it does not exist |
| PointerParser.Pointer.Equals | LoginServer/include/rapidjson/pointer.h:334-348 | Two pointers are equal exactly when both are valid and have the same tokens |
| Resolving.CreateExists | LoginServer/include/rapidjson/pointer.h:401-447 | Creation reports that the value was there exactly when it could be resolved before, and then the tree is unchanged |
| Resolving.CreateThenGet | LoginServer/include/rapidjson/pointer.h:401-447 | After creation the pointer resolves exactly when no `-` was applied to an array: to the value it named before, or to null |
| Resolving.EraseExactly | LoginServer/include/rapidjson/pointer.h:711-749 | Erasing succeeds exactly on a value that resolves and is not the root; its container loses that child alone, and otherwise nothing changes |
| Resolving.ReplaceElsewhere | LoginServer/include/rapidjson/pointer.h:479-507 | Changing what one pointer names does not change what another that parts from it names |
| Resolving.EraseUndoesCreate | LoginServer/include/rapidjson/pointer.h:711-749 | Erasing a member or last element that creation has just added gives the old tree back |
| Creating.CreateKeeps | LoginServer/include/rapidjson/pointer.h:401-447 | Creation keeps what every other pointer resolved to that parts from it before a value has to change type |
| Creating.CreateStep | LoginServer/include/rapidjson/pointer.h:407-440 | Each step keeps the old elements as a prefix, with nulls up to the index and no further, or the old members with one null of the name at the end; a dash appends one null; what cannot hold the child becomes an empty object or array first |
| TreeEditing.LeadsGet | LoginServer/include/rapidjson/pointer.h:479-507 | Where the loop stands in the tree, what is left of the tokens decides the whole resolution |
| TreeEditing.LeadsPut | LoginServer/include/rapidjson/pointer.h:610-612 | Writing where a pointer leads does not change where it leads |
| TreeEditing.Tree.Resolve | LoginServer/include/rapidjson/pointer.h:479-507 | The loop finds the place of the value the tokens name, or the first token that names nothing |
| TreeEditing.Tree.MakeRoom | LoginServer/include/rapidjson/pointer.h:412-438 | A value that cannot hold the child changes type, the child is added as Creating.CreateStep says, and nothing outside that value changes |
| TreeEditing.Tree.Create | LoginServer/include/rapidjson/pointer.h:401-447 | The loop that changes types, pads arrays and adds members makes the specified tree, of which Creating.CreateStep and CreateKeeps say what it is, and returns the place the tokens then lead to, holding what was there or null |
| TreeEditing.Tree.Set | LoginServer/include/rapidjson/pointer.h:610-612 | After setting, the pointer resolves to the value set, unless a `-` was applied to an array |
| TreeEditing.Tree.Erase | LoginServer/include/rapidjson/pointer.h:711-749 | The loop erases exactly what the specification erases |
| Positions.PutLaws | LoginServer/include/rapidjson/pointer.h:401-447 | What an assignment through a pointer into the tree changes: the place reads back what was written, later writes hide earlier ones |
| Allocators.ServesSoundly | LoginServer/include/rapidjson/allocators.h:176-188 | A chunk that passes the test has room for the request exactly when nothing wraps around in 64 bits |
| Allocators.ServesIff | LoginServer/include/rapidjson/allocators.h:176-188 | Where nothing wraps, the newest chunk serves exactly the requests for which some multiple of eight, at least the size, fits what is unused |
| Allocators.NewCapacityIs | LoginServer/include/rapidjson/allocators.h:181-183 | A chunk that is added has the larger of the pool's chunk capacity and what the request needs |
| Allocators.SoundIff | LoginServer/include/rapidjson/allocators.h:176-188 | The block for a request lies inside what was granted for its chunk exactly when none of three 64-bit sums wraps around: the rounding, the bytes used, and the header of a chunk that is needed |
| Allocators.FailingRequests | LoginServer/include/rapidjson/allocators.h:237-249 | One failing request for each sum, with what is then asked of the base allocator |
| Allocators.AlignFits | LoginServer/include/rapidjson/rapidjson.h:271-277 | Up to 2^64 - 8 rounding reaches the next multiple of eight and no further |
| Allocators.MemoryPool.constructor | LoginServer/include/rapidjson/allocators.h:110-113 | A new pool is empty and consistent |
| Allocators.MemoryPool.FromBuffer | LoginServer/include/rapidjson/allocators.h:125-134 | A pool over a user's buffer, aligned or not, has that one chunk |
| Allocators.MemoryPool.Malloc | LoginServer/include/rapidjson/allocators.h:176-188 | For any size: there is no block exactly for a size of zero or when a needed chunk is refused; the block lies inside what was granted exactly when no sum wraps; then it is at least as large as asked, and every block handed out before and every byte of memory stay |
| Allocators.MemoryPool.Realloc | LoginServer/include/rapidjson/allocators.h:191-222 | For any sizes: when there is no block, that the block lies inside what was granted exactly when no sum wraps, and that then it keeps its contents, kept, extended or copied, is at least as large as asked, and no byte of another block changes |
| Allocators.MemoryPool.KeptOrNot | LoginServer/include/rapidjson/allocators.h:201-214 | A block kept or extended has room for the new size exactly when neither the rounding nor the extension wraps around |
| Allocators.MemoryPool.ExpandsIff | LoginServer/include/rapidjson/allocators.h:207-214 | A block is extended in place exactly when it is the newest chunk's last and the chunk has room for its new size |
| Allocators.MemoryPool.Move | LoginServer/include/rapidjson/allocators.h:217-224 | The copy in a new block has the old contents and touches no other block, when the new one is sound |
| Allocators.MemoryPool.AddChunk | LoginServer/include/rapidjson/allocators.h:237-249 | A chunk from the base allocator becomes the newest, and the pool stays sound exactly when the size asked for did not wrap; when there is none nothing changes |
| Allocators.MemoryPool.Clear | LoginServer/include/rapidjson/allocators.h:145-153 | Every chunk goes but the user's buffer, which is emptied |
| Allocators.MemoryPool.Capacity | LoginServer/include/rapidjson/allocators.h:158-163 | The walk over the list sums the capacities of all chunks |
| Allocators.MemoryPool.Size | LoginServer/include/rapidjson/allocators.h:168-173 | The walk sums what is used, never more than the capacity |
| Allocators.MemoryPool.BlocksAreApart | LoginServer/include/rapidjson/allocators.h:176-188 | In every sound state blocks lie inside what their chunk was granted and share no address, and are aligned exactly as their chunk is, which all but the user's buffer are |

## Left out

- Floating point: a double is the characters it was written with, and whether one grows too big while it is read is a parameter; conversions, NaN and Inf values, doubles in schemas and in equality, and the sum of exponent and fraction shift are not modelled.
- Numbers.IntegerIsExact: beyond 64 bits it says double or too big; NumberGrammar.NumberRead says which, by the parameter that tests the double.
- Equality.RepeatedNames: for objects whose members' values have no repeated names of their own; the general condition is that of Merging.ComparesEqualIff.
- Equality.SymmetryIff: for the same objects.
- Streaming.ValidatorAccepts: schemas have no `pattern` and no `patternProperties` (the regular expression engine is not part of this model), bounds on numbers are integers, and enum and uniqueItems are meant by hash, as the code compares them.
- Validators.Validator.Handle: an event that cannot come inside a well-nested stream of values is refused or ignored where the library would fail an assertion, and the context's counters are a record kept beside its `Scope`.
- Documents.Document.ParseStream: the document handles the events one by one after the parse; `Trees.ParseIsHandled` shows that it could have handled each when it was sent.
- TreeEditing.Tree.Create: the tree is one value and places in it are positions; capacities of arrays and the memory of values are not modelled.
- Allocators.MemoryPool.Malloc: of a request whose sums wrap around only the block's place and its failure to fit are stated; the bytes then written outside the grant, the chunk's header among them, are not modelled.
- Schemas.CountCodePoints: the library's counting function is not part of this model; Keywords.LengthIff says what is counted.
- Pointers.ParsePointer: a text reads as NUL at its end, where the library reads `source[0]` of an empty one, and the percent decoder the character after the last.
- HashBytes.OneByteMatters: bytes that differ are compared as the 64-bit words that are combined.
- Grammar.ParsedIff: for a handler that refuses nothing; what a handler's refusal ends is stated by the agreement of the parsers.
- Equivalence.ParsersAgree: with trailing commas allowed it is not stated at which closing brackets the two offsets are the same.
- Bytes after a NUL inside a text, and in-situ writes past the end of the buffer, are not modelled.
- Integer printing is canonical decimal and the stack is an unbounded sequence: the files of the internal directory are not part of this model.
- Writer options that check encodings on output, raw values, raw numbers, numbers as strings, and full-precision parsing.
- UTF-32, byte order marks, byte-order streams, file and iostream wrappers, and encoding detection. UTF-16 is modelled as 16-bit units for the codec and the transcoder; the reader and the writer work on UTF-8, the writer also with an ASCII target.
- The vectorised versions of the whitespace and string loops.
- Schema compilation, `$ref`, remote schemas, the output handler and the report of the invalid keyword.
- RemoveMember, which moves the last member into the gap, Swap, moves, string references, 48-bit packing of values, and pointers over tokens given by the user.
- Counts of members and elements are below 2^32.
- The server's own logger, locks and constants, and the MySQL headers.
