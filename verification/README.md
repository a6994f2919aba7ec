# amp-embedded-infra-lib: a verified model of its hard parts

amp-embedded-infra-lib is a C++ infrastructure library for embedded systems that works without a
heap. This project models the parts of it whose correctness is hardest to see, and proves what they
promise, in Dafny.

* **JSON.** Both parsers read exactly the texts of a grammar, with the tree or the callbacks that the
  grammar calls for: the converse is proved for every input, so that no comma, colon or bracket can be
  missing or left over, and all other input is unfinished or reported as an error. The streaming parser
  reacts the same way wherever its input is cut, and skips a nested value exactly. The formatters print a tree as a text of the
  grammar, and it is exactly known which trees the iterators give back. A text can be cleaned in the
  buffer its tokenizer is still reading: writing stays behind reading exactly if what is printed never
  gets longer than what was read.
* **Concurrency, as single steps.** The ring between an interrupt and a reader, the event queue with
  its compare-exchange, the tick interrupt and its processing: each is a state machine over single
  loads and stores, and the results hold for every interleaving. They say what is accepted and executed
  in terms of what was offered: the queue takes all that fits, and every scheduled action runs. The claim
  queue of a shared resource is a class whose invariant holds over every run.
* **Timers.** The cached next trigger is the minimum over the armed timers, each turn runs a least due
  timer whatever the actions do to the others, and renews it: a repetition is armed for the one next
  time in its phase.
* **Calendar.** The closed-form conversions are the proleptic Gregorian calendar, in both directions.
* **Wire formats.** Protocol Buffers messages whose length is inserted afterwards by moving bytes in
  place, and Base64 (section 4 of RFC 4648), are read back as they were written, and what the two
  readers accept is exactly a stated wire format.
* **Containers.** Erasing from a heap at any position, a linked list with its free list, a ring deque,
  and the buffering streams on top of it.

Each module holds one component; `Common` holds what they share. Code that changes things step by step
is modelled by classes and methods with loops, proved against specifications on sequences, trees,
multisets or day numbers; what the source promises is then proved about those specifications.
`JsonSyntax` defines the grammar of JSON once, as concrete syntax trees with white space and escapes,
for the parsers and the formatters. On these trees, `Rfc` is RFC 8259 to the letter; `Ok` has also raw
control characters, escapes of any character, leading zeros and two more characters of white space;
`Loose` is what the iterators read (numbers such as `-` and `1.`, short Unicode escapes, no exponents),
and `Streamed` what the streaming parser reads (any exponent characters behind a fraction, anything
balanced inside values that are skipped).

Integers are unbounded; where the source wraps or truncates, the model does so explicitly (the skip
counter and the bracket counter, 64-bit numbers, 16-bit years, 32-bit ticks, 16-bit decoder words).
Characters are bytes; whether `char` is signed is a parameter of the escaping. Interrupts, event
scheduling, time and the effects of callbacks are inputs: a visitor is any function of the callbacks so
far, and an interleaving is any sequence of steps.

Some promises turn out not to hold everywhere; for each of these the exact condition under which it
holds is proved, on the inputs that its entry names.

* The streaming parser fails on some texts that RFC 8259 allows: an exponent without a fraction, a
  literal longer than the value buffer, a Unicode escape where that buffer is full, each only inside
  values that are entered. `TextRun` says that these are all, `TextOutcomeRun` what happens then.
* The iterators report an error for every exponent (`ReadsExactly`, `ExponentIsNotRead`), and read some
  texts that RFC 8259 does not allow; `JsonGrammar.ReadsExactlyGrammar` says which. So does the streaming
  parser (`JsonStreamingGrammar.ReadsExactlyGrammar`).
* The Base64 decoder accepts a text whose padding is cut off, and any bits behind the last byte
  (`DecodesExactly`).
* The formatters do not escape the backslash, and print keys as they are. A string is read back exactly
  if it has no backslash (`ReadBackExactly`, `BackslashIsNotEscaped`), a key exactly if it has neither
  quote nor backslash (`KeyReadBackExactly`, `QuoteInKey`), and a tree exactly if this holds for all of
  its strings and keys and its fractions are below one (`RoundTripExactly`).
* The pull tokenizer accepts numbers without digits and prints them longer than they were. Cleaning in
  place overtakes its own reading exactly if what is printed outgrows what was read
  (`OvertakesUnlessFits`); `[-,1]` then becomes `[-01]` (`CleaningOvertakes`). Among the texts without
  errors whose words are separated, the result is right exactly if this does not happen, or happens
  only when nothing is left to read and there is room (`CleansExactly`, `OvertakingAtTheEnd`).
* A varint that does not end after ten bytes is accepted: the parser only queries its error policy.
  Reading fails exactly on shorter input that does not end (`OverlongIsAccepted`).
* The calendar conversion round-trips exactly while the year beginning in March fits 16 bits
  (`RoundTripRange`).
* The buffering writer writes past its own buffer when its output has gained room. The order of bytes is
  kept exactly if what goes out commutes with what is buffered (`Insert`, `ReorderedInput`).
* Progressed may end with a timer due: exactly those which the last action armed at or before the time
  (`Service.Progressed`, `EndsWithTimerDue`).

Verify everything with `dafny verify dfyconfig.toml`.

## Model

| member | source | states |
|---|---|---|
| `JsonStreamingParser.FeedToken` | infra/syntax/JsonStreamingParser.cpp:89-264 | the tokenizer with its inner white space and string loops does what one-byte steps do, for every state, input, buffer size and save flag, and leaves the same bytes |
| `JsonStreamingParser.FeedLexerIsRun` | infra/syntax/JsonStreamingParser.cpp:89-264 | running the one-byte machine over an input equals feeding the tokenizer, reacting to the token it finds and running over what is left |
| `JsonStreamingParser.StepFlushes` | infra/syntax/JsonStreamingParser.cpp:376-396 | a byte that ends a token without being part of it is seen again after the reaction to that token, and is then consumed |
| `JsonStreamingParser.RunConcat` | infra/syntax/JsonStreamingParser.cpp:755-768 | running over two pieces one after the other equals running over their concatenation, in every state |
| `JsonStreamingParser.RunValid` | infra/syntax/JsonStreamingParser.cpp:376-540 | every input keeps the invariant of the nesting stack: only the top level can be inside a token, and a failed parser has no levels left |
| `JsonStreamingParser.StreamingParser.FeedLevel` | infra/syntax/JsonStreamingParser.cpp:376-540 | one Feed of the innermost sub-parser, with its loop, consumes a prefix of the data and has the effect of the one-byte steps over that prefix |
| `JsonStreamingParser.AgreeStep` | infra/syntax/JsonStreamingParser.cpp:89-264 | one token of a level, against the machine that has taken the bytes one at a time: the two agree again behind it, also when a byte that is not part of the token has ended it |
| `JsonStreamingParser.StreamingParser.Feed` | infra/syntax/JsonStreamingParser.cpp:755-776 | Feed of a chunk has exactly the effect of the one-byte steps over the chunk: levels, buffers and callbacks; JsonStreamingGrammar.ReadsExactlyGrammar says which inputs these steps accept and with which callbacks, and AnyText what happens to all others |
| `JsonStreamingParser.StreamingParser.FeedAll` | infra/syntax/JsonStreamingParser.cpp:755-776 | any sequence of Feed calls has the effect of one Feed of all the data joined |
| `JsonStreamingParser.ChunksDoNotMatter` | infra/syntax/JsonStreamingParser.cpp:755-776 | however an input is cut into Feed calls, and for every deterministic visitor, the callbacks and their arguments are the same as for one Feed |
| `JsonStreamingMeaning.SkipValue` | infra/syntax/JsonStreamingParser.cpp:498-521 | while a nested value is skipped, any well-formed value inside it is passed over with the bracket counter back where it was, whatever brackets occur in strings or in the other kind |
| `JsonStreamingMeaning.SkipExactly` | infra/syntax/JsonStreamingParser.cpp:419-470 | a skipped object or array is consumed exactly: skipping goes on until its own closing bracket, which leaves the level closed, the counter at zero and no callback made |
| `JsonStreamingMeaning.ValueRun` | infra/syntax/JsonStreamingParser.cpp:376-540 | at any level, every well-formed value (RFC 8259) does what Reading specifies: its callbacks, and the parser behind it, or the callbacks before the first part that the parser refuses and then a parse error to every level |
| `JsonStreamingMeaning.MembersRun` | infra/syntax/JsonStreamingParser.cpp:376-540 | so do the members of an object, in order, with the tags that fit the buffers |
| `JsonStreamingMeaning.ElementsRun` | infra/syntax/JsonStreamingParser.cpp:575-731 | so do the elements of an array, in order |
| `JsonStreamingMeaning.TextRun` | infra/syntax/JsonStreamingParser.cpp:755-776 | a well-formed text (RFC 8259) with an object or array at its root makes exactly the callbacks that its grammar calls for, and nothing behind it is looked at, exactly if TextAccepted holds: among the values that are entered, no bare exponent, no literal longer than the value buffer, no Unicode escape at an index where the buffer is full |
| `JsonStreamingMeaning.TextOutcomeRun` | infra/syntax/JsonStreamingParser.cpp:755-776 | the outcome of every such text: those callbacks, or the callbacks before the first part that is refused followed by a parse error to every open level |
| `JsonStreamingMeaning.AcceptedIsFine` | infra/syntax/JsonStreamingParser.cpp:376-540 | for every value, the condition holds exactly if reading the value ends without a parse error, and then the callbacks are those of the grammar |
| `JsonStreamingMeaning.AcceptanceAtInputs` | infra/syntax/JsonStreamingParser.cpp:89-264 | the condition at single texts: `[1e5]` is refused, `[1.5E3]` is not, `[null]` and `[false]` need a buffer of four and of five characters, and a Unicode escape is refused exactly where the buffer is full |
| `JsonStreamingMeaning.LexLiteralFails` | infra/syntax/JsonStreamingParser.cpp:129-144 | a literal that does not fit into the value buffer is an error token |
| `JsonStreamingMeaning.LexStringTextFails` | infra/syntax/JsonStreamingParser.cpp:224-258 | so is a string with a Unicode escape at an index where the value buffer is full, whatever precedes and follows it |
| `JsonStreamingMeaning.ReadText` | infra/syntax/JsonStreamingParser.cpp:755-776 | the parser object, fed any such text in any chunks, has made exactly the callbacks of that outcome |
| `JsonStreamingMeaning.BareExponentIsAParseError` | infra/syntax/JsonStreamingParser.cpp:93-130 | wherever a value is expected, a number with an exponent but no fraction is reported up to the letter and then as a parse error at every level |
| `JsonStreamingMeaning.SemanticErrorEnds` | infra/syntax/JsonStreamingParser.cpp:376-540 | a visitor that raises a semantic error in the callback of a scalar value ends the parser: each level below reports the error, the one that raised it does not |
| `JsonStreamingMeaning.ParseErrorsAre` | infra/syntax/JsonStreamingParser.cpp:376-396 | a parse error is reported once to every level, from the innermost to the outermost |
| `JsonStreamingGrammar.NumberBack` | infra/syntax/JsonStreamingParser.cpp:89-130 | a number token was lexed from an optional sign, digits, a fraction and the exponent bytes behind it, and has the value of sign and digits |
| `JsonStreamingGrammar.ValueBack` | infra/syntax/JsonStreamingParser.cpp:376-731 | conversely to ValueRun: where a value is expected and the run comes to its end without a parse error, the bytes are the text of a value of the grammar, its callbacks are made and the level is closed behind it |
| `JsonStreamingGrammar.MembersBack` | infra/syntax/JsonStreamingParser.cpp:376-540 | so are the members of an object: key, colon, value, separated by single commas, none missing and none behind the last member |
| `JsonStreamingGrammar.ElementsBack` | infra/syntax/JsonStreamingParser.cpp:575-731 | so are the elements of an array |
| `JsonStreamingGrammar.PiecesBack` | infra/syntax/JsonStreamingParser.cpp:498-521 | what is passed over by skipping is balanced in brackets of its own kind and otherwise any tokens |
| `JsonStreamingGrammar.TextBack` | infra/syntax/JsonStreamingParser.cpp:755-776 | whatever the parser reads to the end of its root without a parse error is white space, the text of an object or array of the grammar, and anything behind it |
| `JsonStreamingGrammar.ReadsExactlyGrammar` | infra/syntax/JsonStreamingParser.cpp:376-776 | for every input: the parser comes to the end of its root without a parse error if and only if the input is such a text, and then it has made the callbacks that the grammar calls for |
| `JsonStreamingGrammar.AnyText` | infra/syntax/JsonStreamingParser.cpp:376-776 | every input whatever is incomplete, or such a text, or has a parse error reported to every level that was open, after callbacks that are no errors |
| `JsonStreamingGrammar.MissingComma` | infra/syntax/JsonStreamingParser.cpp:575-731 | two values in an array without a comma between them, as in `[1 2]`: the first is visited, then the parse error is reported |
| `JsonStreamingGrammar.TrailingComma` | infra/syntax/JsonStreamingParser.cpp:575-731 | so is a comma without a value behind it, as in `[1,]` |
| `JsonStreamingGrammar.MissingColon` | infra/syntax/JsonStreamingParser.cpp:376-540 | and a key without a colon, as in an object with a key and a value only separated by white space |
| `JsonTokenizer.Tokenizer.FindClosing` | infra/syntax/Json.cpp:592-613 | the loop stops at the first quote that no backslash escapes, or at the end |
| `JsonTokenizer.Tokenizer.ToInt` | infra/syntax/Json.cpp:27-35 | the digit loop computes the denoted number modulo 2^64 or 2^32 |
| `JsonTokenizer.Tokenizer.TryCreateIntegerOrFloatToken` | infra/syntax/Json.cpp:615-637 | the number scanned from the text, its sign, and where the text goes on |
| `JsonTokenizer.Tokenizer.TryCreateFloatToken` | infra/syntax/Json.cpp:657-677 | the fraction in units of 10^-9, cut to nine digits, or an error for a second sign |
| `JsonTokenizer.Tokenizer.NextToken` | infra/syntax/Json.cpp:534-590 | the next token and the unread text are those of the specification Scan, for every text; a string's contents lie just before its closing quote |
| `JsonTokenizer.NanoBound` | infra/syntax/Json.cpp:657-677 | the fraction of any number fits below 10^9, so that 32 bits suffice |
| `JsonTokens.StringIterator.Current` | infra/syntax/Json.cpp:47-105 | the character an escape stands for, with Unicode escapes accumulated in eight bits |
| `JsonTokens.StringIterator.Advance` | infra/syntax/Json.cpp:107-128 | the iterator moves by exactly one escape or character |
| `JsonTokens.ToStdString` | infra/syntax/Json.cpp:272-280 | iterating over a string token yields its decoding |
| `JsonTokens.TokenComplete` | infra/syntax/Json.cpp:47-105 | no string token ends inside an escape, so that the assertion in the iterator never fails |
| `JsonTokens.DecodeItems` | infra/syntax/Json.cpp:47-128 | the raw text of any string, also one with escapes of unknown letters or short Unicode escapes, decodes to its contents |
| `JsonTokens.ScanItems` | infra/syntax/Json.cpp:592-613 | any string of the tokenizer's grammar is scanned as one token and the text goes on behind it |
| `JsonTokens.ScanNumberText` | infra/syntax/Json.cpp:615-677 | any number of the tokenizer's grammar, also one without digits, is scanned up to its exponent as one token of the denoted value, wrapped at 64 bits |
| `JsonTokens.ScanExponent` | infra/syntax/Json.cpp:534-590 | an exponent, with either letter, is scanned as an error |
| `JsonTokens.ScanLiteral` | infra/syntax/Json.cpp:639-655 | true, false and null are scanned as such when nothing continues them |
| `JsonSyntax.CharacterClasses` | infra/syntax/Json.cpp:566-590 | the character classes, character by character: white space is the four characters of RFC 8259, the vertical tab and the form feed |
| `JsonSyntax.HexDigits` | infra/syntax/Json.cpp:47-105 | a hexadecimal digit has the value of its place in `0123456789abcdef` or in the same with capitals, and nothing else is one |
| `JsonSyntax.ShortEscapes` | infra/syntax/Json.cpp:47-105 | the short escapes stand for the control characters of RFC 8259, and any other character for itself |
| `JsonSyntax.RfcIsOk` | infra/syntax/Json.cpp:534-590 | every value of RFC 8259, with that standard's own white space, numbers and escapes, is among the well-formed values of the lemmas about well-formed text |
| `JsonReader.SearchClosing` | infra/syntax/Json.cpp:953-990 | the loop with the wrapping counter finds what the specification SearchEnd finds, for every text |
| `JsonReader.Convert` | infra/syntax/Json.cpp:885-951 | a token is converted to the value, or to none, as specified; nested objects and arrays are views on their exact text |
| `JsonReader.JsonIterator.ParseNextToken` | infra/syntax/Json.cpp:1048-1144 | one step of the object or array state machine, with its errors, for every text; JsonGrammar.ReadsExactlyGrammar says which texts the steps read without an error and as what |
| `JsonReader.JsonIterator.Advance` | infra/syntax/Json.cpp:1038-1046 | incrementing an iterator yields the rest of the listing of the text, entry by entry, with its error flag |
| `JsonReader.ListTextIsList` | infra/syntax/Json.cpp:996-1002 | a new iterator lists its text from the opening bracket on |
| `JsonTree.CollectText` | infra/syntax/Json.cpp:1038-1258 | collecting an object or array recursively with iterators gives the tree specified by TextTree, or none if any iterator reports an error |
| `JsonTree.SearchValue` | infra/syntax/Json.cpp:953-990 | the bracket search passes over any value of the tokenizer's grammar with its counter unchanged, at any depth below 2^64 |
| `JsonTree.ValueFound` | infra/syntax/Json.cpp:885-951 | any well-formed value is found whole: scalars by value, objects and arrays as exactly their text |
| `JsonTree.ListMembers` | infra/syntax/Json.cpp:1048-1144 | iterating over the members of any well-formed object lists them in order without error |
| `JsonTree.ListElements` | infra/syntax/Json.cpp:1199-1258 | iterating over the elements of any well-formed array lists them in order without error |
| `JsonTree.IntegerIsExact` | infra/syntax/Json.cpp:925-931 | an integer is presented as 32 bits exactly if it fits, and otherwise keeps magnitude and sign; the wrapping product gives the signed value |
| `JsonTree.ReadsText` | infra/syntax/Json.cpp:885-1258 | every object or array of the tokenizer's grammar, nested to any depth below 2^64, is read as the tree it denotes, whatever white space precedes it and whatever follows |
| `JsonTree.ReadsExactly` | infra/syntax/Json.cpp:885-1258 | every well-formed object or array is read as the tree it denotes if it has no exponent anywhere, and otherwise an iterator reports an error |
| `JsonTree.ExponentIsNotRead` | infra/syntax/Json.cpp:885-1258 | the well-formed text `[1e5]` is not read |
| `JsonTree.SearchFails` | infra/syntax/Json.cpp:953-990 | the bracket search over a value with an exponent anywhere inside ends without a result, at any depth |
| `JsonTree.NestedNotFound` | infra/syntax/Json.cpp:885-951 | so a nested object or array with an exponent is not found |
| `JsonTree.ListMembersFails` | infra/syntax/Json.cpp:1048-1144 | and iterating over members one of which has an exponent ends with the error flag |
| `JsonTree.ListElementsFails` | infra/syntax/Json.cpp:1199-1258 | as does iterating over such elements |
| `JsonTree.DepthFits` | infra/syntax/Json.cpp:953-990 | nesting is never deeper than the text is long, so that the counter cannot wrap onto zero |
| `JsonGrammar.RawItems` | infra/syntax/Json.cpp:592-613 | whatever stands before a closing quote is a sequence of the tokenizer's string items |
| `JsonGrammar.NumberBack` | infra/syntax/Json.cpp:615-677 | a number token was scanned from a number of the tokenizer's grammar, with the same value |
| `JsonGrammar.ValueEnd` | infra/syntax/Json.cpp:953-990 | the bracket search finds the end of every object or array of that grammar, whatever follows it |
| `JsonGrammar.ValueBack` | infra/syntax/Json.cpp:885-951 | a value that is found, and read recursively without an error, is the text of a value of that grammar, and its tree is the one that this value denotes |
| `JsonGrammar.FieldsBack` | infra/syntax/Json.cpp:1048-1144 | entries listed without an error come from members separated by single commas, with a key, a colon and a value each, and the closing bracket behind them |
| `JsonGrammar.ItemsBack` | infra/syntax/Json.cpp:1199-1258 | so do the entries of an array from its elements |
| `JsonGrammar.TextBack` | infra/syntax/Json.cpp:885-1258 | whatever is read as a tree without an error is white space, the text of an object or array of that grammar denoting the tree, and anything behind it |
| `JsonGrammar.ReadsExactlyGrammar` | infra/syntax/Json.cpp:885-1258 | for every input: it is read as a tree if and only if it is such a text, and then as the tree that the text denotes |
| `JsonGrammar.CutIsNotRead` | infra/syntax/Json.cpp:1038-1258 | an object or array whose text is cut anywhere before its closing bracket, such as `[1`, is not read |
| `JsonGrammar.MissingComma` | infra/syntax/Json.cpp:1199-1258 | nor is an array with two values that no comma separates |
| `JsonGrammar.TrailingComma` | infra/syntax/Json.cpp:1199-1258 | nor one with a comma and no value behind it |
| `JsonGrammar.MissingColon` | infra/syntax/Json.cpp:1048-1144 | nor an object with a key that no colon follows |
| `TextStream.TextOutputStream.Insert` | infra/stream/StringOutputStream.cpp:19-27 | text is cut at the capacity, and the stream has failed exactly if what was inserted did not fit |
| `TextStream.CountDigits` | infra/stream/OutputStream.cpp:255-264 | the mask loop finds the number of digits without overflowing 64 bits |
| `TextStream.TextOutputStream.Output` | infra/stream/OutputStream.cpp:255-315 | decimal and hexadecimal output prints sign, padding and digits, for every number and width |
| `TextStream.WidthIs` | infra/stream/OutputStream.cpp:255-264 | the digits printed are enough for the number and not more: no leading zero |
| `TextStream.DigitCharIs` | infra/stream/OutputStream.cpp:299-315 | the digits are those of the table `0123456789abcdef` |
| `JsonFormatter.PaddedRead` | infra/stream/OutputStream.cpp:255-274 | the printed digits denote the number |
| `JsonFormatter.FloatRead` | infra/syntax/JsonFormatter.cpp:360-366 | a float printed with three or nine digits denotes the same number of nano units |
| `JsonEscape.NonEscapedSubString` | infra/syntax/EscapeCharacterHelper.cpp:5-20 | the run returned is the longest from its start that needs no escape |
| `JsonEscape.InsertEscaped` | infra/syntax/EscapeCharacterHelper.cpp:22-37 | the loop over runs prints the escaped form of every character in order |
| `JsonEscape.PrintedIsSafe` | infra/syntax/JsonFormatter.cpp:11-64 | what is printed for a string has no control character and none of the characters that HTML gives a meaning, and it is the string itself exactly if that has none of these and no quote |
| `JsonEscape.ReplaceEscapeCharacter` | infra/syntax/JsonFormatter.cpp:25-54 | a short escape, or four hexadecimal digits: the text of the item that stands for the character |
| `JsonEscape.EscapedDenotes` | infra/syntax/JsonFormatter.cpp:11-11 | the items printed, as labelled by the formatter, stand for the contents, and each label is one of the grammar exactly if the contents have no backslash; nothing about how the text is read |
| `JsonEscape.DecodesEscaped` | infra/syntax/JsonFormatter.cpp:25-64 | reading the printed form of any string without backslashes gives the string back, whether char is signed or not; ReadBackExactly has both directions |
| `JsonEscape.BackslashIsNotEscaped` | infra/syntax/JsonFormatter.cpp:11-11 | a backslash is printed as it is, so that backslash and `n` are read back as a newline |
| `JsonEscape.JsonEscapedStringSize` | infra/syntax/JsonFormatter.cpp:80-100 | the size is the exact length of the printed form |
| `JsonEscape.JsonSubStringOfMaxEscapedSize` | infra/syntax/JsonFormatter.cpp:102-129 | the longest prefix whose printed form fits: it fits and no longer one does |
| `JsonReadBack.ReadBackExactly` | infra/syntax/JsonFormatter.cpp:25-64 | the printed string, with anything behind it, is scanned as one string token that ends at its quote and decodes to the contents, exactly if the contents have no backslash |
| `JsonReadBack.KeyReadBackExactly` | infra/syntax/JsonFormatter.cpp:204-208 | a printed key is so exactly if it has neither quote nor backslash, since keys are printed as they are |
| `JsonReadBack.ReadsBack` | infra/syntax/JsonFormatter.cpp:25-64 | strings and keys without such characters end at their own quote and are read back |
| `JsonReadBack.NotReadBack` | infra/syntax/JsonFormatter.cpp:25-64 | those with such a character are read as something else even where they end too early, or too late in a text that has no backslash before its next quote |
| `JsonReadBack.NeverCatchesUp` | infra/syntax/JsonFormatter.cpp:25-64 | a reader that owes a character of the contents never catches up: what is read of the printed rest is never what is owed followed by the rest |
| `JsonReadBack.ReadBackslash` | infra/syntax/Json.cpp:47-128 | what a printed backslash makes of the characters behind it: at least two are read as one, or the backslash and then the inside of a replacement |
| `JsonFormatter.ObjectFormatter.InsertKey` | infra/syntax/JsonFormatter.cpp:204-208 | a separator before every member but the first, then the key |
| `JsonFormatter.ObjectFormatter.AddFloat` | infra/syntax/JsonFormatter.cpp:360-366 | sign, integer part and three or nine digits of fraction behind the key |
| `JsonFormatter.ObjectFormatter.AddString` | infra/syntax/JsonFormatter.cpp:318-340 | the escaped contents in quotes behind the key |
| `JsonFormatter.PrintFields` | infra/syntax/JsonFormatter.cpp:178-460 | adding the fields of a tree, with nested formatters and any strings, prints their text in order |
| `JsonFormatter.PrintItems` | infra/syntax/JsonFormatter.cpp:462-561 | adding the items of a tree, with nested formatters and any strings, prints their text in order |
| `JsonFormatter.LayoutText` | infra/syntax/JsonFormatter.cpp:178-561 | what the formatters print is a text of the JSON grammar |
| `JsonFormatter.LayoutMeans` | infra/syntax/JsonFormatter.cpp:178-561 | that text is well-formed, has no exponents and denotes the tree that was printed |
| `JsonFormatter.RoundTrip` | infra/syntax/JsonFormatter.cpp:178-561 | every printable object or array is read back by the iterators as the same tree without error; RoundTripExactly has both directions |
| `JsonRoundTrip.RoundTripExactly` | infra/syntax/JsonFormatter.cpp:178-561 | of all objects and arrays that the formatters can print, exactly those are read back as the same tree whose strings have no backslash, whose keys have neither backslash nor quote, and whose fractions are below one |
| `JsonRoundTrip.Splits` | infra/syntax/JsonFormatter.cpp:178-561 | what is printed for any other tree is a well-formed beginning, the first string or key that is not read back, and what is printed behind it |
| `JsonRoundTrip.AfterCalm` | infra/syntax/JsonFormatter.cpp:178-561 | behind that string no backslash is printed before the next quote |
| `JsonRoundTrip.SearchUpto` | infra/syntax/Json.cpp:953-990 | the bracket search passes over that beginning at any depth, so that every nested object or array that is found reaches beyond the string |
| `JsonRoundTrip.NotRead` | infra/syntax/Json.cpp:1048-1258 | a text with such a beginning, whatever follows the string and wherever the text is cut behind it, is read as another tree or with an error |
| `JsonRoundTrip.TextTreeSmall` | infra/syntax/Json.cpp:657-677 | whatever text the iterators read, its fractions are below one |
| `JsonRoundTrip.QuoteInKey` | infra/syntax/JsonFormatter.cpp:204-208 | an object whose key is a quote is printed and not read back |
| `JsonRoundTrip.PrintThenRead` | infra/syntax/JsonFormatter.cpp:178-561 | printing into a bounded string fails exactly if the text is too long, and otherwise reading it back gives the tree exactly if it is one of those |
| `JsonCleaner.CopyScanned` | infra/syntax/Json.cpp:1295-1375 | whatever is rendered for a token the tokenizer can produce is scanned as that token |
| `JsonCleaner.RenderScanned` | infra/syntax/Json.cpp:1377-1388 | scanning the rendered tokens gives them back if no number or literal is followed directly by another or by a dot |
| `JsonCleaner.TokenScan` | infra/syntax/Json.cpp:1335-1356 | a token prints no longer than it reads, given that a number has its digits |
| `JsonCleaner.CleanKeepsTokens` | infra/syntax/Json.cpp:1377-1388 | cleaning keeps the token sequence, and cleaning again changes nothing |
| `JsonCleaner.WellFormedCleans` | infra/syntax/Json.cpp:1377-1388 | every well-formed text without exponents, with any white space around and in it, fits and so is cleaned in place, has complete numbers, keeps its tokens and is cleaned idempotently |
| `JsonCleaner.OvertakesUnlessFits` | infra/syntax/Json.cpp:1377-1388 | the write index never passes the read index exactly if at every token the text printed so far is no longer than the text read so far |
| `JsonCleaner.FittingCleans` | infra/syntax/Json.cpp:1377-1388 | a text that fits is cleaned in place as into another buffer, and what is behind it is left alone |
| `JsonCleaner.CleansExactly` | infra/syntax/Json.cpp:1377-1388 | a text without errors whose words are separated is cleaned in place as into another buffer exactly if it fits, or outgrows what was read only with its last token, behind which there is nothing to read and enough room |
| `JsonCleaner.OvertakingSpoils` | infra/syntax/Json.cpp:1377-1388 | if anything is left to read when the write index passes the read index, the result is wrong |
| `JsonCleaner.WrittenStays` | infra/syntax/Json.cpp:1377-1388 | what is written is never touched again, for every text |
| `JsonCleaner.OvertakingAtTheEnd` | infra/syntax/Json.cpp:1377-1388 | `1.` does not fit, and is cleaned to `1.0` in a buffer of three characters but not of two |
| `JsonCleaner.CompleteFits` | infra/syntax/Json.cpp:1335-1388 | every text whose numbers are complete fits in this sense |
| `JsonCleaner.CleaningOvertakes` | infra/syntax/Json.cpp:1377-1388 | `[-,1]` does not: in place it becomes `[-01]`, although its tokens print as `[-0,1]` |
| `JsonCleaner.GrowingNumberMayFit` | infra/syntax/Json.cpp:1377-1388 | an incomplete number need not do harm: `[ 1.]` fits and `[1.]` does not |
| `JsonCleaner.CopyToken` | infra/syntax/Json.cpp:1295-1375 | copying a token forward within one buffer writes its text although source and destination may overlap |
| `JsonCleaner.CleanJsonContents` | infra/syntax/Json.cpp:1377-1388 | cleaning in the buffer that is still being read has, for every text, the effect of the specification with overlapping copies; for texts that fit this is the result of cleaning into another buffer and the rest of the buffer stays; of the texts without errors whose words are separated, no others are cleaned rightly but for those of CleansExactly |
| `InterruptQueue.SizeIsExact` | infra/event/QueueForOneReaderOneIrqWriter.hpp:155-168 | Size, Full and the room for a range are exact for every position and fill level of the ring |
| `InterruptQueue.RangeIsConsecutive` | infra/event/QueueForOneReaderOneIrqWriter.hpp:122-147 | adding a range stores to consecutive cells of the ring, whichever copy they belong to |
| `InterruptQueue.ContiguousRangeCovers` | infra/event/QueueForOneReaderOneIrqWriter.hpp:202-220 | a contiguous range lists the unread elements from an offset on, and at most two of them cover everything |
| `InterruptQueue.StoreKeepsUnread` | infra/event/QueueForOneReaderOneIrqWriter.hpp:99-147 | a store by the writer never changes an unread cell |
| `InterruptQueue.ConsumeKeepsInv` | infra/event/QueueForOneReaderOneIrqWriter.hpp:222-232 | Consume of any number of the elements read in place keeps the invariant between its two stores as well as after them |
| `InterruptQueue.StepKeepsInv` | infra/event/QueueForOneReaderOneIrqWriter.hpp:99-269 | every single load or store of the writer or the reader keeps the invariant |
| `InterruptQueue.RunKeepsInv` | infra/event/QueueForOneReaderOneIrqWriter.hpp:99-269 | so does every interleaving, and what was accepted or read is only ever appended to |
| `InterruptQueue.ReadIsPrefixOfAccepted` | infra/event/QueueForOneReaderOneIrqWriter.hpp:99-269 | in every interleaving the elements read are in order a prefix of those accepted, at most the capacity is unread, and data that nobody was notified of has exactly one notification pending; AcceptedIsOffered says what is accepted, GetReads and ConsumeReads that it can be read |
| `InterruptQueue.RoomIsExact` | infra/event/QueueForOneReaderOneIrqWriter.hpp:155-168 | the queue is full exactly if as many elements are unread as it can hold, and otherwise has room for the difference |
| `InterruptQueue.AddAccepts` | infra/event/QueueForOneReaderOneIrqWriter.hpp:93-113 | adding an element appends it to those accepted exactly if one more fits, and otherwise changes nothing |
| `InterruptQueue.AddRangeAccepts` | infra/event/QueueForOneReaderOneIrqWriter.hpp:115-147 | adding a range appends all of it exactly if all of it fits, and otherwise changes nothing |
| `InterruptQueue.AcceptedIsOffered` | infra/event/QueueForOneReaderOneIrqWriter.hpp:93-147 | in every interleaving what is accepted or on its way is, in order, everything that was offered while it fitted |
| `InterruptQueue.GetReads` | infra/event/QueueForOneReaderOneIrqWriter.hpp:170-182 | Get takes the oldest unread element of a queue that is not empty |
| `InterruptQueue.ConsumeReads` | infra/event/QueueForOneReaderOneIrqWriter.hpp:202-232 | any number of the unread elements can be read in place and any number of those consumed, in order |
| `InterruptQueue.ConsumeTakes` | infra/event/QueueForOneReaderOneIrqWriter.hpp:222-232 | Consume moves past exactly the elements consumed, also when it wraps |
| `InterruptQueue.NotificationIsScheduled` | infra/event/QueueForOneReaderOneIrqWriter.hpp:254-262 | the end of an addition leaves an event pending, unless all has been read in the meantime |
| `InterruptQueue.AnnouncesAll` | infra/event/QueueForOneReaderOneIrqWriter.hpp:264-269 | that event announces everything accepted so far, and the next addition schedules a new one |
| `EventDispatcher.ReserveKeepsInv` | infra/event/EventDispatcher.cpp:17-23 | a successful exchange reserves a slot that nobody else holds |
| `EventDispatcher.SetFlagKeepsInv` | infra/event/EventDispatcher.cpp:25-27 | setting the flag publishes the action of its own ticket; the assertion that the flag was clear holds |
| `EventDispatcher.ClearFlagKeepsInv` | infra/event/EventDispatcher.cpp:76-81 | clearing the flag before the pop index moves frees the slot for exactly one later ticket |
| `EventDispatcher.StepKeepsInv` | infra/event/EventDispatcher.cpp:15-118 | every step of every producer and of the consumer keeps the invariant unless all slots were taken |
| `EventDispatcher.RunKeepsInv` | infra/event/EventDispatcher.cpp:15-118 | so does every interleaving, with spurious failures of the exchange |
| `EventDispatcher.ExecutedInOrder` | infra/event/EventDispatcher.cpp:15-118 | unless a slot is reserved while all are taken, every action with a ticket runs exactly once, in the order of the successful exchanges, and no assertion fails; ScheduledIsExecuted says that these are all actions scheduled |
| `EventDispatcher.StepConserves` | infra/event/EventDispatcher.cpp:15-33 | at every step, what was given to the producers is what has a ticket and what is still being tried |
| `EventDispatcher.RunConserves` | infra/event/EventDispatcher.cpp:15-33 | so over every interleaving |
| `EventDispatcher.ScheduledIsExecuted` | infra/event/EventDispatcher.cpp:15-118 | in every interleaving each action given to a producer has a ticket or is still being tried, and once nothing is in progress and no slot was reserved while all were taken, the actions executed are exactly those given, each as often |
| `EventDispatcher.ExchangeReserves` | infra/event/EventDispatcher.cpp:17-23 | an exchange that sees the current index and does not fail spuriously adds exactly one ticket, for that producer's action; any other one goes on trying with the index seen |
| `EventDispatcher.TwoExchangesReserve` | infra/event/EventDispatcher.cpp:17-23 | so that two exchanges without interruption reserve, whatever was seen before |
| `EventDispatcher.ProducerFinishes` | infra/event/EventDispatcher.cpp:25-27 | a producer that holds a slot fills it without failing the assertion, whatever the others are doing |
| `EventDispatcher.ConsumerExecutes` | infra/event/EventDispatcher.cpp:63-91 | a waiting consumer runs the oldest action once it is filled, and frees its slot |
| `EventDispatcher.ConsumerDrains` | infra/event/EventDispatcher.cpp:44-48 | once no producer holds a slot, the consumer alone runs everything that is left |
| `EventDispatcher.OverflowIsReal` | infra/event/EventDispatcher.cpp:15-33 | overflow is recorded only when an exchange succeeds while every slot is taken |
| `EventDispatcher.FewNeverOverflow` | infra/event/EventDispatcher.cpp:15-33 | which never happens while at most as many actions are given as there are slots |
| `TickTimer.StepKeepsInv` | infra/timer/TickOnInterruptTimerService.cpp:38-83 | every load and store of the interrupt and of the processing keeps the invariant: one claim on the flag, all ticks accounted for |
| `TickTimer.TimeIsTicks` | infra/timer/TickOnInterruptTimerService.cpp:22-83 | in every interleaving at most one processing event is pending, and the time is the start plus all ticks ever: none is lost or counted twice |
| `TickTimer.TickSchedules` | infra/timer/TickOnInterruptTimerService.cpp:45-53 | a tick at any moment is counted and handled to its end; outside ProcessTicks it leaves exactly one event pending if the threshold is reached, and in all other cases changes nothing about events |
| `TickTimer.ProcessingDecides` | infra/timer/TickOnInterruptTimerService.cpp:67-83 | an uninterrupted ProcessTicks takes all ticks and reschedules itself exactly if the threshold is already reached |
| `TickTimer.ThresholdIsNeverLate` | infra/timer/TickOnInterruptTimerService.cpp:55-65 | before the threshold the next trigger time is not reached |
| `TickTimer.ThresholdIsExact` | infra/timer/TickOnInterruptTimerService.cpp:55-65 | at the threshold it is, for triggers within the 32-bit cap |
| `TickTimer.EveryTickCounts` | infra/timer/TickOnInterruptTimerService.cpp:45-53 | every tick of a run is counted, whatever the processing is doing |
| `TickTimer.WrapIsReal` | infra/timer/TickOnInterruptTimerService.cpp:45-53 | the overflow of the counter is recorded only at a tick on its largest value |
| `TickTimer.TickAnnounces` | infra/timer/TickOnInterruptTimerService.cpp:45-65 | after a tick outside ProcessTicks an event is pending if the time of the next trigger has come, and nothing changes about events otherwise |
| `TickTimer.ProcessingAnnounces` | infra/timer/TickOnInterruptTimerService.cpp:55-83 | ProcessTicks loses no time, and leaves an event pending exactly if the trigger set by the timers that ran in it has come already |
| `TimerService.RepetitionKeepsPhase` | infra/timer/Timer.cpp:160-166 | a repetition is the first multiple of the period behind both the trigger and now, counted from the trigger |
| `TimerService.RenewedIsUnique` | infra/timer/Timer.cpp:140-166 | there is only one such time, so that Renewed determines the timer |
| `TimerService.RanAllRenews` | infra/timer/TimerService.cpp:57-97 | after a whole Progressed each timer that was due is renewed, and the others are as they were |
| `TimerService.TurnRenews` | infra/timer/TimerService.cpp:57-97 | a turn renews the timer that runs unless its action commands it, and leaves alone all others that the action does not command |
| `TimerService.RenewedAtTwenty` | infra/timer/Timer.cpp:160-166 | a timer of period 10 that was due at 10 and runs at 13 is armed for 20 |
| `TimerService.MinimumAfterInsert` | infra/timer/TimerService.cpp:29-38 | the cached minimum after a registration |
| `TimerService.MinimumAfterRemove` | infra/timer/TimerService.cpp:40-49 | the cached minimum stays right when another timer than the earliest is removed |
| `TimerService.MinimumAfterChange` | infra/timer/TimerService.cpp:51-55 | the cached minimum stays right when a later timer moves to a time that is not earlier |
| `TimerService.Service.ComputeNextTrigger` | infra/timer/TimerService.cpp:128-144 | the loop computes the minimum over the armed timers, or records that an update is needed |
| `TimerService.Service.SetNextTriggerTime` | infra/timer/Timer.cpp:85-98 | arming keeps the cached minimum right or marked, also from inside an action |
| `TimerService.Service.Cancel` | infra/timer/Timer.cpp:26-33 | so does cancelling |
| `TimerService.Service.FindEarliest` | infra/timer/TimerService.cpp:66-84 | the inner loop finds the first timer in the list among the due ones with the least trigger time, and reports exactly whether another one is due |
| `TimerService.Service.ComputeNextTriggerTime` | infra/timer/Timer.cpp:140-166 | a single shot is disarmed; a repeating timer keeps its action and is armed for the one time that is a whole number of periods after its trigger, behind both the trigger and now, and not more than a period behind the later of them (Renewed, RenewedIsUnique) |
| `TimerService.Service.Progressed` | infra/timer/TimerService.cpp:57-97 | with actions that arm and cancel any timers, each timer that runs is a least due one at its turn, is rearmed and then has its commands obeyed; when the call ends the minimum is right, and exactly those timers are due which the last turn armed at or before the time |
| `TimerService.Service.Turn` | infra/timer/TimerService.cpp:60-92 | one turn runs a least due timer if there is one, and asks for another turn exactly if another timer was due |
| `TimerService.Service.Execute` | infra/timer/Timer.cpp:26-98 | an action's commands have the effect of AfterCommands on the timers and keep the cached minimum right or marked |
| `TimerService.LastCommandDecides` | infra/timer/Timer.cpp:26-98 | of the commands for a timer only the last one counts |
| `TimerService.DueAfterTurn` | infra/timer/TimerService.cpp:57-97 | what a turn arms at or before the time is due after it, and nothing else is if no other timer was due before it |
| `TimerService.NothingArmedDue` | infra/timer/TimerService.cpp:57-97 | at or after the reported time, a turn leaves nothing due exactly if every command that arms a timer at or before that time is followed by another for the same timer |
| `TimerService.EndsWithTimerDue` | infra/timer/TimerService.cpp:57-97 | a call that ends with a timer due: the only due timer, when it runs, arms another one in the past |
| `TimerService.Service.ProgressedAlone` | infra/timer/TimerService.cpp:57-97 | with actions that leave timers alone, exactly the due timers run, once each, in nondecreasing trigger time, and each is renewed in its phase; the loop ends, and nothing due is left armed |
| `TimerService.Service.Jumped` | infra/timer/TimerService.cpp:99-109 | a jump moves every armed timer by the difference and leaves the minimum right |
| `PartitionedTime.YearOfEraIsRight` | infra/timer/PartitionedTime.cpp:25-29 | the closed form finds the year whose days contain the day, for every day of an era of 400 years |
| `PartitionedTime.MonthIsRight` | infra/timer/PartitionedTime.cpp:30-31 | the closed form finds the month whose days contain the day |
| `PartitionedTime.DateOfIsTheCalendar` | infra/timer/PartitionedTime.cpp:23-36 | for every day before or after 1970 the date is valid under the Gregorian leap rule, and the next day is its calendar successor |
| `PartitionedTime.EpochDate` | infra/timer/PartitionedTime.cpp:23-36 | day zero is 1 January 1970 |
| `PartitionedTime.FieldsInRange` | infra/timer/PartitionedTime.cpp:9-37 | hours, minutes and seconds are in range and add up to the time of day; day, month and year are those of the date |
| `PartitionedTime.DateUnique` | infra/timer/PartitionedTime.cpp:48-60 | two valid dates with the same day number are equal |
| `PartitionedTime.RoundTrip` | infra/timer/PartitionedTime.cpp:9-60 | ToTimeT inverts the constructor exactly if the year that begins in March fits 16 bits |
| `PartitionedTime.RoundTripRange` | infra/timer/PartitionedTime.cpp:9-60 | that is, exactly from 1 March -32768 to before 1 March 32768 |
| `PartitionedTime.RoundTripBack` | infra/timer/PartitionedTime.cpp:9-60 | the constructor inverts ToTimeT on all valid fields |
| `PartitionedTime.WeekDayAdvances` | infra/timer/PartitionedTime.cpp:67-72 | the day of the week is the day number plus four modulo seven, before and after 1970, so that it advances by one each day |
| `BoundedPriorityQueue.HoleUp` | infra/util/BoundedPriorityQueue.hpp:90-94 | moving the parent into the hole keeps the heap order around the hole |
| `BoundedPriorityQueue.HoleDown` | infra/util/BoundedPriorityQueue.hpp:95-112 | moving the greater child into the hole keeps the heap order around the hole |
| `BoundedPriorityQueue.TravelUp` | infra/util/BoundedPriorityQueue.hpp:90-94 | a hole that has moved down never moves up |
| `BoundedPriorityQueue.TravelDown` | infra/util/BoundedPriorityQueue.hpp:95-112 | a hole that has moved up never moves down |
| `BoundedPriorityQueue.MoveHole` | infra/util/BoundedPriorityQueue.hpp:83-118 | one turn of the loop moves the hole strictly up or strictly down, or ends with the heap restored |
| `BoundedPriorityQueue.EraseHeap` | infra/util/BoundedPriorityQueue.hpp:77-120 | erasing at any position under any strict weak order terminates, restores the heap on the remaining prefix and removes exactly that element from the multiset |
| `BoundedPriorityQueue.TopIsGreatest` | infra/util/BoundedPriorityQueue.hpp:77-120 | no element of a heap is greater than its first |
| `BoundedPriorityQueue.PriorityQueue.Erase` | infra/util/BoundedPriorityQueue.hpp:301-306 | the queue loses exactly the erased element and its top is greatest |
| `ClaimableResource.InsertThenErase` | infra/event/ClaimableResource.cpp:49-61 | inserting the new claimer before the old one and erasing the old one replaces it at its place |
| `ClaimableResource.Resource.ReEvaluateClaim` | infra/event/ClaimableResource.cpp:18-28 | a free resource is granted to the first pending claimer, and to nobody else |
| `ClaimableResource.Resource.AddClaim` | infra/event/ClaimableResource.cpp:30-36 | a claim is queued at the end, an urgent one at the front |
| `ClaimableResource.Resource.ReleaseClaim` | infra/event/ClaimableResource.hpp:119-126 | releasing frees the resource or removes the claim from the queue, and schedules what is needed |
| `ClaimableResource.Resource.ReplaceClaim` | infra/event/ClaimableResource.cpp:49-61 | the loop replaces one claimer by another wherever it is |
| `ClaimableResource.Resource.MoveConstructClaimer` | infra/event/ClaimableResource.cpp:92-102 | a moved claimer hands its grant or its place in the queue to the new one |
| `ClaimableResource.Resource.MoveAssignClaimer` | infra/event/ClaimableResource.cpp:104-119 | so does move assignment, after releasing what the target held and leaving its place in the queue |
| `ClaimableResource.Resource.DestroyClaimer` | infra/event/ClaimableResource.cpp:121-124 | a destroyed claimer holds nothing and is not queued |
| `ClaimableResource.Resource.Run` | infra/event/ClaimableResource.cpp:18-152 | in every run at most one claimer is granted, a claimer is queued exactly if it is listed, and then once, and a free resource with pending claims has exactly one re-evaluation scheduled |
| `ByteOutputStream.Writer.Insert` | infra/stream/ByteOutputStream.cpp:30-36 | bytes are appended as far as there is room, and failure is recorded exactly if some did not fit |
| `ByteOutputStream.Writer.SaveState` | infra/stream/ByteOutputStream.cpp:53-60 | the bytes behind the marker are at the end of the range, although the copies overlap |
| `ByteOutputStream.Writer.RestoreState` | infra/stream/ByteOutputStream.cpp:62-66 | the saved bytes follow what was inserted, although the copies overlap |
| `ProtoBuf.MaxVarIntSize` | infra/syntax/ProtoFormatter.cpp:6-17 | the number of bytes a varint takes |
| `ProtoBuf.PutVarInt` | infra/syntax/ProtoFormatter.cpp:48-59 | the loop writes the base-128 groups, least significant first, and the stream fails exactly if they do not fit |
| `ProtoBuf.PrefixInserted` | infra/stream/SavedMarkerStream.cpp:5-23 | saving, writing and restoring inserts what was written between what was there before the marker and what was behind it |
| `ProtoBuf.InsertLength` | infra/syntax/ProtoFormatter.cpp:33-42 | the late length prefix leaves the bytes before the marker, then the prefix, then the bytes behind it; without room for the prefix the program stops |
| `ProtoBuf.WriteField` | infra/syntax/ProtoFormatter.cpp:90-142 | every kind of field is written as key and value, nested messages with their length, exactly if there is room |
| `ProtoBuf.WriteMessage` | infra/syntax/ProtoFormatter.cpp:19-42 | a nested message of any depth is written with a prefix that is its length, exactly if there is room |
| `ProtoBuf.WriteFields` | infra/syntax/ProtoFormatter.cpp:90-142 | the fields of a message follow each other, exactly if there is room |
| `ProtoParser.ReadNumber` | infra/syntax/ProtoParser.cpp:89-109 | reading a written varint gives the number back, for all 64-bit values |
| `ProtoParser.OverlongIsAccepted` | infra/syntax/ProtoParser.cpp:89-109 | reading a number fails exactly on fewer than ten bytes that all announce another one; an accepted number ended on a byte that announces no other exactly if one of the first ten is such, and otherwise took ten bytes |
| `ProtoParser.VarIntFromEnds` | infra/syntax/ProtoParser.cpp:89-109 | the same from any turn of the loop on |
| `ProtoParser.FieldRoundTrip` | infra/syntax/ProtoParser.cpp:125-165 | reading a written field gives it back and leaves what follows |
| `ProtoParser.RoundTrip` | infra/syntax/ProtoParser.cpp:89-165 | any list of varint, fixed and arbitrarily nested length-delimited fields is parsed back identically |
| `ProtoParser.Reader.Extract` | infra/stream/LimitedInputStream.cpp:20-26 | extraction through any number of nested limits succeeds exactly if all of them allow it, and all count down together |
| `ProtoParser.Reader.GetVarInt` | infra/syntax/ProtoParser.cpp:89-109 | the loop reads what the specification reads, with 64-bit wrap-around |
| `ProtoParser.Reader.ReadField` | infra/syntax/ProtoParser.cpp:125-165 | one field, or failure, as specified |
| `ProtoParser.Reader.ReadFields` | infra/syntax/ProtoParser.cpp:84-165 | all fields of a message, or failure, as specified |
| `ProtoParser.WriteThenRead` | infra/syntax/ProtoFormatter.cpp:90-142 | writing fields into a byte range succeeds exactly if they fit, and reading them then gives the same fields |
| `ProtoWire.ReadsNumber` | infra/syntax/ProtoParser.cpp:89-109 | a number is read if and only if the bytes begin with groups of seven bits, all but the last marked and at most ten of them, and it is their number in 64 bits |
| `ProtoWire.FieldBack` | infra/syntax/ProtoParser.cpp:125-165 | a field that is read was a field on the wire: a key of wire type 0, 1, 2 or 5 and the value, data or length and data that belong to it |
| `ProtoWire.ReadsExactlyWire` | infra/syntax/ProtoParser.cpp:84-165 | any bytes are read as a list of fields if and only if they are the bytes of fields on the wire that denote them; so reading fails exactly at an unknown wire type, a length beyond the end, a number that does not end, or data that is missing |
| `ProtoWire.NotRead` | infra/syntax/ProtoParser.cpp:84-165 | a key of wire type 3, a length of five before two bytes, and a number without its end are not read |
| `Base64.DecodesLetter` | infra/util/Base64.cpp:8-14 | looking up a letter of the alphabet gives its value |
| `Base64.LetterIsAlphabet` | infra/util/Base64.cpp:8-8 | the letters are those of the alphabet of section 4 of RFC 4648, in order, and the padding character is none of them |
| `Base64.GroupIsNumber` | infra/stream/OutputStream.cpp:418-438 | the four letters of a group are the digits of its three bytes taken as one number of 24 bits |
| `Base64.WriteByte` | infra/stream/OutputStream.cpp:418-438 | one more byte extends the groups written so far and the bits kept, at each of the three positions |
| `Base64.Finish` | infra/stream/OutputStream.cpp:399-416 | the destructor completes the last group with padding |
| `Base64.Base64Encoder.Encode` | infra/stream/OutputStream.cpp:418-438 | after any pieces the fields are those of having encoded the concatenation |
| `Base64.Base64Encoder.Close` | infra/stream/OutputStream.cpp:399-416 | then the text is the Base64 form of all bytes |
| `Base64.EncodePieces` | infra/stream/OutputStream.cpp:461-469 | encoding byte ranges one after the other gives the Base64 form of their concatenation |
| `Base64.FromBase64` | infra/stream/InputStream.cpp:476-520 | the two loops fill the range, consume the text and report errors as specified, for every text; DecodesExactly says which texts are decoded, and to what |
| `Base64.DecodesEncoded` | infra/stream/InputStream.cpp:476-520 | decoding the Base64 form of any bytes into a range of their size gives them back, reports no error and consumes exactly that text |
| `Base64.DecodesExactly` | infra/stream/InputStream.cpp:476-520 | for every text: decoding a number of bytes succeeds if and only if the text is the groups of letters of so many bytes, with padding that may only be missing at the very end, and any bits behind the last byte of an incomplete group; and then it yields those bytes |
| `Base64.DecodedIsCoded` | infra/stream/InputStream.cpp:476-520 | what is decoded without an error, from any contents of the word on, is such a text |
| `Base64.CodedDecodes` | infra/stream/InputStream.cpp:476-520 | and every such text is decoded |
| `Base64.EncodeThenDecode` | infra/stream/InputStream.cpp:476-520 | encoding any pieces and decoding gives their concatenation |
| `Base64.Base64DecodedSize` | infra/stream/InputStream.cpp:534-544 | three quarters of the length, less the padding, modulo 2^64, for every text and whatever lies in front of it |
| `Base64.SizeOfEncoded` | infra/stream/InputStream.cpp:534-544 | for an encoded text that is the number of its bytes |
| `BoundedDeque.Deque.PushFront` | infra/util/BoundedDeque.hpp:521-528 | a value before all others |
| `BoundedDeque.Deque.PopFront` | infra/util/BoundedDeque.hpp:539-546 | the first value is gone |
| `BoundedDeque.Deque.PushBack` | infra/util/BoundedDeque.hpp:548-554 | a value behind all others |
| `BoundedDeque.Deque.PopBack` | infra/util/BoundedDeque.hpp:564-570 | the last value is gone |
| `BoundedDeque.Deque.MoveUp` | infra/util/BoundedDeque.hpp:790-803 | the loop that starts at the last element moves a tail up by n cells without overwriting what is still to be moved |
| `BoundedDeque.Deque.InsertRange` | infra/util/BoundedDeque.hpp:604-630 | a range is inserted at any position, by moving the start or by moving the tail |
| `BoundedDeque.Deque.Erase` | infra/util/BoundedDeque.hpp:650-672 | a range is erased at any position, by moving the start or by moving the tail down |
| `BoundedDeque.Deque.ContiguousRange` | infra/util/BoundedDeque.hpp:402-424 | a contiguous range lists elements from a position on |
| `BoundedDeque.TwoRangesCover` | infra/util/BoundedDeque.hpp:402-424 | two contiguous ranges cover everything from any position on |
| `BoundedDeque.Run` | infra/util/BoundedDeque.hpp:521-672 | every sequence of operations acts as on a plain sequence |
| `BufferingStreams.BufferingStreamWriter.LoadRemainder` | infra/stream/BufferingStreamWriter.cpp:53-64 | buffered bytes move to the output in order, until it is full or the buffer empty |
| `BufferingStreams.BufferingStreamWriter.Insert` | infra/stream/BufferingStreamWriter.cpp:12-21 | as much as the output takes goes there, the rest behind the buffer; output followed by buffer grows by exactly what is inserted if and only if the part that went out commutes with what was buffered |
| `BufferingStreams.KeptIfCommuting` | infra/stream/BufferingStreamWriter.cpp:12-21 | putting a part before the buffered bytes keeps the order exactly if the two commute |
| `BufferingStreams.GuardKeepsOrder` | infra/stream/BufferingStreamWriter.cpp:12-21 | they do if the buffer is empty, the output has no room or nothing is inserted |
| `BufferingStreams.UnguardedReorders` | infra/stream/BufferingStreamWriter.cpp:12-21 | otherwise any byte other than the first buffered one is written too early |
| `BufferingStreams.ReorderedInput` | infra/stream/BufferingStreamWriter.cpp:12-21 | one byte of room and a buffered 1: inserting 2 gives 2, 1 |
| `BufferingStreams.WriteRun` | infra/stream/BufferingStreamWriter.cpp:5-21 | over a whole run in which the room of the output changes at any time, nothing is lost or repeated, and nothing is reordered while every insertion was guarded |
| `BufferingStreams.WriteStepsKeep` | infra/stream/BufferingStreamWriter.cpp:5-64 | the same for the steps on values: the multiset of bytes is conserved always, the order under the guard |
| `BufferingStreams.AcceptsAll` | infra/stream/BufferingStreamWriter.cpp:11-28 | however the room changes, no write is refused while the buffer could hold everything |
| `BufferingStreams.SteadyIsGuarded` | infra/stream/BufferingStreamWriter.cpp:5-28 | while the room does not change, something is buffered only when the output is full, so that every write is guarded |
| `BufferingStreams.SteadyWrites` | infra/stream/BufferingStreamWriter.cpp:5-64 | so writes into an output of a given size all end up in order, in the output as far as it has room and otherwise in the buffer |
| `BufferingStreams.BufferingStreamReader.Extract` | infra/stream/BufferingStreamReader.cpp:15-28 | the next bytes of buffer and input, as many as there are, with failure exactly if there are too few |
| `BufferingStreams.BufferingStreamReader.ExtractContiguousRange` | infra/stream/BufferingStreamReader.cpp:42-55 | a prefix of what is unread, not empty unless nothing is left or asked for |
| `BufferingStreams.BufferingStreamReader.Rewind` | infra/stream/BufferingStreamReader.cpp:80-94 | the read position is the marker again, across the border between buffer and input |
| `BufferingStreams.BufferingStreamReader.StoreRemainder` | infra/stream/BufferingStreamReader.cpp:104-113 | the buffer holds exactly what was not read |
| `BufferingStreams.ReadRun` | infra/stream/BufferingStreamReader.cpp:10-113 | after any reads and rewinds every read returned the bytes at its position, and the buffer holds exactly what was not read |
| `BoundedList.SpliceIn` | infra/util/BoundedList.hpp:471-500 | linking a new node between two others keeps forward and backward links in agreement and inserts its value |
| `BoundedList.SpliceOut` | infra/util/BoundedList.hpp:570-591 | unlinking a node keeps the links in agreement and removes its value |
| `BoundedList.List.AllocateNode` | infra/util/BoundedList.hpp:743-760 | a node that is neither live nor free any more, while live and free nodes and this one are the initialized ones |
| `BoundedList.OnlyFullFails` | infra/util/BoundedList.hpp:743-760 | there is no node to allocate exactly if the list is full |
| `BoundedList.List.PushFront` | infra/util/BoundedList.hpp:356-373 | a value before all others |
| `BoundedList.List.PushBack` | infra/util/BoundedList.hpp:413-430 | a value behind all others |
| `BoundedList.List.PopFront` | infra/util/BoundedList.hpp:394-411 | the first value is gone and its node free |
| `BoundedList.List.PopBack` | infra/util/BoundedList.hpp:451-468 | the last value is gone and its node free |
| `BoundedList.List.Insert` | infra/util/BoundedList.hpp:470-500 | a value before any node, or at the end |
| `BoundedList.List.Erase` | infra/util/BoundedList.hpp:569-591 | any value is gone and its node free |
| `BoundedList.List.EraseAllAfter` | infra/util/BoundedList.hpp:593-610 | everything behind a node is gone and all of its nodes free |
| `BoundedList.Run` | infra/util/BoundedList.hpp:356-610 | every sequence of operations acts as on a plain sequence, with links that agree and no node lost |

## Left out

- JsonStreamingParser.ChunksDoNotMatter: visitors that destroy the parser during a callback are not modelled, and streamed numbers do not overflow.
- JsonStreamingMeaning.TextRun: of visitors that raise semantic errors only SemanticErrorEnds and ChunksDoNotMatter speak, and nesting of 2^32 levels or more, where the skip counter wraps, is excluded.
- JsonStreamingGrammar.ReadsExactlyGrammar: assumes a visitor that raises no semantic errors.
- JsonGrammar.ReadsExactlyGrammar: texts of 2^64 characters or more, where the bracket counter could wrap, are excluded.
- JsonReader.JsonIterator.Advance: objects and arrays share one iterator class, which covers the two classes of the source; lookups by key, comparison of objects and arrays, and merging are not modelled, since they only iterate.
- JsonFormatter.RoundTrip: goes one way; RoundTripExactly has both. Null, floats in arrays and the minimum of a 64-bit integer passed as int64_t are outside of what the formatters can print; texts longer than 2^64 characters are excluded.
- JsonEscape.DecodesEscaped: goes one way; the condition in both directions is ReadBackExactly.
- JsonEscape.EscapedDenotes: is about the items that are printed and not about how their text is read, which is the subject of ReadBackExactly.
- JsonCleaner.CleanJsonContents: running out of room ends the program in the source and is a failure result here.
- JsonCleaner.CleansExactly: texts in which the tokenizer meets an error, or in which a word follows a word or a dot follows a word, may come out right by accident when writing overtakes reading, and are not characterized.
- JsonCleaner.CleanKeepsTokens: goes one way; token sequences that are not separated, such as two numbers in a row, never occur in a well-formed text.
- Float output of TextOutputStream and of floating-point text conversion.
- InterruptQueue.ReadIsPrefixOfAccepted: memory ordering weaker than sequential consistency, and the stream reader on top of the queue, are not modelled.
- EventDispatcher.ExecutedInOrder: the minimum-capacity statistic, idling and exceptions in actions are not modelled; runs in which more actions are reserved than there are slots are recorded as overflow (OverflowIsReal).
- TickTimer.TimeIsTicks: the resolution is fixed, and a tick counter that overflows 32 bits between two processings is only recorded.
- TimerService.Service.Progressed: with actions that keep arming due timers the loop of the source need not end; it is followed for any given number of turns.
- TimerService.Service.ProgressedAlone: service registration, unaligned storage of time points and saturation near the maximal time are not modelled.
- BoundedPriorityQueue.EraseHeap: pushing and popping use the heap functions of the C++ standard library, which are not modelled.
- ClaimableResource.Resource.Run: a callback that claims or releases while it is being granted is a later operation of the run.
- ByteOutputStream.Writer.SaveState: Overwrite and Reset of the stream writer are not modelled.
- ProtoBuf.WriteField: signed (zigzag) varints are not modelled; of fields that do not fit only the failure is stated, not which of their bytes were written.
- ProtoParser.Reader.ReadFields: skipping everything of a delimited field, and reading strings or bytes into bounded buffers, are not modelled; which fields are messages comes from a schema, as in generated code.
- Base64.Base64DecodedSize: for a text of padding only the source reads one character in front of the text; the model takes that character as an input.
- BufferingStreams.BufferingStreamReader.Extract: the input is one contiguous range; PeekContiguousRange adds the consumed offset twice and is not modelled.
- BoundedList.List.Insert: an iterator is the node it points at; the order of the writes to neighbouring nodes follows one helper for all insertions.
- BoundedList::swap, BoundedDeque::swap, forward lists, vectors, strings and other containers: they would only add easier members.
- The object lifetime of container elements other than list nodes, weak pointers, and stream error policies beyond a failed flag.
- The hardware abstraction layer, operating system layer, ASN.1, XML and code generation parts of the repository.
