# A model of the `Json.hpp` reader and writer

`Json.hpp` is a single-header C++ JSON library. `FileReader::parse` runs
`Lexer::load` over the whole text, using a `ParsingContext` cursor that
tracks position, row and column. Then `readValue` builds a tree of
`Value` nodes from the token array: `Object`, `Array`, `String`,
`Number`, `Boolean` and `Null`, held through `shared_ptr`. Every node
writes itself back as text with `toString`.

This project models those pieces in Dafny as pure functions over immutable
data:

| module | what it models |
|---|---|
| `ParsingContext` | The cursor: `peek`, `next(movement)`, `nextRow`, row and column. |
| `Lexer` | The token kinds. The `load` do-while (`TokenLoop`, one body pass is `Scan`). The helpers `readString`, `readExpect`, `isNumberic` and `readNumber`. |
| `Hex` | The pieces of `stoi(s, 0, 16)` and `setw(4) << hex` the lexer and writer use. |
| `Utf8` | The pieces of `wstring_convert` the lexer and writer use. |
| `Values` | The node hierarchy with `insert`, `get`, `count`, `operator[]` and `push_back`. |
| `Parser` | `Lexer::peek`/`next` over the token array, `readValue` with its `readObject` and `readArray` loops, and `parse`. |
| `Serializer` | Every `toString`. |
| `LexerProperties`, `ParserProperties`, `Quirks` | What the pieces do together. |

The model follows the code as written, including its leniencies:

- A token that starts no value reads as the null pointer. So `[]` holds one null element.
- An array stops after an element that is itself an array.
- Missing commas, colons and closing brackets go unnoticed.
- `readExpect` and `readNumber` step back with `next(-1)`. That step fails when the byte after the keyword or number is the last byte of the buffer, and that byte is then never read.
- The numeric class has `e` but not `E`.
- A keyword is compared only as far as the buffer reaches.
- The writer drops `"`, `\` and `/`, and writes a line feed as a form feed.

Standard JSON (RFC 8259) differs from this code in several ways. The model follows the code:

- Structure: RFC 8259 rejects text with a missing comma, colon or closing bracket. The code accepts such text, and so does the model.
- Numbers: the grammar in section 6 of RFC 8259 allows `E` as the exponent letter. The code's numeric class leaves it out (`LexerProperties.NumericBytes`).
- Keywords: RFC 8259 requires the whole of `true`, `false` or `null`. The code compares only the bytes that fit in the buffer.
- Escapes on output: section 7 of RFC 8259 requires `"` and `\` to be escaped. The writer drops them, and it turns a line feed into a form feed.

Typed access is outside RFC 8259. The code's `get<T>` casts without checking (`ConvertJson`). `Values.GetAs` models the lookup and reports the node's kind. What the unchecked cast yields on a mismatch is not modelled.

The main results:

- **Writer and reader agree on token sequences.** `Serializer.ToString` spells exactly the tokens `Serializer.Tokens` lists. `ParserProperties.ParseTokensRoundTrip` shows that `readValue` on those tokens rebuilds the tree, for every `Readable` tree: a tree without null pointers, with distinct keys in each object, without an empty array and without an array directly inside another array.
- **String text reads back.** For ASCII text without `"`, `\`, `/` and the line feed, `load` reads the written text of a String back to the same bytes (`LexerProperties.LoadStringText`). ASCII text with one of those bytes comes back changed (`Quirks.WriterDropsEscapes`), and so can code points above U+FFFF where `wchar_t` is 32 bits (`Quirks.AstralEscapeMisread`).
- **Quirk lemmas.** Each quirk listed above is pinned down by a lemma.

## Model

| member | source | states |
|---|---|---|
| ParsingContext.Start | Json.hpp:69-76 | A new cursor stands on byte 0, at row 0 and column 0, over the given text. |
| ParsingContext.Next | Json.hpp:79-89 | The cursor moves exactly when it is not on the last byte of the buffer. A move shifts position and column by the same amount. Otherwise the context is unchanged. The row never changes, and a step of at most one keeps the cursor inside the buffer. |
| ParsingContext.PeekNext | Json.hpp:78-89 | `peek` after `next()` sees the following byte when the cursor could move. On the last byte of the buffer it sees the same byte again. |
| ParsingContext.NextRow | Json.hpp:92-96 | The row goes up by one and the column goes back to 0. The position stays. |
| Lexer.Unescape | Json.hpp:202-229 | After a backslash, `b`, `f`, `n`, `r` and `t` stand for backspace, form feed, line feed, carriage return and tab. Every other letter, including `"`, `\` and `/`, stands for itself. |
| Lexer.ReadHex | Json.hpp:190-195 | The bytes after the cursor, at most four and only as many as the buffer has. The cursor ends on the last byte taken. |
| Lexer.StringLoop | Json.hpp:176-245 | Reading a literal keeps what was decoded so far as a prefix. It ends on an unescaped `"` or on the last byte of the buffer, so an unterminated literal is no error. The only failure is a `\u` conversion failure. |
| Lexer.ReadString | Json.hpp:176-245 | `readString` fails only with a conversion failure. On success the cursor has not moved back, stays on the same row and in the buffer, and its column moved as far as its position. |
| LexerProperties.StringLoopStep | Json.hpp:179-241 | One turn of the loop on a byte other than `\`: a `"` ends the literal one byte on, and any other byte is appended. |
| LexerProperties.StringLoopPlain | Json.hpp:179-241 | Over bytes with no `"` or `\` up to a closing quote, the literal is exactly those bytes, and the cursor ends on the quote. |
| LexerProperties.StringLoopEscape | Json.hpp:182-230 | A backslash and a letter other than `u` append the letter's `Unescape` and go on two bytes later. |
| LexerProperties.StringLoopUnicode | Json.hpp:187-201 | `\u` and four hex digits naming a scalar value append that value's UTF-8 bytes and go on six bytes later. |
| LexerProperties.StringLoopLastByte | Json.hpp:179-241 | One plain byte before a closing quote is appended, and the loop stops on the quote. |
| LexerProperties.ReadStringFifthDigit | Json.hpp:187-201 | `\u` takes exactly four hex digits. In a literal `\u` with five hex digits, the fifth is read as a plain byte after the UTF-8 bytes of the first four. |
| LexerProperties.FifthHexDigitIsPlain | Json.hpp:187-201 | `load` on such a literal gives one String token holding the first four digits' UTF-8 bytes and then the fifth digit. |
| Lexer.Mismatch | Json.hpp:251-259 | The number of leading bytes of the buffer that agree with the pattern. Within the window, all of them agree exactly when the window spells the pattern. |
| Lexer.ExpectLoop | Json.hpp:251-259 | The do-while of `readExpect` fails exactly at the first differing byte, at that byte's column. Otherwise it stops one byte past the pattern, or on the last byte of the buffer. |
| Lexer.ReadExpect | Json.hpp:247-262 | Succeeds exactly when the bytes that fit in the buffer spell the start of the pattern. On failure it reports the column of the first differing byte. On success the cursor ends on the keyword's last byte, or on the buffer's last byte when the step back fails. |
| Lexer.RunEnd | Json.hpp:264-284 | The end of the maximal run of numeric bytes from a position. |
| Lexer.NumberLoop | Json.hpp:273-284 | The do-while of `readNumber` collects exactly the numeric run. It leaves the cursor on the byte after the run, or on the last byte when the run reaches the end. |
| Lexer.ReadNumber | Json.hpp:269-296 | Succeeds exactly when `stod` parses a number from the start of the run, range errors aside. The literal is the whole run. The cursor steps back onto the run's last byte, except when the byte after the run is the buffer's last byte. A failure is a `ParserException` on the same row. |
| Lexer.ScanKeyword | Json.hpp:334-343 | The `true`/`false`/`null` branch succeeds exactly when the keyword fits, and pushes the keyword's token. |
| Lexer.ScanNumber | Json.hpp:345-351 | The numeric branch succeeds exactly when `stod` parses a number from the start of the run, range errors aside. It pushes the run as a Number literal. |
| Lexer.Scan | Json.hpp:300-359 | The byte under the cursor yields no token exactly when it is white space. A line feed moves to the next row. Each structural byte yields its token without moving. A byte outside every branch fails with the cursor's row and column. |
| Lexer.TokenLoop | Json.hpp:298-360 | The tokens pushed so far stay a prefix. At most one token is added per remaining byte. |
| Lexer.Load | Json.hpp:168-365 | Empty text gives no tokens, and no text gives more tokens than it has bytes. |
| LexerProperties.TokenLoopStructural | Json.hpp:298-360 | From the cursor on, text of white space and the six structural bytes `{ } [ ] : ,` is read as exactly their tokens, in text order, after those already pushed. |
| LexerProperties.LoadStructural | Json.hpp:298-365 | `load` of such a text gives exactly its structural tokens in order, with white space skipped. |
| LexerProperties.ScanQuote | Json.hpp:326-329 | A `"` hands over to `readString`: a String token with what it read, or the same failure. |
| LexerProperties.ScanBoolean | Json.hpp:334-339 | A `t` goes to the keyword branch with `true` and the token `true`. An `f` goes there with `false` and the token `false`. |
| LexerProperties.ScanPlain | Json.hpp:326-329 | On an opening quote with a plain literal up to the closing quote, `load` pushes a String token with those bytes. It goes on after the closing quote. |
| LexerProperties.TokenLoopPush | Json.hpp:359-360 | A token pushed with bytes left after the cursor: `load` continues one byte later with the token appended. |
| LexerProperties.TokenLoopLast | Json.hpp:359-365 | A token pushed with the cursor on the last byte: `load` ends with that token appended. |
| LexerProperties.TokenLoopStops | Json.hpp:298-360 | A byte the body rejects makes all of `load` fail with that error. |
| LexerProperties.ScanNumeric | Json.hpp:312-356 | Every byte of the numeric class reaches the numeric branch: no earlier case of the switch takes it. |
| LexerProperties.ScanNull | Json.hpp:340-343 | An `n` reaches the `null` branch. |
| LexerProperties.ScanNumberRun | Json.hpp:269-296 | An accepted run gives its Number token. The cursor ends on the run's last byte, or on the buffer's last byte when the step back fails. |
| LexerProperties.ScanKeywordFits | Json.hpp:247-262 | A keyword that fits gives its token. The cursor ends on the keyword's last byte, or on the buffer's last byte when the step back fails. |
| LexerProperties.NumberBeforeLastByte | Json.hpp:269-296 | When a number's run stops on the buffer's last byte, the step back fails. `load` ends with the Number token and never reads that byte. |
| LexerProperties.NumberToEnd | Json.hpp:269-296 | A number that runs to the end of the buffer ends `load`, with the whole run as its literal. |
| LexerProperties.NumericBytes | Json.hpp:264-267 | `isNumberic` accepts exactly the bytes of a number in the grammar of section 6 of RFC 8259, except `E`. |
| LexerProperties.UpperExponentRejected | Json.hpp:264-267 | `e` is in the numeric class and `E` is not. An `E` under the cursor stops `load` at its row and column. |
| LexerProperties.DigitThenUpperExponent | Json.hpp:345-355 | A digit followed by `E`, with at least one byte after the `E`, gives a one-byte number. The `E` then stops `load` one column further on. When the `E` is the last byte, the failed step back hides it (see `Quirks.UpperExponentLast`). |
| LexerProperties.NullPrefixAtEnd | Json.hpp:247-262 | A buffer that ends inside `null` still yields a Null token. |
| LexerProperties.LoadStringText | Json.hpp:176-245 | Round trip: `load` reads the written text of an ASCII String without `"`, `\`, `/` and line feeds back as one String token with the same bytes. |
| Hex.Stoi | Json.hpp:198 | `stoi` in base 16 succeeds exactly when the text starts with a hex digit. On an all-digit text it gives the value the digits spell. |
| Hex.Format | Json.hpp:463-465 | The zero-padded hex rendering spells the number, uses lower-case digits only, and is at least the requested width. |
| Hex.FiveDigits | Json.hpp:463-465 | A number from 0x10000 up takes at least five hex digits, so `setw(4)` does not bound the rendering. |
| Hex.StoiOfFormat | Json.hpp:463-465 | Reading the writer's hex digits back with `stoi` gives the number. |
| Utf8.Encode | Json.hpp:199-200 | `to_bytes` writes one to four bytes. It writes one byte, the code point itself, exactly for ASCII. |
| Utf8.Decode | Json.hpp:418-422 | `from_bytes` gives code points whose encoding is the text. |
| Utf8.DecodeEncode | Json.hpp:418-422 | UTF-8 round trip: decoding the encoding of scalar values gives them back. |
| Serializer.EscapeChar | Json.hpp:428-468 | An ASCII code point is written as itself, except that `"`, `\` and `/` vanish and a line feed becomes a form feed. Any other code point becomes `\u` and lower-case hex digits that spell it: six bytes in all below U+10000, seven or more from there on. |
| Serializer.UnicodeEscape | Json.hpp:463-467 | `\u` then at least four lower-case hex digits that spell the code point, with no `"`. Exactly four digits below U+10000, and more from there on. |
| Serializer.Escape | Json.hpp:426-469 | `escapeString` never writes a `"`. |
| Serializer.EscapeBackslash | Json.hpp:428-467 | On ASCII code points the escaped text is no longer than the input and has no `\`. Any code point from U+0080 on puts a `\` in it. |
| Serializer.EscapeAppend | Json.hpp:426-469 | The escape of a concatenation is the concatenation of the escapes. |
| Serializer.StringBody | Json.hpp:471-480 | Decodable bytes are escaped and contain no `"`. Undecodable bytes are kept unchanged. |
| Serializer.StringText | Json.hpp:482 | The text is the body between two double quotes. |
| Serializer.ToString | Json.hpp:556-693 | The text of an array starts with `[` and ends with `]`. An object's is between `{` and `}`, and a String's between double quotes. |
| LexerProperties.StringTextAscii | Json.hpp:424-483 | On ASCII text, `toString` is the byte-by-byte reference reading `Written` between quotes. |
| LexerProperties.WrittenBytes | Json.hpp:434-458 | The reference reading emits no `"`, `\`, `/` or line feed, and is no longer than its input. It turns a line feed into a form feed and keeps every other byte. Without `"`, `\` and `/` in the input, byte `i` of the output comes from byte `i` of the input. |
| Serializer.TokensEnds | Json.hpp:606-620 | An array's tokens run from `[` to `]` and an object's from `{` to `}`. A leaf is one token. The last token tells arrays and objects apart from everything else. |
| Serializer.ToStringSpellsTokens | Json.hpp:556-693 | `toString` of every node is the spelling of the token sequence `Tokens` gives that node. |
| Serializer.SpellJoin | Json.hpp:559-567 | Joining spelled parts with `,` spells the parts joined with Comma tokens. |
| Values.Find | Json.hpp:528-534 | A lookup finds a member exactly when the key is present. With distinct keys it finds that member's value. |
| Values.Get | Json.hpp:537-547 | `get` gives the null pointer for a missing key, and the stored pointer otherwise. |
| Values.GetAs | Json.hpp:537-547 | The typed `get` gives a node exactly when the key holds a node of the requested kind. |
| Values.Count | Json.hpp:549 | An array counts its items. An object with distinct keys counts its keys. |
| Values.Insert | Json.hpp:551-554 | `insert` gives an object and keeps keys distinct. What it stores is stated by `InsertGet` and `InsertKeys`. |
| Values.InsertGet | Json.hpp:551-554 | After `insert`, the key gives the new pointer and every other key is unchanged. |
| Values.InsertKeys | Json.hpp:551-554 | After `insert` the key is present and the earlier keys keep their order. The key is added at the end when it is new, and otherwise the members stay where they are. |
| Values.InsertCount | Json.hpp:551-554 | `insert` grows the count by one exactly for a new key. |
| Values.InsertMemberDistinct | Json.hpp:551-554 | `insert` keeps keys distinct. |
| Values.Subscript | Json.hpp:520-523 | `operator[]` gives the stored pointer and adds the key, with the null pointer, only when it is missing. No lookup changes. |
| Values.At | Json.hpp:589-597 | `operator[]` gives one of the array's items. In a tree without null pointers that item is a node without null pointers. Which item it gives is stated with `push_back` in `Values.PushAllAt`. |
| Values.KindOf | Json.hpp:392 | `getType` reports each kind for exactly one kind of node. |
| Values.PushBack | Json.hpp:599-602 | `push_back` appends: the count grows by one, the new last item is the pointer, and the earlier items are unchanged. |
| Values.PushAllAt | Json.hpp:589-602 | After `push_back` of each pointer of a list in turn onto an empty array, the count is the list's length and `operator[]` at index `i` gives the list's item `i`. |
| Parser.Advance | Json.hpp:151-160 | `Lexer::next` moves one token exactly when the cursor is not on the last token. |
| Parser.ReadValue | Json.hpp:749-863 | A leaf token gives its node without moving. A token that starts no value gives the null pointer. `[` gives a non-empty array and `{` an object with distinct keys. The only failure is the endless recursion on a final `[`. |
| Parser.ReadArray | Json.hpp:803-828 | A `[` that is the last token recurses forever. Otherwise the array read has at least one item. |
| Parser.AfterElement | Json.hpp:813-822 | A `]` or the last token ends the array where the cursor stands. |
| Parser.ReadElements | Json.hpp:808-816 | A turn of `readArray`'s loop reads a value and appends it. The result is an array that strictly extends the items read so far. |
| Parser.ReadObject | Json.hpp:765-801 | The object read has distinct keys. A `{` that is the last token gives the empty object. |
| Parser.ReadMembers | Json.hpp:770-796 | A `}` or the last token ends the object. Distinct keys stay distinct. |
| Parser.ReadMember | Json.hpp:779-787 | After a key, the loop reads the value and inserts it. The result is an object, and distinct keys stay distinct. The only failure is the endless recursion on a final `[`. |
| Parser.AfterMember | Json.hpp:789-796 | The last token ends the object where the cursor stands. Otherwise the result is an object, and distinct keys stay distinct. |
| Parser.ParseTokens | Json.hpp:733-747 | No tokens give the null pointer. A leaf token first gives that leaf. Reading fails only when the last token is `[`. |
| Parser.Parse | Json.hpp:733-747 | A lexer exception propagates, and empty text gives the null pointer. |
| ParserProperties.ReadValueTokens | Json.hpp:749-863 | On a token sequence holding the tokens of a readable tree at position `i`, `readValue` rebuilds the tree. It ends on the tree's last token. |
| ParserProperties.ReadElementsTokens | Json.hpp:803-828 | The loop of `readArray` rebuilds the remaining elements and ends on the `]`. |
| ParserProperties.ReadMembersTokens | Json.hpp:765-801 | The loop of `readObject` rebuilds the remaining members in order and ends on the `}`. |
| ParserProperties.ParseTokensRoundTrip | Json.hpp:733-863 | `parse` on exactly the tokens `toString` spells for a readable tree gives that tree back. |
| Quirks.EmptyArrayHoldsNull | Json.hpp:808-816 | The tokens of `[]` read as an array holding one null pointer. That tree holds a null pointer, which `toString` in the source would dereference. |
| Quirks.NestedArrayTruncates | Json.hpp:808-816 | In `[[1],2]` the outer array stops after `[1]`. |
| Quirks.LoneBracketDiverges | Json.hpp:803-810 | A token array `[` or `[[` makes `readArray` recurse without end. |
| Quirks.StepBackLosesLastByte | Json.hpp:284-286 | `load` on a text such as `[1]`, a bracket, one digit and a bracket, gives `[` and the Number and never reads the `]`. |
| Quirks.LowerExponentAccepted | Json.hpp:264-267 | A digit, a lower-case `e` and a digit, such as `1e5`, make one Number token holding the whole text. |
| Quirks.UpperExponentStops | Json.hpp:264-267 | Text of three or more bytes that opens with a digit and `E` fails at row 0, column 1. |
| Quirks.UpperExponentLast | Json.hpp:345-360 | The two bytes of a digit and `E`, such as `1E`, load as one Number holding the digit: the `E` is never read. |
| Quirks.TruncatedNull | Json.hpp:251-259 | A buffer holding only a prefix of `null`, such as `nul`, reads as one Null token. |
| Quirks.WriterDropsEscapes | Json.hpp:434-448 | The text written for ASCII bytes has no `"`, `\`, `/` or line feed between its quotes. A line feed comes out as a form feed, and every other byte is kept. Without `"`, `\` and `/`, the text is two bytes longer than the input, and each byte sits one place later. |
| Quirks.AstralEscapeMisread | Json.hpp:187-201 | Take a code point from U+10000 to U+FFFFF whose value divided by 16 is a scalar value. It is written as `\u` and five hex digits. The reader takes the first four as one escape and the fifth as a plain byte, so `load` gives back bytes other than the ones written. This assumes a 32-bit `wchar_t`. Where `wchar_t` is 16 bits, as on Windows, `codecvt_utf8<wchar_t>` covers only U+0000 to U+FFFF. The writer's conversion at Json.hpp:420 then throws on such a code point, and this case does not arise. |
| Quirks.AstralText | Json.hpp:460-482 | The text written for such a code point's bytes is a quote, `\u`, the hex digits and a quote. |
| Quirks.EscapeWide | Json.hpp:463-467 | The escape of one code point from U+0080 on is `\u` and its zero-padded hex digits. |
| Quirks.AstralDigits | Json.hpp:463-465 | From U+10000 to U+FFFFF the digits are five. The first four spell the code point divided by 16, and the fifth is its last hex digit. |
| Quirks.AstralLiteral | Json.hpp:187-201 | The written text of such a code point is a four-digit `\u` escape spelling the code point divided by 16, then its last hex digit, then the closing quote. |
| Quirks.AstralBytesDiffer | Json.hpp:199-200 | The bytes read back are not the code point's UTF-8 bytes. |

## Left out

- File I/O (`readFile`, `writeFile`, `parseFile`, `FileWriter`): the model starts from and ends with text in memory.
- `stod` and `to_string`: a Number keeps its literal text. `Lexer.StodAccepts` states only which runs `stod` accepts, and `toString` of a Number is a function parameter `fmt`.
- `wstring_convert` is written out as UTF-8 (`Utf8`). It is assumed to fail on surrogates. A `wchar_t` narrower than 32 bits is not modelled.
- `stoi` is modelled as the value of the leading hex digits. Leading white space, a sign and a `0x` prefix are not modelled.
- `shared_ptr` sharing and `ConvertJson`'s unchecked cast: children are values, and `Values.GetAs` does not model what a mismatched cast yields.
- `unordered_map` order: an object is a list of members in order of first insertion, and `toString` writes them in that order.
- Exception messages: a `ParserException` keeps only its row and column.
- Parser.ReadArray: the endless recursion on a final `[` is reported as the error `Diverges` rather than modelled as a stack overflow.
- Lexer.Scan: its contract covers white space, structural bytes and unrecognised bytes only. The string, keyword and number branches are stated by the lemmas `LexerProperties.ScanQuote`, `ScanBoolean`, `ScanNull`, `ScanNumeric`, `ScanKeywordFits` and `ScanNumberRun`.
- Lexer.ReadNumber: `stod` throws `out_of_range` for a literal beyond the range of `double`, such as `1e999`. Only `invalid_argument` is caught (Json.hpp:292), so that exception escapes `load` unconverted. The model has no number values and returns Success for such a literal.
- Lexer.ScanNumber: the same `out_of_range` case. It succeeds in the model where the source throws `out_of_range`.
- Serializer.ToString: requires a tree without null pointers. The source dereferences a null child (Json.hpp:561, 611), which is undefined behaviour. Reading `[]` gives such a child (`Quirks.EmptyArrayHoldsNull`). The contract states the brackets and quotes; the full text is stated by `Serializer.ToStringSpellsTokens`.
- Parser.ReadMember: its contract does not state that the key is present in the result. `Values.InsertKeys` states it for `insert`.
- Lexer.TokenLoop, Lexer.Load: their contracts bound the tokens produced. Exact results come from the step lemmas in `LexerProperties` and from `LexerProperties.LoadStructural` for text of structural bytes and white space. Text with strings, keywords or numbers is not given a whole-text reference reading.
- `size_t` wrap-around: positions, rows and columns are unbounded. The code never takes them below zero.
