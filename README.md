# A verified model of cpp_json_parser

cpp_json_parser turns JSON text into a value tree in three stages:

1. A `Scanner` reads the text into tokens. Each token is stamped with the line and column of its first character.
2. A recursive-descent `Parser` reads one element from those tokens, then requires Eof.
3. A tagged `Json` value has type-checked accessors and a `to_string` serialiser.

`parse_string` composes the first two stages. Failures are thrown as `JsonException`.

This project models those stages in Dafny and proves what each one promises.

- The scanner and the parser are classes, as in C++. Their methods change the cursor fields step by step. Each method is proved to agree with a function that says what one scan, or one `parse_*` call, returns.
- The value model, token formatting and `parse_string` are functions and lemmas.
- Exceptions become `Result` values. A `ScanError` carries a line, a column and a fault. A `ParseError` carries the offending token and a reason. `ScanErrorText` and `ParseErrorText` build the message texts.

Files:

| file | module | models |
|---|---|---|
| `wrappers.dfy` | `Wrappers` | `Option`, `Result`, `Outcome` in place of exceptions |
| `tokens.dfy` | `Tokens` | `TokenType`, `Token`, `Token::to_string`, `std::quoted` |
| `json_value.dfy` | `JsonValue` | `Json`, the `is_*` predicates, the accessors, `object_t` as a sorted member list, `to_string` |
| `scanner.dfy` | `Scanning` | the scan as functions, and the `Scanner` class |
| `scan_props.dfy` | `ScanningProperties` | what a whole scan produces |
| `parser.dfy` | `Parsing` | the parse as functions, and the `Parser` class |
| `parse_props.dfy` | `ParsingProperties` | soundness and the error cases of the parser |
| `round_trip.dfy` | `RoundTrip` | the tokens of any well-formed value parse back to that value |
| `core.dfy` | `Core` | `parse_string`, and the sample texts of `src/main.cpp` |
| `text_round_trip.dfy` | `TextRoundTrip` | the text `to_string` writes scans and parses back to the value |

Three places where the repository's own text promises more than the code does. The model follows the code in each:

- String literals are copied raw. include/json_parser/detail/Scanner.h:23 declares `scan_escape_sequence`, but nothing defines or calls it. src/Scanner.cpp:73 marks escape and hex-digit decoding as a TODO, and `scan_string` (src/Scanner.cpp:74-84) stops at the next quote whatever precedes it.
- `parse_string` accepts `[]` and `{}` and returns empty containers (`RoundTrip.ArrayEmpty`, `Core.EmptyArrayNotSerializable`). `to_string` then reads `*v.begin()` of that empty container (src/JsonValue.cpp:151-164). See "## Findings".
- The grammar comment in include/Parser.h:7-13 allows a trailing comma. `parse_array` and `parse_object` reject one.

## Model

| member | source | states |
|---|---|---|
| Tokens.DigitChar | src/Token.cpp:21 | the digit character written for a digit value d is `'0'` plus d |
| Tokens.NatToString | src/Token.cpp:21 | a line or column is written as a non-empty run of decimal digits with no leading zero |
| Tokens.DecimalValueOfNatToString | src/Token.cpp:21 | reading a printed line or column back gives the number that was printed |
| Tokens.Quoted | src/Token.cpp:23-33 | `std::quoted` output starts and ends with a double quote |
| Tokens.UnescapeEscaped | src/Token.cpp:33 | unescaping the escaped text, up to its closing quote, gives back the original text |
| Tokens.QuotedRoundTrip | src/Token.cpp:33 | `Unquote(Quoted(s)) == Some(s)` for every s, including texts holding quotes and backslashes |
| Tokens.EscapedPlain | src/Token.cpp:23-31 | a text with no quote and no backslash is written without escapes |
| Tokens.TokenText | src/Token.cpp:16-38 | `Token::to_string` always begins with `[line:column]` and always ends with `]` |
| Tokens.PositionTextReadsBack | src/Token.cpp:21 | the `[line:column]` text reads back: the digits between `[` and the colon give the line, those between the colon and `]` the column |
| Tokens.PositionTextInjective | src/Token.cpp:21 | two positions with the same text are the same line and column |
| Tokens.FixedKindText | src/Token.cpp:23-31 | a fixed-lexeme kind prints its label and its quoted lexeme, such as `[Comma: ","]` |
| Tokens.EofText | src/Token.cpp:32 | Eof prints `[Eof: EOF]` after its position |
| Tokens.StringTokenText | src/Token.cpp:33 | the literal of a String token can be read back exactly from its printed text |
| JsonValue.IsNull | src/JsonValue.cpp:55-57 | `is_null` holds exactly when the type is Null |
| JsonValue.IsBool | src/JsonValue.cpp:58-60 | `is_bool` holds exactly when the type is Boolean |
| JsonValue.IsNumber | src/JsonValue.cpp:61-63 | `is_number` holds exactly when the type is Number |
| JsonValue.IsString | src/JsonValue.cpp:64-66 | `is_string` holds exactly when the type is String |
| JsonValue.IsArray | src/JsonValue.cpp:67-69 | `is_array` holds exactly when the type is Array |
| JsonValue.IsObject | src/JsonValue.cpp:70-72 | `is_object` holds exactly when the type is Object |
| JsonValue.ExactlyOneIs | src/JsonValue.cpp:55-76 | for every value, exactly one `is_*` predicate holds: the one for its own type |
| JsonValue.TypeOf | src/JsonValue.cpp:74-76 | `type()`, the tag of the variant a value holds; `ExactlyOneIs` and the `Is*` rows state what it tells |
| JsonValue.TypeNamesDistinct | src/JsonValue.cpp:10-21 | the six type names used in cast messages are pairwise distinct |
| JsonValue.TypeName | src/JsonValue.cpp:10-21 | each type has a non-empty name of lower-case letters |
| JsonValue.TypeNamePrefix | src/JsonValue.cpp:10-21 | no type name is a prefix of another |
| JsonValue.TypeNameSuffix | src/JsonValue.cpp:10-21 | no type name is a suffix of another |
| JsonValue.CastMessage | src/JsonValue.cpp:23-27 | the cast message is "Invalid cast from ", the source type's name, " to " and the target type's name, and ends with the latter |
| JsonValue.CastMessageInjective | src/JsonValue.cpp:23-27 | the message tells the cast: two casts with the same message have the same source and target types |
| JsonValue.GetBoolean | src/JsonValue.cpp:78-83 | `boolean()` succeeds exactly on a Boolean and returns its payload; otherwise it fails with a cast from the actual type to Boolean |
| JsonValue.GetNumber | src/JsonValue.cpp:85-90 | `number()` succeeds exactly on a Number and returns its payload; otherwise it fails with a cast from the actual type to Number |
| JsonValue.GetString | src/JsonValue.cpp:92-104 | `string()` succeeds exactly on a String and returns its payload; otherwise it fails with a cast from the actual type to String |
| JsonValue.GetArray | src/JsonValue.cpp:106-118 | `array()` succeeds exactly on an Array and returns its elements; otherwise it fails with a cast from the actual type to Array |
| JsonValue.GetObject | src/JsonValue.cpp:120-132 | `object()` succeeds exactly on an Object and returns its members; otherwise it fails with a cast from the actual type to Object |
| JsonValue.CastSucceedsIffIs | src/JsonValue.cpp:78-132 | an accessor succeeds exactly when the matching `is_*` predicate holds, that is, when the tag matches |
| JsonValue.OfType | src/JsonValue.cpp:43-53 | `Json(Type t)` produces a value of type t |
| JsonValue.OfTypeDefaults | src/JsonValue.cpp:43-53 | the default payloads of `Json(Type)` read back as null, false, 0, the empty string, the empty array and the empty object |
| JsonValue.ConstructorTags | include/JsonValue.h:40-58 | the default constructor gives Null; each payload constructor sets its own tag, and the accessor returns the payload |
| JsonValue.StrLessIrreflexive | include/JsonValue.h:32 | the key order of `std::map<std::string, Json>` is irreflexive |
| JsonValue.StrLessTransitive | include/JsonValue.h:32 | the key order is transitive |
| JsonValue.StrLessTotal | include/JsonValue.h:32 | any two distinct keys are ordered one way or the other |
| JsonValue.StrLessAsymmetric | include/JsonValue.h:32 | the key order is asymmetric |
| JsonValue.Lookup | include/JsonValue.h:32 | `map::find` finds a key exactly when the key is present, and returns the value stored under it |
| JsonValue.SortedKeysUnique | include/JsonValue.h:29-33 | in a sorted member list no key occurs twice |
| JsonValue.InsertKeys | src/Parser.cpp:91 | a successful insert adds exactly its key; a failed insert means the key was already present |
| JsonValue.InsertPresent | src/Parser.cpp:91 | inserting a key already present fails, so the earlier value is kept |
| JsonValue.InsertSorted | src/Parser.cpp:91 | on a sorted list, `insert` fails exactly when the key is present; on success the list stays sorted and gains exactly the new key |
| JsonValue.InsertContents | src/Parser.cpp:91 | a successful insert holds one more member, maps the new key to the new value, and leaves every other key's value as it was |
| JsonValue.InsertAtEnd | src/Parser.cpp:91 | a key above every present key is appended at the end |
| JsonValue.InsertNextOfSorted | src/Parser.cpp:91 | when the members of a sorted list are read in order, each insert appends |
| JsonValue.InsertBeforeHead | src/Parser.cpp:91 | a key below the first key is new, and putting it first keeps the list sorted |
| JsonValue.InsertAfterHead | src/Parser.cpp:91 | a key above the first key goes after it, and the list stays sorted |
| JsonValue.Insert | src/Parser.cpp:91 | `map::insert` on the sorted member list: the new member goes before the first member whose key is above it, or at the end, and meeting the key first gives None; `InsertKeys`, `InsertSorted` and `InsertContents` state its contract |
| JsonValue.JoinLength | src/JsonValue.cpp:135-164 | the `transform_reduce` fold adds one `", "` per part after the first |
| JsonValue.JoinStartsWithFirst | src/JsonValue.cpp:151-164 | the fold starts with the text of the first element or member |
| JsonValue.Serialize | src/JsonValue.cpp:134-174 | `to_string` as written, defined on values that hold no empty array or object; `SerializeTotalAgrees` and `TextRoundTrip.SerializeRoundTrip` state what it writes |
| JsonValue.SerializeTotal | src/JsonValue.cpp:134-174 | `to_string` with `[]` and `{}` for the empty containers; `SerializeTotalAgrees`, `SerializeRevealsType` and `TextRoundTrip.TextRoundTrip` state what it writes |
| JsonValue.SerializeTotalAgrees | src/JsonValue.cpp:134-174 | wherever the `to_string` model (Serialize) is defined, the total serialiser writes the same text |
| JsonValue.SerializeRevealsType | src/JsonValue.cpp:143-164 | the first character of the text names the variant: `n` null, `t` true, `f` false, a quote a string, `[` an array, `{` an object |
| JsonValue.ArrayTextStartsWithFirst | src/JsonValue.cpp:151-157 | an array's text is `[ ` followed by its first element's text |
| Scanning.RunEnd | src/Scanner.cpp:59-89 | a run ends at the end of the text or at the first character that fails the test |
| Scanning.RunEndAll | src/Scanner.cpp:59-89 | every character of the run passes the test, so a run is maximal |
| Scanning.RunEndStep | src/Scanner.cpp:59-61 | a run that continues at i ends where the run from i + 1 ends |
| Scanning.ScanStep | src/Scanner.cpp:32-56 | each `scan_token` call reads at least one character and emits at most one token; the token, or the error, carries the call's start position |
| Scanning.NumberStep | src/Scanner.cpp:58-71 | one `scan_number` from i: the maximal run of number characters, as a Number token when stod accepts it, else "Cannot covert"; `ScanningProperties.NumberScan` states it |
| Scanning.StringStep | src/Scanner.cpp:74-84 | one `scan_string` from the quote at i: the raw text up to the next quote, or "Unterminated string"; `ScanningProperties.StringScan` states it |
| Scanning.IdentifierStep | src/Scanner.cpp:86-97 | one `scan_identifier` from i: the maximal letter run as a Null, True or False token, or the invalid-literal error; `ScanningProperties.IdentifierScan` states it |
| Scanning.TokenizeFrom | src/Scanner.cpp:22-30 | the `scan` loop from index i: `scan_token` calls until the end, then Eof at the last start position; `ScanningProperties.TokenizeFromShape` and `EofFromPosition` state it |
| Scanning.Tokenize | src/Scanner.cpp:22-30 | the whole scan from index 0 and start position 0:0; `ScanningProperties.TokenizeShape`, `EofPosition` and `Scanner.Scan` state it |
| Scanning.Scanner.constructor | src/Scanner.cpp:9-20 | a new scanner holds no tokens, its cursor is at 0, its start position is 0:0, and its current position is 1:1 |
| Scanning.Scanner.Scan | src/Scanner.cpp:22-30 | `scan` returns exactly `Tokenize(source)`: the token list, or the first scan error |
| Scanning.Scanner.ScanToken | src/Scanner.cpp:32-56 | `scan_token` does what `ScanStep` says: it emits that step's tokens and moves the cursor to its end, or fails with its error |
| Scanning.Scanner.ScanNumber | src/Scanner.cpp:58-71 | `scan_number` consumes the maximal run of number characters, and emits a Number token or the "Cannot covert" error as `NumberStep` says |
| Scanning.Scanner.ScanString | src/Scanner.cpp:74-84 | `scan_string` copies the characters up to the next quote raw, or fails with "Unterminated string", as `StringStep` says |
| Scanning.Scanner.ScanIdentifier | src/Scanner.cpp:86-97 | `scan_identifier` consumes the maximal run of letters and emits Null, True or False, or the invalid-literal error, as `IdentifierStep` says |
| Scanning.Scanner.Advance | src/Scanner.cpp:108-117 | `advance` returns the character under the cursor, moves one place, and keeps the line and column counters equal to `PosAt` |
| Scanning.Scanner.Peek | src/Scanner.cpp:119-121 | `peek` returns the character under the cursor; at the end it returns `'\0'`, which is in no character class |
| Scanning.Scanner.IsNotEnd | src/Scanner.cpp:104-106 | `is_not_end`: the cursor is before the end of the text |
| Scanning.Scanner.AddToken | src/Scanner.cpp:123-125 | `add_token` appends one token stamped with the start position and changes nothing else |
| Scanning.Scanner.Error | src/Scanner.cpp:127-133 | the scan error raised carries the start line and column of the current token |
| Scanning.ScanErrorText | src/Scanner.cpp:127-133 | the scan error text is "Scan error at ", then the `[line:column]` of the failing token's start, and ends with the fault's message |
| ScanningProperties.TokenizeFromShape | src/Scanner.cpp:22-30 | a successful scan extends the tokens emitted so far with ordinary tokens and one final Eof |
| ScanningProperties.TokenizeShape | src/Scanner.cpp:22-30 | a successful scan ends with exactly one Eof token, which has no literal, and every token carries the literal its kind calls for |
| ScanningProperties.EofFromPosition | src/Scanner.cpp:22-34 | the Eof token of a scan from i stands at the last start position kept when i is the end, and otherwise at the start of the one `scan_token` call, among those the loop makes from i, that reads the last character |
| ScanningProperties.EofPosition | src/Scanner.cpp:13-34 | Eof stands at 0:0 for the empty text, and otherwise at the start of the `scan_token` call the loop makes that reads the last character |
| ScanningProperties.LastCallUnique | src/Scanner.cpp:22-30 | among the calls the loop makes from i, at most one reads the last character, so the position above is determined |
| ScanningProperties.PosAtLine | src/Scanner.cpp:108-117 | the line of a character is one plus the number of line breaks before it |
| ScanningProperties.PosAtFirstLine | src/Scanner.cpp:108-117 | on the first line, the column of character i is i + 1 |
| ScanningProperties.PosAtAfterBreak | src/Scanner.cpp:108-117 | after a line break the line goes up by one and the columns count from 1 again |
| ScanningProperties.InvalidCharacterIff | src/Scanner.cpp:38-51 | `scan_token` reports an invalid character exactly when the character is not structural, not a quote, not a blank, not a number character and not a letter; the error names that character |
| ScanningProperties.StructuralToken | src/Scanner.cpp:38-43 | each of `{ } [ ] , :` is one token of its own kind, at its position |
| ScanningProperties.BlankSkipped | src/Scanner.cpp:46-47 | a blank emits nothing and moves one place |
| ScanningProperties.StringScan | src/Scanner.cpp:44-84 | a quote fails exactly when no quote follows it; otherwise the literal is exactly the text between the two quotes, with no quote inside |
| ScanningProperties.IdentifierScan | src/Scanner.cpp:50-97 | a letter other than e and E starts a maximal letter run, which scans exactly when it is null, true or false; otherwise the error names the run |
| ScanningProperties.NumberScan | src/Scanner.cpp:45-102 | a number character starts the maximal run of number characters; the scan succeeds exactly when stod accepts the run, and the token's lexeme is the run |
| ScanningProperties.ScanErrorIgnoresTokens | src/Scanner.cpp:22-30 | whether the scan from i fails, and with which error, does not depend on the tokens emitted before i |
| ScanningProperties.RunEndAt | src/Scanner.cpp:59-89 | a run whose characters all pass the test, and which is followed by the end or by a failing character, ends exactly there |
| ScanningProperties.StringAt | src/Scanner.cpp:44-84 | a quote, quote-free text and a quote are one String token holding that text, and the next call starts after the closing quote |
| ScanningProperties.NumberAt | src/Scanner.cpp:58-71 | a maximal run of number characters that stod accepts is one Number token holding the run |
| ScanningProperties.KeywordStep | src/Scanner.cpp:86-97 | `null`, `true` or `false` followed by no letter is one token of that kind |
| ScanningProperties.ScanLast | src/Scanner.cpp:22-30 | after the call that reads the last character, the scan appends Eof at that call's start |
| ScanningProperties.ScanOn | src/Scanner.cpp:22-30 | the tokens of one `scan_token` call come before the tokens of the rest of the scan |
| ScanningProperties.ScanErrorHere | src/Scanner.cpp:22-30 | a failing `scan_token` call ends the whole scan with its error |
| ScanningProperties.ScanErrorSkip | src/Scanner.cpp:22-30 | a successful call before a failing rest of the scan does not change the error |
| ScanningProperties.ScanErrorSkipChar | src/Scanner.cpp:38-47 | a structural character or a blank before a failing rest does not change the error |
| ScanningProperties.ScanErrorSkipString | src/Scanner.cpp:74-84 | a complete string before a failing rest does not change the error |
| ScanningProperties.ScanErrorSkipNumber | src/Scanner.cpp:58-71 | an accepted number before a failing rest does not change the error |
| ScanningProperties.ScanErrorSkipKeyword | src/Scanner.cpp:86-97 | a keyword before a failing rest does not change the error |
| ScanningProperties.BlankFrom | src/Scanner.cpp:22-47 | from i on, a run of blanks adds only Eof, at the last blank |
| ScanningProperties.BlankText | src/Scanner.cpp:22-47 | a non-empty text of blanks scans to one Eof token, at its last blank |
| ScanningProperties.EmptyText | src/Scanner.cpp:13-30 | the empty text scans to one Eof token at 0:0 |
| ScanningProperties.BackslashIsPlain | src/Scanner.cpp:73-84 | a backslash does not escape a quote: the text `"a\"` is the string `a\` |
| ScanningProperties.LoneExponent | src/Scanner.cpp:49-102 | a lone `e` is scanned as a number and rejected with "Cannot covert e to number" |
| Parsing.ElementSpec | src/Parser.cpp:27-31 | on success, `parse_element` leaves the cursor on a token, no further back than where it started |
| Parsing.LiteralSpec | src/Parser.cpp:33-45 | on success, `parse_literal` leaves the cursor on a token, no further back than where it started |
| Parsing.ArraySpec | src/Parser.cpp:47-61 | on success, `parse_array` returns an array and moves the cursor forward |
| Parsing.ArrayTail | src/Parser.cpp:54-60 | on success, the `parse_array` loop returns an array and moves the cursor forward |
| Parsing.ObjectSpec | src/Parser.cpp:63-77 | on success, `parse_object` returns an object and moves the cursor forward |
| Parsing.ObjectTail | src/Parser.cpp:70-76 | on success, the `parse_object` loop returns an object and moves the cursor forward |
| Parsing.MemberSpec | src/Parser.cpp:79-86 | a member starts with a String token; its key is that token's literal, and that token is returned for the duplicate-key message |
| Parsing.InsertElemSpec | src/Parser.cpp:88-94 | on success, `insert_object_elem` moves the cursor forward |
| Parsing.ParseSpec | src/Parser.cpp:20-25 | `parse`: "Empty string" at a leading Eof, else one element, then a trailing-token error unless Eof follows; `ParsingProperties.EmptyStringIff`, `TrailingTokenIff`, `ParseWellFormed` and `Parser.Parse` state it |
| Parsing.ArrayOpens | src/Parser.cpp:50-52 | after `[`, when the next token is not `]`, the array is its first element followed by the loop, and an error in that element is the array's error |
| Parsing.ArrayTailUnfold | src/Parser.cpp:54-58 | one turn of the array loop: `]` closes the array, Eof is a missing-bracket error, any other non-comma token is a missing-comma error, and a comma is followed by an element |
| Parsing.ObjectOpens | src/Parser.cpp:66-68 | after `{`, when the next token is not `}`, the object is its first member inserted into the empty map, followed by the loop |
| Parsing.ObjectTailUnfold | src/Parser.cpp:70-74 | one turn of the object loop: `}` closes the object, Eof is a missing-brace error, any other non-comma token is a missing-comma error, and a comma is followed by a member |
| Parsing.Parser.constructor | src/Parser.cpp:13-18 | a new parser holds the token array, with its cursor at 0 |
| Parsing.Parser.Parse | src/Parser.cpp:20-25 | `parse` returns exactly `ParseSpec(tokens)`, and on success the cursor rests on Eof |
| Parsing.Parser.ParseElement | src/Parser.cpp:27-31 | `parse_element` returns what `ElementSpec` gives and leaves the cursor where that function says |
| Parsing.Parser.ParseLiteral | src/Parser.cpp:33-45 | `parse_literal` returns what `LiteralSpec` gives |
| Parsing.Parser.ParseArray | src/Parser.cpp:47-61 | `parse_array` returns what `ArraySpec` gives: its loop keeps `ArraySpec(start) == ArrayTail(cursor, elements so far)` |
| Parsing.Parser.ParseObject | src/Parser.cpp:63-77 | `parse_object` returns what `ObjectSpec` gives: its loop keeps `ObjectSpec(start) == ObjectTail(cursor, members so far)` |
| Parsing.Parser.ParseObjectElem | src/Parser.cpp:79-86 | `parse_object_elem` returns what `MemberSpec` gives |
| Parsing.Parser.InsertObjectElem | src/Parser.cpp:88-94 | `insert_object_elem` returns what `InsertElemSpec` gives |
| Parsing.Parser.Match | src/Parser.cpp:100-107 | `match(k)` advances one token exactly when the current kind is k, and says whether it did |
| Parsing.Parser.Advance | src/Parser.cpp:118-121 | `advance` moves forward unless it is at Eof, and returns the token just passed (at Eof, the token before it) |
| Parsing.Parser.Peek | src/Parser.cpp:123-125 | `peek` returns the token under the cursor |
| Parsing.Parser.Previous | src/Parser.cpp:127-129 | `previous` returns the token before the cursor |
| Parsing.Parser.IsNotEnd | src/Parser.cpp:96-98 | `is_not_end`: the token under the cursor is not Eof |
| Parsing.Parser.Check | src/Parser.cpp:114-116 | `check(k)`: the token under the cursor has kind k |
| Parsing.Parser.Consume | src/Parser.cpp:131-137 | `consume(k)` advances exactly one token and returns it when the current kind is k; otherwise it fails at that token without moving |
| Parsing.ParseErrorText | src/Parser.cpp:9-11 | the parse error text is "Parse error at ", then the offending token's text, which opens with its `[line:column]`, and ends with the reason's message |
| ParsingProperties.ElementSound | src/Parser.cpp:27-45 | an element parsed is well formed, and an element's error is neither of the two that only `parse` raises and names one of the tokens |
| ParsingProperties.ArraySound | src/Parser.cpp:47-61 | the same, for `parse_array` |
| ParsingProperties.ArrayTailSound | src/Parser.cpp:54-60 | the same, for the array loop |
| ParsingProperties.ObjectSound | src/Parser.cpp:63-77 | the same, for `parse_object` |
| ParsingProperties.ObjectTailSound | src/Parser.cpp:70-76 | the same, for the object loop |
| ParsingProperties.MemberSound | src/Parser.cpp:79-86 | the same, for `parse_object_elem` |
| ParsingProperties.InsertElemSound | src/Parser.cpp:88-94 | the same, for `insert_object_elem` |
| ParsingProperties.ParseWellFormed | src/Parser.cpp:20-94 | every value `parse` returns has strictly ascending, so distinct, keys in every object, however deeply nested |
| ParsingProperties.ParseErrorToken | src/Parser.cpp:9-25 | every error `parse` raises names one of its tokens |
| ParsingProperties.EmptyStringIff | src/Parser.cpp:21 | `parse` fails with "Empty string" exactly when the first token is Eof, and the error names that token |
| ParsingProperties.TrailingTokenIff | src/Parser.cpp:22-23 | `parse` fails with a trailing-token error exactly when one whole element was read and a token other than Eof follows it; the error names that token |
| ParsingProperties.TrailingCommaInArray | src/Parser.cpp:33-56 | a comma directly before `]` fails as "Invalid literal" at the bracket |
| ParsingProperties.CommaThenEnd | src/Parser.cpp:33-45 | a comma directly before Eof fails as "Invalid literal" at the comma, because `advance` stays on Eof |
| ParsingProperties.MissingComma | src/Parser.cpp:54-55 | where the array loop expects a comma or `]`, any other token but Eof (the start of an element, a colon, a `}`) fails as a missing comma at that token |
| ParsingProperties.DuplicateKeyIff | src/Parser.cpp:88-94 | a member whose key, colon and value are all fine is rejected exactly when its key is already present; the error names the key's token |
| ParsingProperties.KeyMustBeString | src/Parser.cpp:80 | a member whose first token is not a String fails at that token |
| RoundTrip.SpellsOpens | src/Parser.cpp:27-31 | the first token of a spelled value is not Eof and not a closing token |
| RoundTrip.ElementRoundTrip | src/Parser.cpp:27-94 | `parse_element` on the tokens of a well-formed value reads that value and stops right after its last token |
| RoundTrip.ArrayElement | src/Parser.cpp:28-61 | the same, at the tokens of an array |
| RoundTrip.ObjectElement | src/Parser.cpp:29-77 | the same, at the tokens of an object |
| RoundTrip.ScalarRoundTrip | src/Parser.cpp:33-42 | a scalar is one token, and `parse_literal` reads it back |
| RoundTrip.ElementOpensArray | src/Parser.cpp:28 | at `[`, `parse_element` is `parse_array` after the bracket |
| RoundTrip.ElementOpensObject | src/Parser.cpp:29 | at `{`, `parse_element` is `parse_object` after the brace |
| RoundTrip.ArrayRoundTrip | src/Parser.cpp:47-61 | `parse_array` on the tokens of an array returns that array |
| RoundTrip.ArrayEmpty | src/Parser.cpp:50 | `[` followed by `]` is the empty array |
| RoundTrip.ArrayNonEmpty | src/Parser.cpp:52-60 | a non-empty array's tokens parse to that array |
| RoundTrip.ArrayFirst | src/Parser.cpp:52 | after the bracket, `parse_array` reads the first element and enters its loop |
| RoundTrip.ElementsRoundTrip | src/Parser.cpp:54-58 | the array loop over the remaining elements and `]` appends them in source order |
| RoundTrip.ElementsCons | src/Parser.cpp:54-57 | one remaining element: a comma, the element, then the loop on the rest |
| RoundTrip.ArrayTailElement | src/Parser.cpp:55-56 | one turn of the array loop appends the next element |
| RoundTrip.MemberRoundTrip | src/Parser.cpp:79-86 | `parse_object_elem` on the tokens of a member returns that member and its key token |
| RoundTrip.MemberStep | src/Parser.cpp:79-86 | a key, a colon and a parsed value make a member |
| RoundTrip.ObjectRoundTrip | src/Parser.cpp:63-77 | `parse_object` on the tokens of a well-formed object returns that object |
| RoundTrip.ObjectEmpty | src/Parser.cpp:66 | `{` followed by `}` is the empty object |
| RoundTrip.ObjectNonEmpty | src/Parser.cpp:68-76 | a non-empty object's tokens parse to that object |
| RoundTrip.ObjectFirst | src/Parser.cpp:68 | after the brace, `parse_object` inserts the first member into the empty map and enters its loop |
| RoundTrip.MembersRoundTrip | src/Parser.cpp:70-74 | the object loop over the remaining members, whose keys ascend, appends each of them |
| RoundTrip.MembersCons | src/Parser.cpp:70-73 | one remaining member: a comma, the member, then the loop on the rest |
| RoundTrip.ObjectTailMember | src/Parser.cpp:71-72 | one turn of the object loop appends a member whose key is above all keys read so far |
| RoundTrip.ArrayOpensWith | src/Parser.cpp:52 | after the bracket, at an element, the array continues with the loop |
| RoundTrip.ObjectOpensWith | src/Parser.cpp:68 | after the brace, at a member, the object continues with the loop |
| RoundTrip.ArrayTailStep | src/Parser.cpp:55-56 | the array loop at a comma and an element continues with that element appended |
| RoundTrip.ArrayTailClose | src/Parser.cpp:58 | the array loop at `]` returns the elements read |
| RoundTrip.ObjectTailStep | src/Parser.cpp:71-72 | the object loop at a comma and a member with a new key continues with the member inserted |
| RoundTrip.ObjectTailClose | src/Parser.cpp:74 | the object loop at `}` returns the members read |
| RoundTrip.ParseSpelled | src/Parser.cpp:20-25 | `parse` on a stream that spells a well-formed value and then ends gives that value back |
| RoundTrip.EmitWidth | src/Parser.cpp:27-94 | a value is written as exactly `Width` tokens |
| RoundTrip.EmitSpells | src/Parser.cpp:27-94 | wherever the tokens of a value occur, they spell that value |
| RoundTrip.EmitLiterals | src/Scanner.cpp:123-125 | each token of the written value carries the literal its kind calls for |
| RoundTrip.ParseRoundTrip | src/Parser.cpp:20-94 | the tokens of any well-formed value, followed by Eof, form a valid stream and parse back to that value |
| Core.ParseString | src/core.cpp:7-9 | `parse_string` (scanner, then parser) returns `ParseStringSpec(s)`, and its value is well formed |
| Core.ParseStringSpec | src/core.cpp:7-9 | the scan, then the parse of its tokens, each failure kept apart; `ParseStringStages`, `ParseStringWellFormed` and `TextRoundTrip.TextRoundTrip` state it |
| Core.ParseStringStages | src/core.cpp:7-9 | `parse_string` fails with a scan error exactly when the scan fails, and with that error; a parse error names a token the scanner produced |
| Core.ParseStringWellFormed | src/core.cpp:7-9 | every value `parse_string` returns keeps the map invariant in every object |
| Core.BlankTextIsEmptyString | src/core.cpp:8 | an empty or blank-only text fails with "Empty string" at the Eof token |
| Core.TrueFalse | src/main.cpp:12 | `true false` fails with a trailing-token error at the `false` token, at 1:6 |
| Core.TrueFalseTokens | src/Scanner.cpp:22-97 | `true false` scans to True, False and Eof, at 1:1, 1:6 and 1:6 |
| Core.UnquotedKey | src/main.cpp:10 | every text that begins like the third sample text, up to the key `d` and its colon, fails in the scanner at 1:33 with the invalid literal `d`; the parser never runs |
| Core.UnquotedKeyFrom19 | src/Scanner.cpp:86-97 | the scan of that text from index 19 on fails with the invalid literal `d` |
| Core.RepeatedKey | src/main.cpp:8 | `{ "a": 1, "a": 2 }` scans, then fails in the parser with a duplicate-key error for `a`, at the second `"a"` token (1:11) |
| Core.DuplicateKeyParse | src/Parser.cpp:88-94 | the tokens of that text fail in `parse` with the duplicate-key error at the second key token |
| Core.DuplicateKeyMembers | src/Parser.cpp:88-94 | the first member of that text is inserted, and the second is refused at its key token |
| Core.DuplicateKeyTokens | src/Scanner.cpp:22-84 | that text scans to its ten tokens, each at its own line and column |
| Core.DuplicateKeyTokensFrom5 | src/Scanner.cpp:22-84 | a part of the proof of `DuplicateKeyTokens`: the scan of that text from index 5 on gives the tokens from the first colon onwards, at their lines and columns |
| Core.DuplicateKeyTokensFrom7 | src/Scanner.cpp:22-84 | a part of the proof of `DuplicateKeyTokens`: the scan of that text from index 7 on gives the tokens from the first `1` onwards, at their lines and columns |
| Core.DuplicateKeyTokensFrom9 | src/Scanner.cpp:22-84 | a part of the proof of `DuplicateKeyTokens`: the scan of that text from index 9 on gives the tokens from the second key onwards, at their lines and columns |
| Core.DuplicateKeyTokensFrom14 | src/Scanner.cpp:22-84 | a part of the proof of `DuplicateKeyTokens`: the scan of that text from index 14 on gives the tokens from the `2` onwards, at their lines and columns |
| Core.EmptyArrayNotSerializable | src/JsonValue.cpp:151-157 | `[]` parses to the empty array, and the empty array is outside the domain of `to_string` as written |
| Core.EmptyArrayTokens | src/Scanner.cpp:22-43 | `[]` scans to its two brackets and an Eof, at 1:1, 1:2 and 1:2 |
| Core.TrailingBracket | src/Parser.cpp:23 | `[]]` fails with a trailing-token error at the second `]`, at 1:3 |
| Core.EmptyContainersSerialized | src/JsonValue.cpp:151-164 | the corrected serialiser writes `[]` and `{}` for the empty containers that `parse_string` can return |
| TextRoundTrip.ArrayText | src/JsonValue.cpp:151-157 | a non-empty array is written `[ `, its first element, each further element after `, `, then ` ]` |
| TextRoundTrip.ObjectText | src/JsonValue.cpp:158-164 | a non-empty object is written `{ `, its first member, each further member after `, `, then ` }` |
| TextRoundTrip.SpanConcat | src/Scanner.cpp:22-30 | two stretches of the scan loop, one after the other, give their tokens in order |
| TextRoundTrip.SpanTokenize | src/Scanner.cpp:22-30 | when the loop scans the whole text to a token list, `scan` returns that list followed by Eof |
| TextRoundTrip.CharSpan | src/Scanner.cpp:38-43 | a structural character scans to one token of its kind |
| TextRoundTrip.BlankSpan | src/Scanner.cpp:46-47 | a blank scans to nothing |
| TextRoundTrip.KeywordSpan | src/Scanner.cpp:86-97 | `null`, `true` or `false`, followed by a delimiter, scans to one token of that kind |
| TextRoundTrip.NumberSpan | src/Scanner.cpp:58-71 | a number text that prints as itself, followed by a delimiter, scans to one Number token holding it |
| TextRoundTrip.StringSpan | src/Scanner.cpp:74-84 | a quote, text with no quote, and a quote scan to one String token holding that text |
| TextRoundTrip.EmptySpan | src/Scanner.cpp:38-43 | `[]` and `{}` scan to their two bracket tokens |
| TextRoundTrip.ValueSpan | src/JsonValue.cpp:134-174 | the text `to_string` writes for a value, followed by a delimiter, scans to exactly the tokens of that value |
| TextRoundTrip.ArraySpan | src/JsonValue.cpp:151-157 | the same, for an array |
| TextRoundTrip.ElementsSpan | src/JsonValue.cpp:135-157 | the same, for the elements after the first, each after `, ` |
| TextRoundTrip.ObjectSpan | src/JsonValue.cpp:158-164 | the same, for an object |
| TextRoundTrip.MemberSpan | src/JsonValue.cpp:138-141 | the same, for one member: its quoted key, `: ` and its value |
| TextRoundTrip.MembersSpan | src/JsonValue.cpp:135-164 | the same, for the members after the first, each after `, ` |
| TextRoundTrip.TextTokens | src/Scanner.cpp:22-30 | the scan of the text of a value succeeds and gives the tokens of that value, positions aside, then Eof |
| TextRoundTrip.TextRoundTrip | src/core.cpp:7-9 | `parse_string` of the text the total serialiser writes for a well-formed value gives back that value, when no string or key holds a quote and each number prints as itself |
| TextRoundTrip.SerializeRoundTrip | src/JsonValue.cpp:134-174 | the same for `to_string` as written, on the values where it is defined |

Members without a row are proof steps of the members above: sequence and slice facts, the unfolding of one step of a recursive definition, or one piece of a larger proof.

## Left out

- Numbers are kept as the lexeme they were read from. The conversion by `std::stod` (src/Scanner.cpp:66) is modelled only as which lexemes it accepts (`StodAccepts`). Two things are left out: which double a lexeme gives, and the out-of-range error. `stod` accepting only a prefix, as in `1-2`, is kept: such a lexeme is accepted.
- Printing a double to a stream (src/Token.cpp:34, src/JsonValue.cpp:146-150) is a parameter `showNumber`, because floating-point formatting is outside the model.
- `JsonException` and its message texts are modelled as `Result` error values. The texts are functions of them (`ScanErrorText`, `ParseErrorText`, `CastMessage`). Throwing and catching are not modelled.
- `isalpha`, `isdigit` and `tolower` are taken in the "C" locale, as ASCII tests. They receive a plain `char` (src/Scanner.cpp:50, src/Scanner.cpp:100). Where `char` is signed, a byte of 0x80 or above is a negative argument, and the behaviour is undefined. The model gives the answer these functions give for that byte cast to `unsigned char`: it is in no character class, so `scan_token` reports it as an invalid character.
- Escape and `\u` decoding are declared in include/json_parser/detail/Scanner.h but never implemented, so they are not modelled.
- The mutable-reference accessors `string()&`, `array()&` and `object()&` are modelled by the payload they return. Changing a value through the returned reference is not modelled.
- The `match(initializer_list)` overload (src/Parser.cpp:109-112) is never called, so it is not modelled.
- `Json` holds no separate tag field: the datatype constructor is the tag, so tag and payload cannot disagree.
- `std::map` is modelled as a member list in strictly ascending key order, and `map::insert` as `Insert`.
- `transform_reduce` is modelled as the in-order left fold that a sequential implementation applies. The C++ standard leaves both the order and the grouping of the reduction unspecified (the sum may be formed over any permutation). `separate_by_space` (src/JsonValue.cpp:135-137) is associative but not commutative, so another order could write the parts in another order. That freedom is not modelled.
- A `char` of the model stands for one byte (one `char`) of the C++ `std::string`. With that reading nothing is lost. `advance` counts bytes, so a column counts bytes on non-ASCII text (src/Scanner.cpp:108-117). The invalid-character message holds one byte (src/Scanner.cpp:51). `StrLess` compares characters as `std::string` compares bytes, as unsigned values, which for UTF-8 text is also code-point order. Decoding UTF-8 into code points is not modelled.
- The `Token` constructor (src/Token.cpp:7-14) is the datatype constructor, which stores its four arguments unchanged.
- Line and column are unbounded `nat`s. The scanner's counters are `std::size_t` (include/Scanner.h:37-42), and `Scanner::error` prints them unchanged (src/Scanner.cpp:130). `Token::line` and `Token::column` are `int` (include/Token.h:31-32), and `add_token` narrows the counters into them (src/Scanner.cpp:124). A position above INT_MAX would then be stored wrapped in a token, and so printed wrapped by `Token::to_string` and in a parse-error text (src/Token.cpp:21). That narrowing is not modelled.
- RoundTrip.ParseRoundTrip: the round trip runs from a value to its tokens and back, and the tokens carry no positions. The trip through text is `TextRoundTrip.TextRoundTrip`. It holds only for values with no quote in any string or key, because `to_string` writes strings and keys between quotes without escaping them (src/JsonValue.cpp:140, src/JsonValue.cpp:145). It also needs each number to print as its own lexeme, because the number printer is a parameter.
- TextRoundTrip.TextRoundTrip, TextRoundTrip.SerializeRoundTrip: they require `Plain`. Every number must print as itself and be a lexeme `stod` accepts, and no string or key may hold a quote. A string such as `a"b` is written as `"a"b"`, which does not scan back to it.
- Core.UnquotedKey, Core.RepeatedKey, Core.TrueFalse: the sample texts are given character by character in the requires clause rather than as one string literal. Core.RepeatedKey uses a shortened text with the same duplicate key, not the full first sample text.

## Findings

| source | as written | input that shows it | evidently intended | confidence | as-written member | corrected member |
|---|---|---|---|---|---|---|
| src/JsonValue.cpp:151-164 | `array_ts` and `object_ts` start the fold at `*v.begin()`, which is undefined for an empty container | `[]`, which `parse_string` accepts and returns as the empty array | every value `parse_string` returns can be written back, so an empty array or object is written as `[]` or `{}`, the text that parses to it |  not executed | JsonValue.Serialize, Core.EmptyArrayNotSerializable | JsonValue.SerializeTotal, JsonValue.SerializeTotalAgrees, Core.EmptyContainersSerialized |
