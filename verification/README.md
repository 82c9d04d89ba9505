# DCS verification

Dafny models of the hardest parts of the detector control system, with proofs. `dafny verify
dfyconfig.toml` checks everything.

## What is modelled

**The JSON codec** (`deps/src/ua_types_encoding_json.c`, `deps/src/jsmn.cpp`), which implements
section 5.4 of OPC 10000-6 in its reversible form.

- A JSON tree (`JsonTree`), its canonical text `Render` and its preorder token list `Preorder` are the
  specification. `Jsmn` describes the strict tokenizer as a state machine over (position, tokens,
  super token); `JsmnParser` is the tokenizer as it runs, with its three fields, its token array and
  its back-scans.
- `UaTypes` maps OPC UA values to trees. `JsonWriter` is the encoder as it runs: a cursor, a depth
  and the `commaNeeded` array, in its writing and its size-only mode.
- `TokenWalk` and `Decoder` say what skipping, looking ahead, field dispatch and decoding compute for
  *every* token array; `ParseCtx` is the decoder as it runs, one index moved by loops and recursion.
- `JsmnTree` (tokenizing undoes writing, with any white space; `SpacedJson` has the trees), `JsmnRejects`
  (what is refused), `JsmnStack` (on every text the back-scans do what a stack of open containers would),
  `JsmnCount` (the counting pass), `JsmnProps` (what else holds on any text), `FieldDispatch`,
  `RoundTrip`, `EndToEnd`, `Weights`, `Spending`, `ReadBack`, `UnknownKeys`, `WhiteSpace` and
  `SpacedDecoding` hold the theorems.
  `ReadBack.ReadsBack` gives the exact condition under which a value comes back from its text.  It rests
  on `Spending`: wherever a decoder starts, it uses at most the weight the value is written with, in a
  measure (`Weights`) for which a namespace and its key count nothing.
- `JsonText`, `EscapeLaws`, `GuidLaws` and `DecoderLaws` say the same things once more without the functions
  the code is proved against: the emitted texts with their names and marks as literals, every JSON escape
  by the value of its digits, Guids by their digit groups, and what decoders make of texts the encoder
  never writes.
- Integers are read as in the default build, by `strtoull` and `strtoll` (`ParseInteger`, after section
  7.22.1.4 of ISO/IEC 9899:2011). `atoi.c`, which replaces them only where `UA_ENABLE_CUSTOM_LIBC` is
  defined, is modelled on its own in `Itoa`.

**The codecs below it**: UTF-8 and string escapes (`Utf8`, `StringCodec`), decimal numerals (`Itoa`),
base64 (`Base64`), and Gregorian time (`LibcTime`). Each has a reference that does not follow the code:
the grammar in section 4 of RFC 3629, the value of a digit row, the bits of the input as in section 4 of
RFC 4648 (`Base64Laws`: for every text given to the decoder), and a calendar that counts days year by year.

**The device side**: `Worker` (two queues and a flag behind a mutex), `Pipeline` and `Server` (from a
client's call through the dispatcher to the device thread), `Recovery`, `Devices` and
`DeviceController` (connect, disconnect, errors, crash and restart), `Influx` and `InfluxLaws` (history
lines, their batching and sending). Every section under a mutex is one step; theorems are about all
sequences of steps, which are all interleavings. A device is represented by whether it answers; the recovery file by a map; the
server's request queue is FIFO and its callback runs once per request. The histories in the states (`log`,
`arrived`, `appended`, `batches`) record what happened and influence nothing.

## Where the code differs from what it says, or from what one expects

- A tokenizer that runs out of slots ends `UA_decodeJson` with a decoding error, not with
  out-of-memory: the check that all tokens were used replaces the status (`ParseCtx.DecodeText`).
- The decoders of an empty byte string and of an empty array do not move the index. A value with one
  of them anywhere but in its very last place is not read back (`ReadBack.ReadsBack`).
- `atoiSigned` cannot read `INT64_MIN`: its digits leave the accumulator (`Itoa.SignedRoundTrip`). This
  concerns only builds that define `UA_ENABLE_CUSTOM_LIBC`; the default build reads it back
  (`ParseInteger.BuildsAgree`).
- Unpadded base64 of length 4k+2 decodes to nothing (`Base64.UnpaddedRoundTrip`), unless its last symbol
  but one is an equals sign; dot and comma are read like plus and slash (`Base64Laws`).
- Any primitive that begins with `null` is read as null where null is allowed (`DecoderLaws.StringsRead`),
  and the first character of `IdType` decides, so that 25 announces a Guid (`DecoderLaws.FirstCharacter`).
- The digits of a `\u` escape may be any letters for the string decoder (`EscapeLaws.LetterDigits`); the
  tokenizer has refused all but hexadecimal ones before (`JsmnStack.WrongEscape`).
- A timestamp before 1970 makes a history line wrap around (`InfluxLaws.EarlyLineWritten`).
- `__secs_to_tm` checks the year before it increments it: of the seconds it accepts, exactly those from
  67768036191676800 on, the start of the year after `INT_MAX`, give a year that is no int
  (`LibcTime.SecsToTm`, `LibcTime.YearOverflow`).
- A bare number, bool or null is not a text the strict tokenizer accepts (`JsmnTree.RejectsBarePrimitive`);
  with one more byte it is accepted exactly if that is white space or a comma (`JsmnTree.AcceptsDelimited`).
- A key no entry has ends the loop of `decodeFields` without an error. Where no structure around knows
  the key either, the text is refused all the same, because tokens are left over: in any nest of
  structures without arrays of structures (`UnknownKeys.UnknownKeyRefused`). Otherwise it can pass
  unnoticed: in an array of structures the next element is read from what is left of the one with the
  key (`UnknownKeys.UnknownNestedKey`), and a structure around that knows the key reads its value
  (`UnknownKeys.KeyKnownAround`).
- The recursion check of `encodeJsonStructure` comes too late for the comma array, and arrays, NodeIds,
  QualifiedNames and LocalizedTexts have none. A value that is encodable and fits makes the encoder write
  a flag behind the array if and only if `UaTypes.Reach`, a function of type and value, is a hundred or
  more (`JsonWriter.CtxJson.Encode`, `JsonWriter.CalcSize`); the check never refuses anything before
  that. Fifty nested structures get there, and forty-nine around an array with a NodeId
  (`JsonWriter.ChecksComeLate`).

## Model

| member | source | states |
|---|---|---|
| JsmnParser.JsmnParser.Parse | deps/src/jsmn.cpp:153-305 | the loop over the characters, with or without tokens, returns what the state machine `Run` (or `CountRun`) returns and leaves its state, from every valid state on every text; `JsmnTree.TokenizesSpaced`, `JsmnStack.SameAsStack` and `JsmnCount.CountsTokens` say what those are |
| JsmnParser.JsmnParser.ParsePrimitive | deps/src/jsmn.cpp:37-81 | a primitive ends at its delimiter, which is left to be read again; a cut, malformed or unallocatable one restores the position and allocates nothing |
| JsmnParser.JsmnParser.ParseString | deps/src/jsmn.cpp:86-148 | a string token spans exactly the body up to the first unescaped quote, all escapes being well formed; any failure restores the position and allocates nothing |
| JsmnParser.JsmnParser.AllocToken | deps/src/jsmn.cpp:8-21 | a token is appended exactly when there is a slot |
| JsmnParser.JsmnParser.FindOpen | deps/src/jsmn.cpp:211-230 | the back-scan finds the last open token, or the last open container |
| JsmnParser.JsmnParser.Close | deps/src/jsmn.cpp:184-232 | a bracket closes the last open token if the types agree and makes the next open one the super token; otherwise it is an error |
| JsmnParser.JsmnParser.Open | deps/src/jsmn.cpp:166-183 | an opening bracket allocates an open token, counts it in its super token and becomes the super token |
| JsmnParser.JsmnParser.Comma | deps/src/jsmn.cpp:245-262 | a comma after a member returns to the innermost open container |
| JsmnStack.SameAsStack | deps/src/jsmn.cpp:153-305 | on every text, valid or not, and with any number of slots: what the call returns and the tokens it leaves are those of a machine that keeps the open containers on a stack instead of scanning backwards, every character of it spelled out |
| JsmnStack.MoveIsStep | deps/src/jsmn.cpp:160-293 | the same for every character |
| JsmnStack.PrimitiveEnds | deps/src/jsmn.cpp:37-81 | a primitive ends at the first character that cannot be inside: at a delimiter it is found, at the end of the text or a NUL it is partial, at any other it is invalid |
| JsmnStack.StringCut | deps/src/jsmn.cpp:86-148 | a string that breaks off behind well-formed characters and escapes is partial |
| JsmnStack.WrongEscape | deps/src/jsmn.cpp:116-144 | a string with another character behind a backslash, or a unit with another byte among its digits, is invalid |
| JsmnStack.Escapes | deps/src/jsmn.cpp:116-144 | the characters behind a backslash, spelled out |
| JsmnStack.HexDigits | deps/src/jsmn.cpp:116-144 | the digits of a unit, spelled out |
| JsmnCount.CountsTokens | deps/src/jsmn.cpp:158-170 | on every row of lexemes, brackets matched or not, the counting pass returns the number of opening brackets, primitives and strings |
| JsmnTree.TokenizesSpaced | deps/src/jsmn.cpp:153-305 | for every tree and any white space around its brackets, commas, colons, keys and values: the tokens are those of the tree, each leaf and key spanning its own text, and the call returns their number; with fewer slots it returns -1; the counting pass gives the same number |
| JsmnTree.TokenizesTree | deps/src/jsmn.cpp:153-305 | the same for the text without white space: its tokens are the preorder list of the tree |
| WhiteSpace.SpacedTokens | deps/src/jsmn.cpp:240-241 | with white space, the tokens have the types, sizes and texts of the preorder list of the tree without it |
| JsmnTree.ValueRun | deps/src/jsmn.cpp:153-305 | anywhere in a text and in any state, reading one value appends its tokens at its position and counts it once in its parent, white space inside or not |
| JsmnTree.RejectsBarePrimitive | deps/src/jsmn.cpp:37-81 | a primitive alone is never accepted: strict mode waits for a delimiter |
| JsmnTree.AcceptsDelimited | deps/src/jsmn.cpp:37-81 | followed by one more byte it is one token if and only if that byte is white space or a comma, and the error otherwise is named for every byte |
| JsmnRejects.StringIffBody | deps/src/jsmn.cpp:86-148 | a quoted text is one string token if and only if it is a sequence of plain characters and well-formed escapes |
| JsmnRejects.CutTextIsPart | deps/src/jsmn.cpp:295-302 | a text cut anywhere inside its object, array or string returns -3 |
| JsmnRejects.RejectedInArray | deps/src/jsmn.cpp:184-232 | behind any elements of an array, a brace or a stray byte returns -2 |
| JsmnRejects.RejectedInObject | deps/src/jsmn.cpp:263-291 | behind any members of an object, a square bracket, a stray byte or the start of a primitive returns -2: a primitive is no key and no second value |
| JsmnRejects.RejectedAtRoot | deps/src/jsmn.cpp:184-291 | after any complete text, a closing bracket or a stray byte returns -2 |
| JsmnProps.Resume | deps/src/jsmn.cpp:153-305 | stopping at any cut of the input, or for lack of slots, and calling again on the longer text with at least as many slots gives the same result, tokens and state as one call |
| JsmnProps.MoreSlots | deps/src/jsmn.cpp:171-173 | a call that does not run out of slots gives the same result with any larger number of slots, and never uses more than it has |
| JsmnProps.CountAgrees | deps/src/jsmn.cpp:158-170 | on every text, a successful call with tokens returns the number of the counting pass |
| JsmnProps.StepShape | deps/src/jsmn.cpp:160-293 | every character keeps: starts strictly increase, any two spans are nested or disjoint, only containers are open, and the super token is valid |
| JsmnProps.RunShape | deps/src/jsmn.cpp:153-305 | over whole runs on any text the shape is kept, the sizes add up to the tokens minus those allocated without a super token, and a non-negative return leaves nothing open |
| JsmnProps.ParsedTokens | deps/src/jsmn.cpp:153-305 | what a caller gets from a successful call: closed spans inside the text, increasing, nested or disjoint, with the sizes adding up |
| Utf8.AcceptsGrammar | deps/src/string_escape.c:32-148 | reading accepts a character exactly when the grammar of section 4 of RFC 3629 does |
| Utf8.IterateIsCanonical | deps/src/string_escape.c:124-148 | what is accepted is exactly the encoding of the reported code point, which is no surrogate and at most 0x10FFFF |
| Utf8.IterateEncode | deps/src/string_escape.c:151-185 | every non-surrogate code point up to 0x10FFFF is read back from its encoding; encoded surrogates are refused |
| Utf8.CheckFullLoop | deps/src/string_escape.c:68-122 | the accumulator loop computes the checked value of a multi-byte character, or rejects it |
| EscapeLaws.OrderKept | deps/src/string_escape.c:151-185 | a smaller code point has the smaller bytes, in dictionary order |
| StringCodec.EscapesUtf8 | deps/src/ua_types_encoding_json.c:545-569 | escaping succeeds exactly on valid UTF-8 text |
| StringCodec.ReachedEscapes | deps/src/ua_types_encoding_json.c:582-634 | only one-byte characters are escaped; the slash branch and the surrogate-pair branch are never reached |
| StringCodec.EscapedIsBody | deps/src/jsmn.cpp:86-148 | the escaped text is one complete string body for the tokenizer |
| StringCodec.UnescapeLoop | deps/src/ua_types_encoding_json.c:2107-2175 | the decoding loop never writes more bytes than the token has, and computes `Unescape`, which the next rows fix escape by escape |
| StringCodec.DecodeHex4Loop | deps/src/string_escape.c:188-206 | the loop over four digits gives their number or fails |
| EscapeLaws.EscapeReads | deps/src/ua_types_encoding_json.c:2142-2171 | every code point but the surrogates, up to 0x10FFFF: a unit, or a pair from 0x10000 on, whose digits in either case write it, decodes to its UTF-8 |
| EscapeLaws.DigitsFor | deps/src/string_escape.c:188-206 | every number of sixteen bits is written by four digits |
| EscapeLaws.UnitReads | deps/src/ua_types_encoding_json.c:2142-2171 | the same for one unit anywhere in a string: the rest is decoded behind it |
| EscapeLaws.PairReads | deps/src/ua_types_encoding_json.c:2151-2161 | the same for a pair of surrogates anywhere in a string |
| EscapeLaws.LowAlone | deps/src/ua_types_encoding_json.c:2162-2165 | a low surrogate in front is refused, and so is a reversed pair |
| EscapeLaws.HighAlone | deps/src/ua_types_encoding_json.c:2151-2159 | a high surrogate is refused when the text ends too soon, no unit follows, or one that is no low surrogate |
| EscapeLaws.ShortReads | deps/src/ua_types_encoding_json.c:2127-2139 | each of the eight two-character escapes, the slash included, gives its character |
| EscapeLaws.OtherEscapes | deps/src/ua_types_encoding_json.c:2122-2139 | any other character after a backslash is refused, and so is a backslash at the end |
| EscapeLaws.ShortUnit | deps/src/ua_types_encoding_json.c:2143-2144 | a unit with fewer than four bytes is refused |
| EscapeLaws.LetterDigits | deps/src/string_escape.c:188-206 | the digits of a unit are 0 to 9 and a to z in either case, by their place; with any other byte it is refused |
| EscapeLaws.PlainReads | deps/src/ua_types_encoding_json.c:2117-2120 | a byte that is no backslash stands for itself |
| EscapeLaws.CopiedOrEscaped | deps/src/ua_types_encoding_json.c:550-569 | the encoder copies every character from the space on but quote and backslash, and refuses what is no UTF-8 |
| EscapeLaws.WrittenEscapes | deps/src/ua_types_encoding_json.c:582-604 | the escapes of quote, backslash and each control character, spelled out |
| EscapeLaws.OtherWritten | deps/src/ua_types_encoding_json.c:593-632 | the escape of any other code point: one unit of four lower-case digits that write it, or its pair of surrogates |
| StringCodec.StringRoundTrip | deps/src/ua_types_encoding_json.c:526-646 | for every byte string: encodable iff UTF-8, the escaped body is at least as long as the string, and unescaping it gives the string |
| Itoa.NumeralIs | deps/src/itoa.c:42-67 | the numeral has no leading zero and its digits have the value of the number, in every base |
| Itoa.NumeralUnique | deps/src/itoa.c:42-67 | no other row of digits without leading zero has that value |
| Itoa.NumeralLength | deps/src/ua_types_encoding_json.c:277-393 | a decimal numeral has at most k digits exactly when the number is below 10^k |
| Itoa.DigitsAre | deps/src/itoa.c:42-67 | the digits are 0 to 9 and A to Z |
| Itoa.BuffersFit | deps/src/ua_types_encoding_json.c:277-393 | the stack buffers of 4, 5, 6, 7, 11, 12 and 23 bytes hold the longest numeral of their type with sign, quotes and NUL |
| Itoa.Reverse | deps/src/itoa.c:34-39 | in place, the first bytes are reversed and the others kept |
| Itoa.ReversedAt | deps/src/itoa.c:34-39 | each byte of the reversal is the mirrored one |
| Itoa.Digits | deps/src/itoa.c:46-59 | the digit loop leaves the numeral reversed at the front of the buffer |
| Itoa.ItoaUnsigned | deps/src/itoa.c:42-67 | the buffer holds the numeral of the value, NUL terminated |
| Itoa.ItoaSigned | deps/src/itoa.c:70-114 | the same for all of int64, INT64_MIN included |
| Itoa.AtoiUnsigned | deps/src/atoi.c:25-48 | a non-empty row of digits, leading zeros or not, is read as its value modulo 2^64; anything else is rejected |
| Itoa.AtoiSigned | deps/src/atoi.c:50-79 | a number read is the value of the digits, negated after a minus, and nothing follows them |
| Itoa.AtoiUnsignedReads | deps/src/atoi.c:25-48 | the loop of the unsigned conversion computes that value, for every text |
| Itoa.AtoiSignedReads | deps/src/atoi.c:50-79 | for every text: the signed accumulator overflows exactly when the number of the leading digits exceeds INT64_MAX, whatever follows; otherwise the text is malformed exactly when something follows the digits |
| Itoa.UnsignedRoundTrip | deps/src/atoi.c:25-48 | every uint64 is read back from its numeral |
| Itoa.SignedRoundTrip | deps/src/atoi.c:50-79 | an int64 is read back from its numeral iff it is not INT64_MIN, whose digits overflow |
| ParseInteger.PartsOf | deps/src/ua_types_encoding_json.c:1703-1704 | every text can be parted into white space, a sign, digits and a rest, as the C standard does |
| ParseInteger.Characters | deps/src/ua_types_encoding_json.c:1703-1704 | white space is the six characters of the C locale, a sign plus or minus |
| ParseInteger.UnsignedReads | deps/src/ua_types_encoding_json.c:1684-1717 | so parted, a number is read if and only if the text has at most twenty characters, there are digits and their value is below 2^64; it is that value, or its negative modulo 2^64 behind a minus |
| ParseInteger.SignedReads | deps/src/ua_types_encoding_json.c:1722-1754 | the same with the sign and the range of int64 |
| ParseInteger.UnsignedReadBack | deps/src/ua_types_encoding_json.c:1684-1717 | every uint64 is read back from its numeral, which fits the limit of twenty characters |
| ParseInteger.SignedReadBack | deps/src/ua_types_encoding_json.c:1722-1754 | every int64, INT64_MIN included, is read back from its numeral |
| ParseInteger.BuildsAgree | deps/src/ua_types_encoding_json.c:1658-1754 | on what the encoder writes, the two builds read the same number, except that the one with the custom libc overflows on INT64_MIN |
| Base64.Encode | deps/src/base64.c:17-56 | the loop and the padded tail write the base64 of section 4 of RFC 4648, of length 4*ceil(n/3) |
| Base64.EncodeGroups | deps/src/base64.c:34-40 | after each round the output is a prefix of the reference text |
| Base64.SextetIs | deps/src/base64.c:35-38 | the shifts and masks cut out the six bits the reference names |
| Base64.DecodeLoop | deps/src/base64.c:69-115 | the loop and the padded group compute `Decode` for every input, well formed or not |
| Base64.DecodeGroups | deps/src/base64.c:86-92 | each round adds the three bytes of one group |
| Base64.RoundTrip | deps/src/base64.c:69-115 | decoding the encoding of every non-empty byte string gives it back |
| Base64.UnpaddedRoundTrip | deps/src/base64.c:76-111 | without its padding a text is decoded iff the byte string's length is not 3k+1 |
| Base64Laws.SymbolIs | deps/src/base64.c:13-14 | the alphabet of the encoder, spelled out |
| Base64Laws.ReadAs | deps/src/base64.c:58-66 | the decoder reads it back, dash and dot as plus, underline and comma as slash, every other byte as zero |
| Base64Laws.DecodesBits | deps/src/base64.c:69-115 | for every text, well formed or not: how many bytes it decodes to, and that their bits are those of the symbols, six by six, the last ones cut off |
| LibcTime.MonthToSecs | deps/src/libc_time.c:79-85 | the table entry, moved by the leap day, is the start of the month in the reference calendar |
| LibcTime.InCycle | deps/src/libc_time.c:100-120 | the branches on the remainder give centuries, leap days and the leap-year rule of the 400-year cycle |
| LibcTime.YearToSecs | deps/src/libc_time.c:87-125 | for every year, the seconds to its start in the reference calendar, and whether it is a leap year |
| LibcTime.TmToSecs | deps/src/libc_time.c:127-147 | for every field value, months outside 0..11 included, the seconds the reference calendar gives |
| LibcTime.MonthsCarry | deps/src/libc_time.c:131-139 | moving the month by 12k equals moving the year by k |
| LibcTime.SplitDays | deps/src/libc_time.c:33-52 | the division cascade by cycles, centuries, four years and years splits the days into a March-based year and the days into it |
| LibcTime.MonthLoop | deps/src/libc_time.c:54-55 | the month loop stops inside the table, at the month of the day |
| LibcTime.SecsToTm | deps/src/libc_time.c:14-72 | accepts a second exactly if it lies from 1 March of year INT_MIN to the end of February of year INT_MAX + 1, and gives the valid Gregorian date that means it; the year is no int exactly from 1 January of year INT_MAX + 1 on |
| LibcTime.DateUnique | deps/src/libc_time.c:127-147 | two valid dates that mean the same second are equal |
| LibcTime.SecondsRoundTrip | deps/src/libc_time.c:14-147 | every accepted second comes back through both conversions |
| LibcTime.DateRoundTrip | deps/src/libc_time.c:14-147 | every valid date with an int year comes back, except January and February of the least year, which are refused |
| LibcTime.YearOverflow | deps/src/libc_time.c:57-65 | the second 67768036191676800 is accepted, as 1 January of year INT_MAX + 1 |
| LibcTime.AcceptedDates | deps/src/libc_time.c:57-65 | from the second alone one can tell whether its date passes the range check of the year, and whether the year overflows after it |
| LibcTime.MonthOrder | deps/src/libc_time.c:127-147 | a valid date lies before the start of a month exactly when its year and month do |
| JsonWriter.CtxJson.WriteChar | deps/src/ua_types_encoding_json.c:91-99 | a character is added exactly when the cursor is before the end; the size-only mode moves the cursor the same way |
| JsonWriter.CtxJson.ObjStart | deps/src/ua_types_encoding_json.c:109-114 | one level deeper, with a fresh comma flag, which lies behind the array exactly from level a hundred on |
| JsonWriter.CtxJson.ObjEnd | deps/src/ua_types_encoding_json.c:116-120 | one level up, and the next sibling needs a comma |
| JsonWriter.CtxJson.CommaIfNeeded | deps/src/ua_types_encoding_json.c:134-138 | a comma is written exactly for a level that has a sibling already |
| JsonWriter.CtxJson.Key | deps/src/ua_types_encoding_json.c:217-238 | comma, quoted name and colon, if the conservative room check passes, and the level needs a comma from then on |
| JsonWriter.CtxJson.ScanPlain | deps/src/ua_types_encoding_json.c:550-569 | the scan stops at the first character that needs an escape, or at the end, or fails at malformed UTF-8 |
| JsonWriter.CtxJson.StringBody | deps/src/ua_types_encoding_json.c:545-642 | the escaped text is written iff the bytes are UTF-8 and it fits |
| JsonWriter.CtxJson.String | deps/src/ua_types_encoding_json.c:526-646 | a null pointer becomes null, an empty string two quotes, a UTF-8 string its escaped body in quotes, iff it fits |
| JsonWriter.CtxJson.ByteString | deps/src/ua_types_encoding_json.c:648-682 | null or quoted base64, iff it fits |
| JsonWriter.CtxJson.Guid | deps/src/ua_types_encoding_json.c:722-732 | the quoted 36 characters of the Guid, iff they fit |
| JsonWriter.GuidToHex | deps/src/ua_types_encoding_json.c:684-720 | the five groups of hexadecimal digits of the Guid, separated by dashes, written in place |
| GuidLaws.WritesGroups | deps/src/ua_types_encoding_json.c:684-720 | the text of a Guid: capital digits in groups of 8, 4, 4, 4 and 12 with dashes between, whose numbers are the fields of the Guid in order |
| JsonWriter.CtxJson.NodeId | deps/src/ua_types_encoding_json.c:776-838 | success appends exactly `{`, `"IdType":1,` for a string, 2 for a Guid, 3 for a byte string, nothing for a number, `"Id":` with the identifier, `,"Namespace":` with the namespace unless zero, and `}`; it succeeds iff the string is UTF-8 and all of it fits |
| JsonWriter.CtxJson.QualifiedName | deps/src/ua_types_encoding_json.c:943-976 | success appends exactly `{"Name":`, the name, `,"Uri":` with the namespace unless zero, and `}`; it succeeds iff the name is UTF-8 and all of it fits |
| JsonWriter.CtxJson.LocalizedText | deps/src/ua_types_encoding_json.c:927-941 | success appends exactly `{"Locale":`, the locale, `,"Text":`, the text and `}`; it succeeds iff both are UTF-8 and all of it fits |
| JsonWriter.CtxJson.Elements | deps/src/ua_types_encoding_json.c:507-512 | the loop writes the elements with commas exactly between them, iff all are encodable and fit |
| JsonWriter.CtxJson.Array | deps/src/ua_types_encoding_json.c:501-515 | the elements in brackets, the depth restored, iff it fits |
| JsonWriter.CtxJson.Fields | deps/src/ua_types_encoding_json.c:1394-1413 | the loop writes the members with commas exactly between them, iff all are encodable and fit |
| JsonWriter.CtxJson.Structure | deps/src/ua_types_encoding_json.c:1382-1419 | the members in braces, the two depth levels restored, iff it fits |
| JsonWriter.CtxJson.Encode | deps/src/ua_types_encoding_json.c:1461-1464 | for every value and at every depth: a flag behind the comma array is written only if depth plus `Reach` is a hundred or more, and for an encodable value with room exactly then; otherwise it succeeds iff the value is encodable and the canonical rendering of its tree fits, appends exactly that rendering, restores the depth and keeps the comma flags below |
| JsonText.LeafWritten | deps/src/ua_types_encoding_json.c:241-732 | the text of every leaf: true and false, decimal digits with a minus, quoted from 64 bits on, strings, byte strings and Guids in quotes, null without |
| JsonText.NodeIdWritten | deps/src/ua_types_encoding_json.c:776-838 | the canonical text of a NodeId is that literal text |
| JsonText.QualifiedNameWritten | deps/src/ua_types_encoding_json.c:943-976 | the same for a QualifiedName |
| JsonText.LocalizedTextWritten | deps/src/ua_types_encoding_json.c:927-941 | the same for a LocalizedText |
| JsonText.ArrayWritten | deps/src/ua_types_encoding_json.c:501-515 | the text of an array: the texts of its elements, with commas between and in square brackets |
| JsonText.StructureWritten | deps/src/ua_types_encoding_json.c:1382-1419 | the text of a structure: each name in quotes, a colon and the text of the field, with commas between and in braces |
| JsonWriter.ChecksComeLate | deps/src/ua_types_encoding_json.c:1382-1392 | the encoder, run on fifty nested structures and on forty-nine around an array with a NodeId, writes behind the comma array; with that array empty it does not, although the type has a hundred levels |
| JsonWriter.NestedReach | deps/src/ua_types_encoding_json.c:1382-1419 | each structure around a value takes the encoder two levels deeper, with seven characters more |
| UaTypes.ReachWithin | deps/src/ua_types_encoding_json.c:109-126 | no value of a type goes deeper than the type has levels |
| JsonWriter.CalcSize | deps/src/ua_types_encoding_json.c:1498-1524 | the size-only pass yields the length of the canonical text, zero if there is none, unless it leaves the comma array: exactly if the `Reach` of a value that has a text is a hundred or more |
| JsonWriter.EncodeJson | deps/src/ua_types_encoding_json.c:1466-1495 | within the comma array, left under the same condition, the buffer starts with the canonical text iff it has room for it, and the cursor never passes the end |
| JsonWriter.SizePredictsWrite | deps/src/ua_types_encoding_json.c:1466-1524 | with size n from the size pass, the write pass succeeds iff the buffer has at least n bytes, and then writes exactly n, despite the stricter room check of keys |
| TokenWalk.SkipsValue | deps/src/ua_types_encoding_json.c:1573-1580 | on the tokens of a tree, skipping by span ends just past the value |
| TokenWalk.JumpsValue | deps/src/ua_types_encoding_json.c:2318-2365 | on the tokens of a tree, the child counts lead just past a container and stay on anything else |
| TokenWalk.JumpsLeaves | deps/src/ua_types_encoding_json.c:2318-2365 | over leaves whose number a container overstates, an object ends at the last token and an array reads past it |
| TokenWalk.SearchesLeaves | deps/src/ua_types_encoding_json.c:2245-2303 | over leaves, as many as the object's count says or not: found, out of range when the value is missing, not found, or a decoding error when the tokens end too soon |
| TokenWalk.SearchNested | deps/src/ua_types_encoding_json.c:2245-2303 | below the top layer a search finds nothing and ends just past the container |
| TokenWalk.LooksAhead | deps/src/ua_types_encoding_json.c:2245-2315 | on an object, the look-ahead is good iff a top-layer key matches and then reports the value of the first such key; nested keys are ignored |
| FieldDispatch.FindsEntry | deps/src/ua_types_encoding_json.c:3054-3064 | from whatever entry the search starts, it finds the one with the key's name, or none if there is none |
| FieldDispatch.DispatchesAnyOrder | deps/src/ua_types_encoding_json.c:3052-3095 | for known keys in any order, the loop succeeds iff no key is repeated; then each key's decoder has decoded that key's value, exactly the present keys are found, and the index is just past the members |
| FieldDispatch.DecodesFields | deps/src/ua_types_encoding_json.c:3033-3097 | the same for decodeFields on a whole non-empty object |
| FieldDispatch.UnknownTokenStops | deps/src/ua_types_encoding_json.c:3052-3095 | at a token no entry matches, the loop makes no more progress and reports success |
| FieldDispatch.UnknownKeyStops | deps/src/ua_types_encoding_json.c:3052-3095 | so an unknown key and everything after it is left unread |
| UnknownKeys.UnknownKeyLeavesTokens | deps/src/ua_types_encoding_json.c:3052-3095 | with a key no structure around it knows, in the object or in one inside, the loop fails or leaves at least that key and its value unread |
| FieldDispatch.EmptyObject | deps/src/ua_types_encoding_json.c:3049-3050 | an empty object is refused exactly when it is the last token |
| RoundTrip.JsonWf | deps/src/ua_types_encoding_json.c:1461-1464 | the tree of every encodable value can be tokenized: escaped strings and numbers have the form the tokenizer accepts |
| RoundTrip.GuidBack | deps/src/ua_types_encoding_json.c:2039-2057 | every Guid is read back from its 36 characters |
| RoundTrip.DecodesLeaf | deps/src/ua_types_encoding_json.c:1633-2217 | integers, strings, byte strings, bools and Guids come back, null and empty kept apart, one token further; only the empty byte string does not move |
| RoundTrip.QualifiedNameBack | deps/src/ua_types_encoding_json.c:2231-2241 | a QualifiedName comes back and the index is just past it |
| RoundTrip.LocalizedTextBack | deps/src/ua_types_encoding_json.c:2219-2229 | a LocalizedText comes back and the index is just past it |
| RoundTrip.NodeIdBack | deps/src/ua_types_encoding_json.c:2378-2474 | a NodeId with a number, string, Guid or non-empty byte string comes back and the index is just past it |
| RoundTrip.ArrayBack | deps/src/ua_types_encoding_json.c:3099-3140 | a non-empty array comes back element by element |
| RoundTrip.StructureBack | deps/src/ua_types_encoding_json.c:3148-3191 | a structure comes back member by member within the recursion limit |
| RoundTrip.DecodesValue | deps/src/ua_types_encoding_json.c:3263-3268 | wherever the tokens of a value whose decoders move on stand in a token array, decoding there gives the value and ends just past it |
| EndToEnd.DecodesTree | deps/src/ua_types_encoding_json.c:3238-3320 | decoding the text of a tree is decoding its preorder list from the first token, and fails if it has more than a thousand tokens |
| EndToEnd.EncodeDecode | deps/src/ua_types_encoding_json.c:1466-3320 | encode, tokenize, decode is the identity on every value within the comma array whose decoders move on, if its tree has at most a thousand tokens; with more it fails |
| SpacedDecoding.SpacingIsIgnored | deps/src/ua_types_encoding_json.c:3270-3323 | for every type and every text of an object, array or string: white space between its tokens makes no difference to what the call yields |
| SpacedDecoding.BareLeafBack | deps/src/ua_types_encoding_json.c:3293-3301 | a number, bool or null written bare comes back when white space follows it |
| DecoderLaws.ArrayRootRefused | deps/src/ua_types_encoding_json.c:3292-3305 | a text whose root is an array is refused for every type |
| ReadBack.DecodesAny | deps/src/ua_types_encoding_json.c:2190-3140 | where the decoder of any value ends: past it, on its very last token, or too early to be made up for if it yields the value at all; stuck there, or failing, if there are no arrays of structures |
| ReadBack.EmptyOpaqueOutcome | deps/src/ua_types_encoding_json.c:2200-2204 | the decoder of a NodeId around an empty byte string ends on the identifier's token, so a namespace is lost |
| Spending.DecodeSpends | deps/src/ua_types_encoding_json.c:2441-3191 | for every type, wherever in whatever token array its decoder starts: to yield a value it uses at most the weight the value is written with, a namespace and its key weighing nothing |
| ReadBack.ShortTail | deps/src/ua_types_encoding_json.c:3124-3138 | behind an array element whose decoder ended early, the other elements cannot make up for it |
| ReadBack.ReadsBack | deps/src/ua_types_encoding_json.c:3270-3323 | for every type, in the default build: a value of at most a thousand tokens comes back from its text if and only if its decoders all move on or only that of its very last part stays; otherwise, without arrays of structures, the text is refused |
| UnknownKeys.UnknownKey | deps/src/ua_types_encoding_json.c:3270-3323 | a text with such a key, at the root or in structures inside, is not accepted if the decoders before it fail, move on or stay on a token no structure around knows |
| UnknownKeys.UnknownKeyRefused | deps/src/ua_types_encoding_json.c:3033-3323 | for a type without arrays of structures: a text that writes a value, members in any order, but for a key that no structure around it knows, is not accepted |
| UnknownKeys.KeyKnownAround | deps/src/ua_types_encoding_json.c:3033-3191 | a text with a key unknown to its structure and known to the one around that is accepted, with the wrong values it yields |
| UnknownKeys.UnknownNestedKey | deps/src/ua_types_encoding_json.c:3033-3140 | a text with an unknown key in an array of structures that is accepted, with the wrong values it yields |
| ParseCtx.ParseCtx.SkipObject | deps/src/ua_types_encoding_json.c:1573-1580 | the loop moves the index to the first token that starts past the end of the current one |
| ParseCtx.ParseCtx.JumpOverRec | deps/src/ua_types_encoding_json.c:2318-2365 | on every token array, the recursion computes `JumpOver`: where the counts lead, or that an array loop reads a slot behind the tokens |
| ParseCtx.ParseCtx.JumpOverObject | deps/src/ua_types_encoding_json.c:2367-2376 | the index past the object is reported and the index restored |
| ParseCtx.ParseCtx.SkipBothWays | deps/src/ua_types_encoding_json.c:1573-2376 | skipping by span and skipping by counts reach the same index exactly on containers |
| ParseCtx.ParseUnsignedInteger | deps/src/ua_types_encoding_json.c:1684-1717 | however the text is parted into white space, sign, digits and rest: Good if and only if it has at most twenty characters, digits, and a value of theirs below 2^64, and then that value or its negative modulo 2^64 |
| ParseCtx.ParseSignedInteger | deps/src/ua_types_encoding_json.c:1722-1754 | the same with the sign and the range of int64 |
| ParseCtx.ParseCtx.SearchObjectForKeyRec | deps/src/ua_types_encoding_json.c:2245-2303 | on every token array the recursive search computes `SearchKey`: status, result and where it leaves the index |
| ParseCtx.ParseCtx.LookAheadForKey | deps/src/ua_types_encoding_json.c:2305-2315 | the look-ahead reports the search and restores the index whatever it found |
| ParseCtx.ParseCtx.DecodeUnsigned | deps/src/ua_types_encoding_json.c:1757-1819 | the number cast to its width, from a primitive or, with 64 bits, a string; an error if it is no number in range |
| ParseCtx.ParseCtx.DecodeSigned | deps/src/ua_types_encoding_json.c:1821-1883 | the same for signed numbers |
| ParseCtx.ParseCtx.DecodeString | deps/src/ua_types_encoding_json.c:2086-2189 | null, or the unescaped body (`DecoderLaws.StringsRead`, with the escapes as the rows of `EscapeLaws` say), or an error |
| ParseCtx.ParseCtx.DecodeByteString | deps/src/ua_types_encoding_json.c:2191-2217 | null, or the decoded base64; the empty one leaves the index |
| ParseCtx.ParseCtx.DecodeGuid | deps/src/ua_types_encoding_json.c:2059-2084 | 36 characters, all dashes or hexadecimal digits, or an error |
| ParseCtx.ParseCtx.DecodeFields | deps/src/ua_types_encoding_json.c:3033-3097 | on every token array, the two nested loops over the entries compute `Decoder.DecodeFields`: values, marks, index and status |
| ParseCtx.ParseCtx.PrepareDecodeNodeId | deps/src/ua_types_encoding_json.c:2378-2438 | the type of the identifier from the first character of IdType, found ahead of the index |
| ParseCtx.ParseCtx.DecodeNodeId | deps/src/ua_types_encoding_json.c:2441-2474 | on every token array, value, index and status of the NodeId decoder |
| ParseCtx.ParseCtx.DecodeArray | deps/src/ua_types_encoding_json.c:3099-3140 | on every token array, the element loop computes `DecodeElems`; the empty array leaves the index |
| ParseCtx.ParseCtx.DecodeStructure | deps/src/ua_types_encoding_json.c:3148-3191 | the members by decodeFields, one level deeper, the depth restored, refused past the recursion limit |
| ParseCtx.ParseCtx.Decode | deps/src/ua_types_encoding_json.c:3200-3268 | on every token array and for every type, the index machine computes `Decoder.Decode` and restores the depth |
| ParseCtx.GuidOfChars | deps/src/ua_types_encoding_json.c:2039-2057 | the loops of shifted digits give the Guid of the characters |
| Decoder.FailsAsExpected | deps/src/ua_types_encoding_json.c:1633-3191 | on every token array, a decoder fails with a decoding error, or with an encoding error if structures nest past the recursion limit |
| DecoderLaws.BooleanReads | deps/src/ua_types_encoding_json.c:1633-1656 | a Boolean is exactly the word true or the word false |
| DecoderLaws.UnsignedLeafReads | deps/src/ua_types_encoding_json.c:1684-1819 | an unsigned number, parted into white space, sign, digits and rest, is read if and only if it has at most twenty characters, digits, and a value below 2^64; the result lies in the type and agrees modulo its size, the sign counted; 64 bits are a string, fewer a primitive |
| DecoderLaws.SignedLeafReads | deps/src/ua_types_encoding_json.c:1722-1883 | the same for signed numbers, with the range of int64 |
| DecoderLaws.StringsRead | deps/src/ua_types_encoding_json.c:2086-2217 | a string is null or a string token with right escapes, a byte string null or any string token; null is any primitive that starts with those four characters |
| DecoderLaws.GuidReads | deps/src/ua_types_encoding_json.c:2059-2084 | a Guid is read exactly from a string of 36 digits and dashes |
| GuidLaws.ReadsGroups | deps/src/ua_types_encoding_json.c:2039-2057 | the Guid has the numbers of the digit groups of the text, digits in either case |
| DecoderLaws.WrongKind | deps/src/ua_types_encoding_json.c:1633-3140 | an object or array is no leaf, anything but an array no array, an array or string no NodeId, QualifiedName or LocalizedText |
| DecoderLaws.FirstCharacter | deps/src/ua_types_encoding_json.c:2394-2417 | the first character of IdType, number or string, decides the kind of identifier, whatever follows it; no other than 1, 2 and 3 is accepted |
| DecoderLaws.NoIdType | deps/src/ua_types_encoding_json.c:2430-2436 | without IdType the identifier is a number |
| DecoderLaws.NodeIdInParts | deps/src/ua_types_encoding_json.c:2441-2474 | a NodeId by its members Id, IdType and Namespace, in any order: identifier and namespace as those are decoded, zero when missing; a repeated key is an error |
| DecoderLaws.QualifiedNameInParts | deps/src/ua_types_encoding_json.c:2231-2241 | the same for Name and Uri |
| DecoderLaws.LocalizedTextInParts | deps/src/ua_types_encoding_json.c:2219-2229 | the same for Locale and Text, null when missing |
| DecoderLaws.StructureInParts | deps/src/ua_types_encoding_json.c:3148-3191 | the same for the members of a structure, one level deeper |
| DecoderLaws.ArrayInParts | deps/src/ua_types_encoding_json.c:3099-3140 | on every token array: as many elements as the token counts are decoded one behind the other, or the first that fails decides |
| DecoderLaws.ZeroValues | deps/src/ua_types_encoding_json.c:3307-3309 | what a missing member is set to |
| DecoderLaws.NullIsZero | deps/src/ua_types_encoding_json.c:2219-2474 | null stands for the zero NodeId, QualifiedName and LocalizedText |
| DecoderLaws.NoMembersRefused | deps/src/ua_types_encoding_json.c:3045-3047 | a structure without members is refused |
| DecoderLaws.NamelessIsMember | deps/src/ua_types_encoding_json.c:3040-3044 | a structure whose one member has no name is read as that member |
| DecoderLaws.NestsSoDeep | deps/src/ua_types_encoding_json.c:3148-3191 | structures nest 101 deep and no deeper: beyond, an encoding error, whatever is inside |
| ParseCtx.DecodeText | deps/src/ua_types_encoding_json.c:3238-3323 | the whole call on every text: good, with its value, exactly when `EndToEnd.DecodeJson` has one; otherwise a decoding error, running out of tokens included, unless structures nest past the recursion limit |
| Worker.RunsInOrder | COREdcs/server/include/DCSWorkerThread.h:43-74 | over all interleavings: pushed = started + queued in order for each class, started = finished + running in order, a monitoring job starts only when no command is queued, nothing starts after terminate |
| Worker.StepKeepsInv | COREdcs/server/include/DCSWorkerThread.h:43-74 | every section keeps that invariant |
| Worker.StartsAtMostOnce | COREdcs/server/include/DCSWorkerThread.h:43-63 | no job starts more often than it was pushed |
| Worker.Drains | COREdcs/server/include/DCSWorkerThread.h:44-62 | a worker not told to terminate, whose jobs end, empties both queues in one round per job |
| Worker.Ends | COREdcs/server/include/DCSWorkerThread.h:19-54 | told to terminate, the thread ends as soon as its job does and leaves the other jobs in their queues |
| Worker.DCSWorkerThread.PushJob | COREdcs/server/include/DCSWorkerThread.h:65-74 | the job goes to the end of its queue and nothing else changes |
| Worker.DCSWorkerThread.TakeJob | COREdcs/server/include/DCSWorkerThread.h:46-60 | the locked section: end of the thread if told to terminate, else the first command, else the first monitoring job |
| Worker.DCSWorkerThread.SetTerminate | COREdcs/server/include/DCSWorkerThread.h:19-26 | the flag is set, the queues stay as they are |
| Worker.DCSWorkerThread.Size | COREdcs/server/include/DCSWorkerThread.h:29-32 | the jobs of both queues |
| Pipeline.CallsKeepArrivalOrder | COREdcs/server/src/DCSServer.cpp:87-110 | over all interleavings and for every device: the calls that arrived for it are those started, queued at its thread, held by the dispatcher and still at the server, in the order of arrival |
| Pipeline.StepKeepsOrder | COREdcs/server/src/DCSServer.cpp:87-110 | every step keeps this for every device |
| Pipeline.FetchFindsRequest | COREdcs/server/src/DCSServer.cpp:93-96 | a dispatcher job that polls finds a request: its wait loop never has to sleep |
| Pipeline.IdleDispatcherDelivered | COREdcs/server/src/DCSServer.cpp:87-110 | once every callback has run and the dispatcher is idle, every call is at its device |
| Pipeline.Delivers | COREdcs/server/src/DCSServer.cpp:87-110 | from every reachable state whose dispatcher is not told to terminate, steps of the server and the dispatcher alone leave no callback, request or job behind, and then every call that arrived is started at its device or queued there |
| Pipeline.EveryCallRuns | COREdcs/server/src/DCSServer.cpp:87-110 | from every reachable state whose dispatcher and device thread are not told to terminate, their steps lead to a state in which all calls for the device have started, in the order of arrival |
| Pipeline.DispatcherStops | COREdcs/server/include/DCSWorkerThread.h:46-52 | once told to terminate, the dispatcher starts no job any more, whatever happens |
| Pipeline.TerminateTells | COREdcs/server/include/DCSWorkerThread.h:19-26 | and this step tells it |
| Server.DCSServer.AsyncCallback | COREdcs/server/src/DCSServer.cpp:87-89 | one dispatcher job more, behind the others |
| Server.DCSServer.GetAsyncOperationNonBlocking | COREdcs/server/src/DCSServer.cpp:93-96 | the oldest request is fetched, or there is none and nothing changes |
| Server.DCSServer.ForwardRequest | COREdcs/server/src/DCSServer.cpp:97-109 | the fetched call is appended to the command queue of its own device's thread, no other queue and no other device changes, nothing is left in hand, and the dispatcher runs no job |
| Server.DCSServer.AddObject | COREdcs/server/src/DCSServer.cpp:137-152 | a name in use is an error, an unknown type adds nothing, otherwise the object is added under its name; names stay unique and calls under way are not disturbed |
| Recovery.DCSRecovery.Get | COREdcs/server/include/DCSRecovery.h:20-34 | the parameters of a usable entry, or the error for a missing or an unusable one |
| Recovery.DCSRecovery.Enable | COREdcs/server/include/DCSRecovery.h:36-53 | the entry of the device is replaced, all others are kept |
| Recovery.DCSRecovery.Disable | COREdcs/server/include/DCSRecovery.h:55-70 | the entry of the device is gone, all others are kept, and the file is not written if there was none |
| Recovery.DCSRecovery.Destroy | COREdcs/server/include/DCSRecovery.h:12-18 | the file holds the empty object |
| Devices.DevicesAreIndependent | COREdcs/server/include/DCSDeviceController.h:75-157 | in every interleaving, what becomes of a device and of its recovery entry depends on its own steps alone |
| Devices.LocalRunConsistent | COREdcs/server/include/DCSDeviceController.h:75-157 | every step of a device, inside and between jobs, keeps connection, parameters and entry consistent |
| Devices.ConnectedHasEntry | COREdcs/server/include/DCSDeviceController.h:118-125 | in every run and for every device: between its jobs, a connected device has an entry and it holds the device's parameters |
| Devices.ErrorKeepsEntry | COREdcs/server/include/DCSDeviceController.h:231-243 | a communication error drops the connection and keeps the entry, whatever the other devices do |
| Devices.DisconnectForgets | COREdcs/server/include/DCSDeviceController.h:75-82 | after a disconnect there is no entry until the device enables one again |
| Devices.NeverReachedNeverConnected | COREdcs/server/include/DCSDeviceController.h:98-140 | in every run, a device that is never reached is never connected and gains no entry, whatever the others do |
| Devices.CrashRecovers | COREdcs/server/include/DCSDeviceController.h:499-546 | a device whose entry was written when the program died comes back with the same parameters and connected, if it answers, in every interleaving with the others |
| Devices.CleanShutdownRecoversNothing | COREdcs/server/include/DCSRecovery.h:12-18 | after a clean shutdown a device starts as configured and unconnected, and there is no entry |
| DeviceController.EndSession | COREdcs/server/include/DCSRecovery.h:12-18 | destroying the recovery leaves the map of a clean shutdown, `Devices.ShutDown`, and touches no device |
| DeviceController.DCSDeviceController.ConnectDevice | COREdcs/server/include/DCSDeviceController.h:98-140 | connected afterwards if and only if it was before, or the address is not empty and the device was reached; with a recovery and an address, a connected device has its parameters as entry, otherwise the entry is as before; the other entries are kept |
| DeviceController.DCSDeviceController.ConnectJob | COREdcs/server/include/DCSDeviceController.h:231-243 | the same for the registered method: an exception after connecting drops the connection and keeps the new entry; a device not reached is connected only if it was before, and gains no entry |
| DeviceController.DCSDeviceController.DisconnectDevice | COREdcs/server/include/DCSDeviceController.h:75-82 | not connected, and no entry; the other entries are kept |
| DeviceController.DCSDeviceController.SetConnectionParameters | COREdcs/server/include/DCSDeviceController.h:142-157 | refused while connected, otherwise only the parameters change |
| DeviceController.DCSDeviceController.ControllerMethod | COREdcs/server/include/DCSDeviceController.h:225-252 | an error drops the connection and changes nothing else |
| DeviceController.DCSDeviceController.VariableUpdate | COREdcs/server/include/DCSDeviceController.h:280-301 | a protected update runs only while connected; the variable is null when not, and keeps its value on an error, which drops the connection |
| DeviceController.DCSDeviceController.UnprotectedUpdate | COREdcs/server/include/DCSDeviceController.h:302-316 | an unprotected update runs whether connected or not; an error keeps the value and drops the connection |
| DeviceController.DCSDeviceController.FinalizeInit | COREdcs/server/include/DCSDeviceController.h:499-546 | a usable entry replaces the configured parameters, and the device is then connected if and only if it was reached and answered; without one the parameters stay and nothing is connected |
| Influx.ToInflux | ELITPCdcs/server/src/DCSHistoryBackendInflux.cpp:154-180 | the fields of a value, taken out of its body if it has one: array elements numbered from one, a missing key named v, null and NaN left out, joined by commas without a trailing one |
| Influx.AppendArray | ELITPCdcs/server/src/DCSHistoryBackendInflux.cpp:165-170 | the printed elements of an array, numbered, each with its comma |
| Influx.Member | ELITPCdcs/server/src/DCSHistoryBackendInflux.cpp:155-157 | the value of the first member with the key, if there is one |
| Influx.Underscored | ELITPCdcs/server/src/DCSHistoryBackendInflux.cpp:59-59 | every space, and nothing else, becomes an underscore |
| Influx.CycleKeepsLines | ELITPCdcs/server/src/DCSHistoryBackendInflux.cpp:182-213 | over all interleavings: the batches taken followed by the bucket are all lines appended, in order; exactly one of write to come, write in progress, queued job and running job exists; the messages are the batches' lines joined by newlines |
| Influx.StepKeepsInv | ELITPCdcs/server/src/DCSHistoryBackendInflux.cpp:182-213 | every step keeps this |
| Influx.NothingLostBeforeSending | ELITPCdcs/server/src/DCSHistoryBackendInflux.cpp:182-213 | the messages sent, the one on its way and the bucket together hold every byte of every line, once and in order |
| Influx.EndedIsJoin | ELITPCdcs/server/src/DCSHistoryBackendInflux.cpp:190-191 | cutting the last newline off the lines of a batch leaves them joined by newlines |
| InfluxLaws.FieldsWritten | ELITPCdcs/server/src/DCSHistoryBackendInflux.cpp:154-180 | the fields of every value, spelled out: `name=text` for members, `v=text` without a name, array elements under the name and one to n, an array itself by its indices from zero, nothing for null and NaN, commas only between |
| InfluxLaws.LineWritten | ELITPCdcs/server/src/DCSHistoryBackendInflux.cpp:59-64 | a line is the name, a space, the fields, a space and the milliseconds since 1970, for a time in ticks of 100 nanoseconds since 1601 by the reference calendar; for a time of zero nothing follows the space |
| InfluxLaws.EarlyLineWritten | ELITPCdcs/server/src/DCSHistoryBackendInflux.cpp:61-64 | a time before 1970 wraps around: its milliseconds count down from 2^64 ticks |
| InfluxLaws.Flushes | ELITPCdcs/server/src/DCSHistoryBackendInflux.cpp:182-213 | from every reachable state whose worker is not told to terminate, at most two rounds of the cycle send every line appended so far, once and in order |
| Influx.DCSHistoryBackendInflux.ServerSetHistoryData | ELITPCdcs/server/src/DCSHistoryBackendInflux.cpp:33-66 | a value with fields appends exactly its line and a newline, with the source timestamp before the server's; a missing value is ignored, one without fields accepted without a line, an unknown variable refused, and then the bucket stays |
| Influx.DCSHistoryBackendInflux.TakeMessages | ELITPCdcs/server/src/DCSHistoryBackendInflux.cpp:183-188 | the whole bucket is taken and left empty |
| Influx.DCSHistoryBackendInflux.ScheduleJob | ELITPCdcs/server/src/DCSHistoryBackendInflux.cpp:189-189 | the taken batch becomes the last job of the worker |
| Influx.DCSHistoryBackendInflux.RunWriteJob | ELITPCdcs/server/src/DCSHistoryBackendInflux.cpp:189-207 | a non-empty batch is sent without its last newline, and the timer is armed either way |

## Left out

- JsonWriter.CtxJson.Encode: which error status an encoder reports is not modelled, only whether it is Good; nor what an encoder does once it has written a flag behind the comma array.
- JsmnParser.JsmnParser.Parse: positions and token counts are unbounded; the casts to int for texts of 2^31 bytes or more, and the 16-bit index of the decoder, are not modelled.
- Itoa.AtoiUnsigned: the decoders are not modelled with this conversion, which ignores its verdict and reads a malformed number as zero; they use the ones of the default build.
- Influx.ToInflux: the text a JSON value is printed as is part of the value.
- Worker.DCSWorkerThread.TakeJob: one round of the worker loop; waiting is the precondition, and the endless loop is the sequence of rounds in `Worker.Exec`.
- Float, Double, DateTime, StatusCode, ExpandedNodeId, ExtensionObject, DataValue, Variant and DiagnosticInfo: printf and scanf, or decoders that lose the value or the index.
- The non-reversible encoding, and with it addMultiArrayContentJSON: the server uses the reversible one.
- JSMN_PARENT_LINKS and the non-strict tokenizer: switched off in this build.
- Encoding of structures with a nameless member, and the helpers writeJsonArrElm and writeJsonObjElm: they add no new case to the comma machine.
- Memory allocation failures, cleanup of partly decoded values, pointer aliasing and struct layout.
- Texts of files, sockets and the HTTP client: the recovery file is a map or unreadable, writing it succeeds, and a message handed to the database counts as sent.
- A recovery file that is valid JSON but not an object.
- Profiles, labels, events, logging and the device drivers: a device either answers or throws.
- Methods and updates that run on the server's own thread instead of the device thread.
- Version comparison, the graphical client and the configuration loader.
