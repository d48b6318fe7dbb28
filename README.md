# SpanJson UTF-8 reader and ISO-8601 date parser in Dafny

This project models two pieces of SpanJson's JSON decoder and proves
properties of the model.

1. **The UTF-8 pull reader** (`JsonReader<byte>`). It keeps a cursor
   (`_pos`) over an immutable byte buffer. Every `ReadUtf8*` and
   `SkipNextUtf8*` method advances the cursor and returns a value, or it
   raises a `JsonParserException` with a `ParserError` kind.
2. **The ISO-8601 date-time parser** (`DateTimeParser`). It is a
   fixed-position grammar over characters: `YYYY-MM-DDThh:mm:ss`, an
   optional `.fraction`, then an optional `Z` or `±hh:mm`.

## How the model is built

- `json_base.dfy` (module `JsonBase`): bytes, the byte constants, the
  token kinds, the `ParserError` kinds and `Result`/`Read` (a value and
  the cursor position after it).
- `utf8_lexer.dfy`, `utf8_strings.dfy` and `utf8_dynamic.dfy`: one pure
  function per reader operation over `(bytes, pos)`. Each returns either
  an error kind or the value and the new cursor. The lemmas are stated
  about these functions.
- `json_reader.dfy` (module `JsonReaderUtf8`): the class `JsonReader`,
  with `const bytes` and a mutable `pos`. Each method changes `pos` the
  way the source's loops and cursor updates do. Its `ensures` equates
  the result and the new `pos` with the pure function of the old `pos`.
  `UnescapeUtf8` is a module-level method filling a preallocated
  `array<Char16>`, as the source fills its `char` buffer.
- `date_time_parser.dfy` (module `DateTimeParser`):
  - the pure grammar (`FixedFields`, `ReadFraction`, `ReadZone`,
    `Iso8601`);
  - the constructors' range checks as explicit predicates
    (`ValidFields`, `CanCreateDateTime`, `CanCreateDateTimeOffset`);
  - methods that advance `currentOffset` as the source does, each proved
    equal to the pure grammar.

Conventions:

- An exception becomes an `Err` with the same `ParserError` kind.
- A read the C# code makes past the end of the buffer (an
  `IndexOutOfRangeException`) becomes `Err(OutOfRange)`, never a success.
- After an error the cursor is left unspecified, since the source abandons
  the reader when it throws.
- Text is modelled one byte per UTF-16 code unit: a byte of the input
  becomes the `char` with the same value. This is exact for ASCII.
- The date parser works on `string` (`seq<char>`), as the `char`
  overload does. The C# `int`/`uint` locals cannot overflow on its inputs
  (at most 8 fraction digits), so the model uses unbounded integers there.
- The reader's `ulong` accumulator is checked: overflow is `Err(Overflow)`.
  The casts to `long` and to the narrower integer types, and the `long`
  negation, are unchecked. They are written out as two's-complement
  wrap-around (`ULongToLong`, `NegateLong`, `WrapSigned`, `WrapUnsigned`).

- The values of constants declared outside the modelled files are
  assumed, as follows:
  - `JsonUtf8Constant`: the ASCII bytes of the characters it names (the
    `byte` constants at the top of `json_base.dfy`);
  - `JsonUtf8Constant.NullTerminator`: the one-byte span `[0]`;
  - `JsonToken`: numbered in the order `None`, `BeginObject`, `EndObject`,
    `BeginArray`, `EndArray`, `String`, `Number`, `True`, `False`, `Null`,
    `ValueSeparator`, `NameSeparator` from 0. So the skipper's test
    `(byte)token > 4` (SpanJson/JsonReader.Utf8.cs:784) holds for
    everything except `None` and the four begin/end tokens
    (`JsonToken.IsValueOrSeparator`).

Places where the code does something a reader might not expect; the
model follows the code in each:

- `ReadUtf8Boolean` tests the letters after `t` or `f` at
  `_bytes[pos + k]` without a bounds check
  (SpanJson/JsonReader.Utf8.cs:180-233). So a literal cut off by the end
  of the buffer, such as `tru`, reads past the buffer and is
  `OutOfRange`. Only a wrong letter inside the buffer is `InvalidSymbol`.
- The fraction loop's comment bounds the fraction at seven digits
  (SpanJson/Helpers/DateTimeParser.cs:224). The loop runs after one
  required digit, though (:211-238), so up to eight digits are read in
  all. The class note at :9 says the original's fixed seven-digit
  fraction was dropped.
- `ReadUtf8NameSpan` and `ReadUtf8EscapedName` report a missing `:` as
  `ExpectedDoubleQuote`, as the code does.
- A `-hh:mm` offset negates only the hours, and a name without escapes
  read by `ReadUtf8EscapedName` becomes the span's type name, as the code
  does. Both are listed under Findings with a corrected definition beside
  the model.

## Model

| member | source | states |
|---|---|---|
| JsonReaderUtf8.JsonReader.SkipWhitespace | SpanJson/JsonReader.Utf8.cs:573-593 | The loop leaves the cursor at `SkipWs` of the old cursor: the first position that is not space, tab, CR or LF, or the end. |
| Utf8Lexer.SkipWs | SpanJson/JsonReader.Utf8.cs:573-593 | The cursor never moves back. It stops inside the buffer or at its end, and the byte it stops on is not whitespace. |
| Utf8Lexer.SkipWsSkipsWhitespace | SpanJson/JsonReader.Utf8.cs:576-592 | Every byte skipped is inside the buffer and is whitespace. |
| Utf8Lexer.Classify | SpanJson/JsonReader.Utf8.cs:966-1013 | `None` exactly when the position is at or past the end or the byte starts no token. `Number` exactly for `-` and `0`-`9`. `String` exactly for `"`. |
| Utf8Lexer.NextTokenIdempotent | SpanJson/JsonReader.Utf8.cs:966-1013 | Reading the next token again from where the first read left the cursor gives the same token and the same cursor. |
| Utf8Lexer.NextTokenInside | SpanJson/JsonReader.Utf8.cs:966-1013 | Any token other than `None` sits at a position inside the buffer. |
| JsonReaderUtf8.JsonReader.ReadNextToken | SpanJson/JsonReader.Utf8.cs:966-1013 | The token and the new cursor are the whitespace skip followed by the classification, which consumes nothing. |
| Utf8Lexer.NumberRun | SpanJson/JsonReader.Utf8.cs:155-178 | The run length from a position. A non-empty run lies inside the buffer, and the byte after it is not a numeric symbol. |
| Utf8Lexer.NumberRunIsNumeric | SpanJson/JsonReader.Utf8.cs:843-864 | Every byte of the run is one of `0`-`9`, `+`, `-`, `.`, `E`, `e`. |
| JsonReaderUtf8.JsonReader.FindEndOfNumber | SpanJson/JsonReader.Utf8.cs:843-864 | The loop's count is the maximal numeric run from the position. It succeeds exactly when that run is not empty. |
| Utf8Lexer.NumberInternal | SpanJson/JsonReader.Utf8.cs:76-89 | After whitespace, the result is the maximal numeric run and the cursor moves past it. No run gives `EndOfData`. |
| JsonReaderUtf8.JsonReader.ReadNumberInternal | SpanJson/JsonReader.Utf8.cs:76-89 | The method's span and new cursor are those of `NumberInternal`. |
| Utf8Lexer.ScanFrom | SpanJson/JsonReader.Utf8.cs:867-894 | A terminated scan ends on a `"` inside the buffer. |
| Utf8Lexer.EscapeSize | SpanJson/JsonReader.Utf8.cs:867-894 | The number of backslash escapes in a string body plus 4 for each `\u`/`\U`. It is at most the body's length. |
| Utf8Lexer.ScanFindsBody | SpanJson/JsonReader.Utf8.cs:867-894 | When the bytes up to a `"` form a well-formed body, the scan stops at that quote. The escape count it reports is `EscapeSize` of the body. |
| Utf8Lexer.ScanFoundIsBody | SpanJson/JsonReader.Utf8.cs:867-894 | Conversely, what a terminated scan passes over is a well-formed body. Its escape count is that body's `EscapeSize`. |
| Utf8Lexer.FindStringEndSpec | SpanJson/JsonReader.Utf8.cs:867-894 | The finder reports (distance, escapes) exactly when the bytes up to that distance form a body ending on a `"`, and escapes is its `EscapeSize`. |
| JsonReaderUtf8.JsonReader.FindEndOfString | SpanJson/JsonReader.Utf8.cs:867-894 | The loop's outcome is the scan's: terminated with distance and escape count, unterminated, or a read past the end after a backslash. |
| Utf8Lexer.DigitRun | SpanJson/JsonReader.Utf8.cs:134-152 | The maximal run of ASCII digits from a position. |
| Utf8Lexer.DecimalValueMonotone | SpanJson/JsonReader.Utf8.cs:145-150 | The accumulated value of a digit prefix is at most that of the whole run, so overflow is decided by the whole run. |
| Utf8Lexer.NumberDigits | SpanJson/JsonReader.Utf8.cs:134-152 | Success is the decimal value of the maximal digit run, with the cursor just after it. A non-digit first byte gives `InvalidNumberFormat`. A value above 2^64-1 gives `Overflow`. These are the only errors. |
| JsonReaderUtf8.JsonReader.ReadNumberDigits | SpanJson/JsonReader.Utf8.cs:134-152 | The checked accumulation loop returns `NumberDigits`, including the overflow error. |
| JsonReaderUtf8.JsonReader.ReadNumberUInt64 | SpanJson/JsonReader.Utf8.cs:121-131 | Equal to `NumberUInt64`: `EndOfData` at the end, otherwise the digit reader, so `-` is `InvalidNumberFormat`. |
| Utf8Lexer.ULongToLong | SpanJson/JsonReader.Utf8.cs:116 | The unchecked `(long)` cast is the value itself, or the value minus 2^64, and it lies in the range of `long`. |
| Utf8Lexer.NegateLong | SpanJson/JsonReader.Utf8.cs:117 | The unchecked negation is `-x`, except that the least `long` is its own negation. |
| Utf8Lexer.NumberInt64 | SpanJson/JsonReader.Utf8.cs:93-118 | Every successful result fits in a `long`. |
| JsonReaderUtf8.JsonReader.ReadNumberInt64 | SpanJson/JsonReader.Utf8.cs:93-118 | The method's value and cursor are those of `NumberInt64`. |
| Utf8Lexer.DecimalText | SpanJson/JsonReader.Utf8.cs:134-152 | Reference writer: a non-empty digit string whose decimal value is `n`. |
| Utf8Lexer.DigitRunOfRun | SpanJson/JsonReader.Utf8.cs:145-150 | A digit block ended by the buffer's end or a non-digit is exactly the maximal digit run. |
| Utf8Lexer.UInt64RoundTrip | SpanJson/JsonReader.Utf8.cs:121-152 | Reading back the decimal text of `n` gives `n`, and the cursor lands just after the text. It is `Overflow` when `n` is above 2^64-1. |
| Utf8Lexer.Int64RoundTrip | SpanJson/JsonReader.Utf8.cs:93-118 | Reading back the signed text of any `long` gives that `long`, with the cursor after the text. |
| Utf8Lexer.Int64WrapsAboveMax | SpanJson/JsonReader.Utf8.cs:116 | A digit string with a value from 2^63 to 2^64-1 reads as that value minus 2^64, not as an error. |
| Utf8Lexer.NumberInt64Checked | SpanJson/JsonReader.Utf8.cs:93-118 | A checked reference reader: every success fits in a `long`. |
| Utf8Lexer.Int64CheckedRoundTrip | SpanJson/JsonReader.Utf8.cs:93-118 | The checked reader reads back every `long` and reports `Overflow` for the text of every other integer. |
| Utf8Lexer.CheckedNegative | SpanJson/JsonReader.Utf8.cs:108-117 | The checked reader on `-` followed by the digits of `n` gives `-n` inside the `long` range, `Overflow` outside it. |
| Utf8Lexer.CheckedNonNegative | SpanJson/JsonReader.Utf8.cs:108-117 | The checked reader on the digits of `n` gives `n` inside the `long` range, `Overflow` outside it. |
| Utf8Lexer.Int64CheckedAgrees | SpanJson/JsonReader.Utf8.cs:93-118 | Whenever the checked reader succeeds, the unchecked reader gives the same value and cursor. |
| Utf8Lexer.Width.Modulus | SpanJson/JsonReader.Utf8.cs:15-53 | The modulus 2^bits of an integer width: even and at least 256. |
| Utf8Lexer.Width.Half | SpanJson/JsonReader.Utf8.cs:15-53 | Half the modulus, at most 2^63: the bound of the signed type. |
| Utf8Lexer.WrapUnsigned | SpanJson/JsonReader.Utf8.cs:35-48 | The unchecked cast to an unsigned width is in range, congruent to the input, and the identity on values already in range. |
| Utf8Lexer.WrapSigned | SpanJson/JsonReader.Utf8.cs:15-28 | The unchecked cast to a signed width is in range, has the same low bits as the input, and is the identity on values in range. |
| Utf8Lexer.NumberSigned | SpanJson/JsonReader.Utf8.cs:15-33 | A signed reader's result always lies in its width's range. |
| Utf8Lexer.NumberUnsigned | SpanJson/JsonReader.Utf8.cs:35-53 | An unsigned reader's result always lies in its width's range. |
| Utf8Lexer.WidestCastsAreIdentities | SpanJson/JsonReader.Utf8.cs:30-33 | At 64 bits the signed and unsigned readers are exactly the Int64 and UInt64 readers. |
| Utf8Lexer.SignedRoundTrip | SpanJson/JsonReader.Utf8.cs:15-33 | Every value of a signed width reads back from its text. |
| Utf8Lexer.UnsignedRoundTrip | SpanJson/JsonReader.Utf8.cs:35-53 | Every value of an unsigned width reads back from its text. |
| Utf8Lexer.SignedNarrowing | SpanJson/JsonReader.Utf8.cs:15-28 | A `long` outside a narrower signed width reads as its wrapped value, not an error. |
| Utf8Lexer.UnsignedNarrowing | SpanJson/JsonReader.Utf8.cs:35-48 | A `ulong` outside a narrower unsigned width reads as its wrapped value. |
| Utf8Lexer.NarrowingWraps | SpanJson/JsonReader.Utf8.cs:15-48 | Examples: `(sbyte)128 == -128`, `(byte)256 == 0`, `(int)2^31 == -2^31`. |
| JsonReaderUtf8.JsonReader.ReadSByte | SpanJson/JsonReader.Utf8.cs:15-18 | The Int64 reader cast to 8 bits signed, with the cursor after the digits. |
| JsonReaderUtf8.JsonReader.ReadInt16 | SpanJson/JsonReader.Utf8.cs:20-23 | The Int64 reader cast to 16 bits signed. |
| JsonReaderUtf8.JsonReader.ReadInt32 | SpanJson/JsonReader.Utf8.cs:25-28 | The Int64 reader cast to 32 bits signed. |
| JsonReaderUtf8.JsonReader.ReadInt64 | SpanJson/JsonReader.Utf8.cs:30-33 | The Int64 reader itself. |
| JsonReaderUtf8.JsonReader.ReadByte | SpanJson/JsonReader.Utf8.cs:35-38 | The UInt64 reader cast to 8 bits unsigned. |
| JsonReaderUtf8.JsonReader.ReadUInt16 | SpanJson/JsonReader.Utf8.cs:40-43 | The UInt64 reader cast to 16 bits unsigned. |
| JsonReaderUtf8.JsonReader.ReadUInt32 | SpanJson/JsonReader.Utf8.cs:45-48 | The UInt64 reader cast to 32 bits unsigned. |
| JsonReaderUtf8.JsonReader.ReadUInt64 | SpanJson/JsonReader.Utf8.cs:50-53 | The UInt64 reader itself. |
| JsonReaderUtf8.JsonReader.ReadSigned | SpanJson/JsonReader.Utf8.cs:15-33 | The shared body of the signed readers: `NumberSigned` at the given width. |
| JsonReaderUtf8.JsonReader.ReadUnsigned | SpanJson/JsonReader.Utf8.cs:35-53 | The shared body of the unsigned readers: `NumberUnsigned` at the given width. |
| Utf8Lexer.ExpectTail | SpanJson/JsonReader.Utf8.cs:180-233 | Checking a literal's remaining letters passes, reads past the end (`OutOfRange`) or meets a wrong letter (`InvalidSymbol`). A pass means the whole literal is in the buffer. |
| Utf8Lexer.ExpectTailPasses | SpanJson/JsonReader.Utf8.cs:180-233 | The check passes exactly when the literal's remaining letters are all in the buffer and equal to the bytes there. |
| Utf8Lexer.LiteralMatch | SpanJson/JsonReader.Utf8.cs:180-233 | Once the first letter matches, the check passes exactly when the whole literal is present. |
| Utf8Lexer.ExpectTailFails | SpanJson/JsonReader.Utf8.cs:180-233 | When the literal fits in the buffer, a failure is never `OutOfRange`. |
| Utf8Lexer.Boolean | SpanJson/JsonReader.Utf8.cs:180-233 | A success moves the cursor past the skipped whitespace and stays inside the buffer. |
| Utf8Lexer.BooleanExact | SpanJson/JsonReader.Utf8.cs:180-233 | `true` exactly when the bytes are `true` (cursor +4), `false` exactly when they are `false` (cursor +5). Nothing else succeeds. |
| Utf8Lexer.BooleanOtherByte | SpanJson/JsonReader.Utf8.cs:228-232 | A first byte other than `t` or `f` gives `InvalidSymbol`. |
| JsonReaderUtf8.JsonReader.ReadBoolean | SpanJson/JsonReader.Utf8.cs:180-233 | The method's value and cursor are those of `Boolean`. |
| Utf8Lexer.IsNull | SpanJson/JsonReader.Utf8.cs:535-561 | `false` leaves the cursor at the first non-whitespace byte. `true` moves it 4 further, inside the buffer. |
| Utf8Lexer.IsNullExact | SpanJson/JsonReader.Utf8.cs:535-561 | `true` exactly on `null`. `false` exactly when the byte is not `n` or is past the end. `n` followed by anything else is an error. |
| JsonReaderUtf8.JsonReader.ReadIsNull | SpanJson/JsonReader.Utf8.cs:535-561 | The method's value and cursor are those of `IsNull`. |
| JsonReaderUtf8.JsonReader.ReadNullLiteral | SpanJson/JsonReader.Utf8.cs:564-570 | `null` is consumed. Any other byte is `InvalidSymbol`, and a literal cut off by the end is `OutOfRange`. |
| JsonReaderUtf8.JsonReader.ReadBeginArray | SpanJson/JsonReader.Utf8.cs:606-617 | After whitespace, a `[` is consumed and gives true; otherwise false with the cursor at that byte. |
| Utf8Lexer.BeginArrayOrThrow | SpanJson/JsonReader.Utf8.cs:597-603 | Succeeds exactly on `[` after whitespace, consuming it. Otherwise `ExpectedBeginArray`. |
| JsonReaderUtf8.JsonReader.ReadBeginArrayOrThrow | SpanJson/JsonReader.Utf8.cs:597-603 | The method moves the cursor as `BeginArrayOrThrow` says. |
| JsonReaderUtf8.JsonReader.ReadIsBeginObject | SpanJson/JsonReader.Utf8.cs:645-656 | After whitespace, `{` is consumed and gives true. Any other byte gives false without consuming. The end is `OutOfRange`. |
| Utf8Lexer.BeginObjectOrThrow | SpanJson/JsonReader.Utf8.cs:659-665 | Succeeds exactly on `{` after whitespace, consuming it. Otherwise `ExpectedBeginObject`, or `OutOfRange` at the end. |
| JsonReaderUtf8.JsonReader.ReadBeginObjectOrThrow | SpanJson/JsonReader.Utf8.cs:659-665 | The method moves the cursor as `BeginObjectOrThrow` says. |
| JsonReaderUtf8.JsonReader.ReadIsEndObject | SpanJson/JsonReader.Utf8.cs:678-689 | After whitespace, `}` is consumed and gives true, and another byte gives false. The end is `OutOfRange`. |
| Utf8Lexer.EndObjectOrThrow | SpanJson/JsonReader.Utf8.cs:668-674 | Succeeds exactly on `}` after whitespace, consuming it. Otherwise `ExpectedEndObject`, or `OutOfRange` at the end. |
| JsonReaderUtf8.JsonReader.ReadEndObjectOrThrow | SpanJson/JsonReader.Utf8.cs:668-674 | The method moves the cursor as `EndObjectOrThrow` says. |
| Utf8Lexer.EndArrayOrSeparator | SpanJson/JsonReader.Utf8.cs:620-642 | The cursor never moves back past the whitespace, and it stays in the buffer unless it did not move. |
| Utf8Lexer.EndObjectOrSeparator | SpanJson/JsonReader.Utf8.cs:692-714 | The same bounds for the object form. |
| Utf8Lexer.SeparatorProtocol | SpanJson/JsonReader.Utf8.cs:620-642 | A `]` gives true and is consumed. Otherwise the count goes up by one. At count 0 nothing is consumed. Later a `,` is consumed, and any other byte, or the end, is `ExpectedSeparator`. |
| Utf8Lexer.ObjectSeparatorProtocol | SpanJson/JsonReader.Utf8.cs:692-714 | The same protocol with `}`, except that the unchecked separator peek at the end is `OutOfRange`. |
| JsonReaderUtf8.JsonReader.TryReadIsEndArrayOrValueSeparator | SpanJson/JsonReader.Utf8.cs:620-642 | The method's answer, new count and cursor are those of `EndArrayOrSeparator`. |
| JsonReaderUtf8.JsonReader.TryReadIsEndObjectOrValueSeparator | SpanJson/JsonReader.Utf8.cs:692-714 | The method's answer, new count and cursor are those of `EndObjectOrSeparator`. |
| Utf8Strings.HexValue | SpanJson/JsonReader.Utf8.cs:273 | The value of a hexadecimal digit is below 16. |
| Utf8Strings.Hex4 | SpanJson/JsonReader.Utf8.cs:273 | Four bytes decode exactly when all are hex digits, to their base-16 value; otherwise `InvalidSymbol`. |
| Utf8Strings.EscapeLetter | SpanJson/JsonReader.Utf8.cs:401-448 | The escape table is defined exactly on `"`, `\`, `/`, `b`, `f`, `n`, `r`, `t`. Any other letter is `InvalidSymbol`. |
| Utf8Strings.Unescape | SpanJson/JsonReader.Utf8.cs:382-462 | The only errors are `InvalidSymbol` and `OutOfRange`, and a well-formed body never gives `OutOfRange`. On a well-formed body the output has `|span| - escapedCharsSize` chars. |
| Utf8Strings.FastPathAgrees | SpanJson/JsonReader.Utf8.cs:369 | A span with no backslash unescapes to its bytes verbatim, so the verbatim conversion and the unescaper agree. |
| JsonReaderUtf8.UnescapeSpan | SpanJson/JsonReader.Utf8.cs:382-462 | The in-place loop over the char buffer returns `Unescape` of the span: the verbatim runs copied, one char per escape, the errors of the escape table. |
| JsonReaderUtf8.CopyAscii | SpanJson/JsonReader.Utf8.cs:397-398 | Copying a verbatim run writes its chars after the prefix already written and leaves the rest of the buffer alone. |
| Utf8Strings.CharInternal | SpanJson/JsonReader.Utf8.cs:242-286 | A one-byte span is that char. Any other span that does not start with a backslash is an error. |
| Utf8Strings.HexQuad | SpanJson/JsonReader.Utf8.cs:273 | Reference writer: four hex digits. |
| Utf8Strings.HexQuadRoundTrip | SpanJson/JsonReader.Utf8.cs:273 | The hex decoder reads back the four hex digits of every 16-bit code unit. |
| Utf8Strings.EscapeChar16 | SpanJson/JsonReader.Utf8.cs:242-286 | Reference writer for one code unit: between 1 and 6 bytes. |
| Utf8Strings.Escape | SpanJson/JsonReader.Utf8.cs:382-462 | Reference writer for a string: at least one byte per char. |
| Utf8Strings.EscapeCharStep | SpanJson/JsonReader.Utf8.cs:382-462 | Writing one char in front of a body keeps it well formed, adds `|e|-1` to the escape count and adds that char to the unescaped text. |
| Utf8Strings.UnicodeEscapeStep | SpanJson/JsonReader.Utf8.cs:425-436 | A six-byte escape is `\u` followed by the char's four hex digits. |
| Utf8Strings.UnescapeEscape | SpanJson/JsonReader.Utf8.cs:382-462 | Round trip: the escaped form of any string is a well-formed body with escape count `|e|-|cs|`, and it unescapes to the string. |
| Utf8Strings.FindEscapedString | SpanJson/JsonReader.Utf8.cs:867-894 | The string finder stops at the quote after an escaped string and reports `|e|-|cs|`. |
| Utf8Strings.CharEscapeRoundTrip | SpanJson/JsonReader.Utf8.cs:242-286 | The char reader reads back the escaped form of every code unit. |
| Utf8Strings.StringSpanInternal | SpanJson/JsonReader.Utf8.cs:478-497 | The only errors are `OutOfRange` and `ExpectedDoubleQuote`. On success the cursor is after both quotes and inside the buffer. |
| Utf8Strings.StringSpanInternalSpec | SpanJson/JsonReader.Utf8.cs:478-497 | Success with (body, escapes, cursor) exactly when a `"` opens at the cursor, the body is well formed and closed by a `"`, escapes is its `EscapeSize` and the cursor is after the closing quote. |
| JsonReaderUtf8.JsonReader.ReadStringSpanInternal | SpanJson/JsonReader.Utf8.cs:478-497 | The method's span, escape count and cursor are those of `StringSpanInternal`. |
| Utf8Strings.StringSpanWithQuotes | SpanJson/JsonReader.Utf8.cs:503-521 | The result is the buffer slice from the opening to the closing quote, both included, and the cursor is after it. |
| Utf8Strings.StringSpanWithQuotesSpec | SpanJson/JsonReader.Utf8.cs:503-521 | The quoted span is read exactly when it starts at the cursor with a quote, holds a well-formed body and ends with the first unescaped quote; the cursor is after it. |
| JsonReaderUtf8.JsonReader.ReadStringSpanWithQuotes | SpanJson/JsonReader.Utf8.cs:503-521 | The method's span and cursor are those of `StringSpanWithQuotes`. |
| Utf8Strings.StringSpan | SpanJson/JsonReader.Utf8.cs:467-475 | A success ends at least two bytes past the whitespace and inside the buffer. |
| Utf8Strings.StringSpanSpec | SpanJson/JsonReader.Utf8.cs:467-475 | A span is read exactly in two layouts after whitespace: the literal `null`, giving the one-byte null terminator and ending after it; or a quote, a well-formed body, a quote, giving the raw body bytes and ending after the closing quote. |
| JsonReaderUtf8.JsonReader.ReadStringSpan | SpanJson/JsonReader.Utf8.cs:467-475 | `null` gives the null terminator; otherwise the body of the quoted string. |
| Utf8Strings.NameSeparatorAt | SpanJson/JsonReader.Utf8.cs:340 | The byte right after the name must be `:` and is consumed. Otherwise `ExpectedDoubleQuote`, or `OutOfRange` at the end. |
| JsonReaderUtf8.JsonReader.ReadNameSeparator | SpanJson/JsonReader.Utf8.cs:340-343 | The method moves the cursor as `NameSeparatorAt` says. |
| Utf8Strings.NameSpan | SpanJson/JsonReader.Utf8.cs:337-346 | A name and its `:` end at least three bytes past the whitespace. |
| Utf8Strings.NameSpanSpec | SpanJson/JsonReader.Utf8.cs:337-346 | A name is read exactly in the two string layouts followed at once by `:`: `null:` gives the null terminator, a quoted body and `:` gives the raw body bytes; the cursor is after the colon. |
| JsonReaderUtf8.JsonReader.ReadNameSpan | SpanJson/JsonReader.Utf8.cs:337-346 | The method's span and cursor are those of `NameSpan`. |
| JsonReaderUtf8.JsonReader.ReadString | SpanJson/JsonReader.Utf8.cs:361-370 | `null` gives a null string. Otherwise the body is copied verbatim when it has no escapes, or unescaped. |
| Utf8Strings.EscapedBody | SpanJson/JsonReader.Utf8.cs:361-370 | An escaped string is a well-formed body, and with no escapes its bytes are the string. |
| Utf8Strings.QuotedSpan | SpanJson/JsonReader.Utf8.cs:478-497 | A quoted well-formed body is read as that body and its escape count. |
| Utf8Strings.QuotedNotNull | SpanJson/JsonReader.Utf8.cs:535-561 | A buffer starting with `"` is not the null literal, and nothing is consumed. |
| Utf8Strings.ReadStringRoundTrip | SpanJson/JsonReader.Utf8.cs:361-370 | `ReadUtf8String` reads back every escaped string between quotes, and the cursor is after the closing quote. |
| Utf8Strings.ReadStringOfBody | SpanJson/JsonReader.Utf8.cs:361-370 | When the body stands for a text (verbatim or unescaped), the string reader returns that text. |
| Utf8Strings.EscapedNameReturnsTypeName | SpanJson/JsonReader.Utf8.cs:357 | As written, the name `"ab":` reads as the span's type name, not as `ab`. |
| Utf8Strings.EscapedNameEscapedAgrees | SpanJson/JsonReader.Utf8.cs:349-358 | On a name with escapes the reader as written gives the corrected reader's answer, so the corrected round trip holds for it. |
| Utf8Strings.EscapedNameIntendedRoundTrip | SpanJson/JsonReader.Utf8.cs:349-358 | The corrected name reader reads back every escaped name followed by `:`, and the cursor is after the colon. |
| Utf8Strings.EscapedNameOfBody | SpanJson/JsonReader.Utf8.cs:349-358 | The corrected name reader returns the text its body stands for. |
| JsonReaderUtf8.JsonReader.ReadEscapedName | SpanJson/JsonReader.Utf8.cs:349-358 | The method's result and cursor are those of `EscapedName`, the reader as written: a quoted body and `:`; a name with escapes is unescaped, one without becomes the span's type name. |
| Utf8Strings.ReadCharRoundTrip | SpanJson/JsonReader.Utf8.cs:235-239 | `ReadUtf8Char` reads back every escaped code unit between quotes. |
| JsonReaderUtf8.JsonReader.ReadChar | SpanJson/JsonReader.Utf8.cs:235-239 | The string span, then the one-char decoder. |
| Utf8Dynamic.SkipValue | SpanJson/JsonReader.Utf8.cs:796-840 | The cursor never moves back, and on a value token it moves forward. The only errors are `ExpectedDoubleQuote` and `OutOfRange`. |
| JsonReaderUtf8.JsonReader.SkipNextValue | SpanJson/JsonReader.Utf8.cs:796-840 | The method moves the cursor as `SkipValue` says. Literals are skipped by their length without checking the letters. |
| Utf8Dynamic.SkipSegment | SpanJson/JsonReader.Utf8.cs:746-794 | The cursor never moves back. |
| Utf8Dynamic.SkipScalars | SpanJson/JsonReader.Utf8.cs:779-790 | The scalar loop never moves back. |
| Utf8Dynamic.SkipSegmentWs | SpanJson/JsonReader.Utf8.cs:746-794 | Skipping whitespace first does not change where a segment skip ends. |
| Utf8Dynamic.ScalarsAsSegment | SpanJson/JsonReader.Utf8.cs:779-790 | The scalar loop fails when a value skip fails. Otherwise it goes on from after that value. |
| JsonReaderUtf8.JsonReader.SkipNextSegment | SpanJson/JsonReader.Utf8.cs:741-744 | The method moves the cursor as `SkipSegment` at depth 0 says. |
| JsonReaderUtf8.JsonReader.SkipNestedSegment | SpanJson/JsonReader.Utf8.cs:746-794 | The recursive method moves the cursor as `SkipSegment` at its depth says. |
| JsonReaderUtf8.JsonReader.SkipScalarRun | SpanJson/JsonReader.Utf8.cs:779-790 | The do-while loop moves the cursor as `SkipScalars` says. |
| Utf8Dynamic.SkipMatchesDynamic | SpanJson/JsonReader.Utf8.cs:741-794 | For every value the dynamic reader accepts, skipping a segment ends where the reader ends. After a scalar it also skips the whitespace that follows. |
| Utf8Dynamic.DynValue | SpanJson/JsonReader.Utf8.cs:901-964 | A value read by the dynamic reader lies strictly after its start and inside the buffer. |
| Utf8Dynamic.DynOpens | SpanJson/JsonReader.Utf8.cs:909-931 | An accepted object or array is read from the byte after its opening token. |
| Utf8Dynamic.DynScalar | SpanJson/JsonReader.Utf8.cs:909-931 | A leaf consumes at least one byte and stays in the buffer. |
| Utf8Dynamic.DynMembers | SpanJson/JsonReader.Utf8.cs:933-944 | The member loop yields an object and ends after the `}`. |
| Utf8Dynamic.DynElements | SpanJson/JsonReader.Utf8.cs:945-956 | The element loop yields an array and ends after the `]`. |
| JsonReaderUtf8.JsonReader.ReadDynamic | SpanJson/JsonReader.Utf8.cs:896-899 | The method's tree and cursor are those of `DynValue` at depth 0. |
| JsonReaderUtf8.JsonReader.ReadDynamicNested | SpanJson/JsonReader.Utf8.cs:901-964 | The recursive method's tree and cursor are those of `DynValue` at its depth. |
| JsonReaderUtf8.JsonReader.ReadObjectMembers | SpanJson/JsonReader.Utf8.cs:933-944 | The loop filling the dictionary ends as `DynMembers` does. |
| JsonReaderUtf8.JsonReader.ReadArrayElements | SpanJson/JsonReader.Utf8.cs:945-956 | The loop filling the list ends as `DynElements` does. |
| Utf8Dynamic.Nest | SpanJson/JsonReader.Utf8.cs:901-908 | Test document: `d` opening brackets, `0`, `d` closing brackets. |
| Utf8Dynamic.OneElement | SpanJson/JsonReader.Utf8.cs:945-956 | A one-element array is read as that element. |
| Utf8Dynamic.FailedElement | SpanJson/JsonReader.Utf8.cs:945-956 | An element that fails makes the array fail with the same error. |
| Utf8Dynamic.NestFrom | SpanJson/JsonReader.Utf8.cs:901-908 | Read from any depth into the test document, it is accepted exactly when the deepest value is at depth 256 or less. Otherwise `NestingTooDeep`. |
| Utf8Dynamic.NestingLimit | SpanJson/JsonReader.Utf8.cs:901-908 | 256 nested arrays are accepted and 257 give `NestingTooDeep`. |
| Utf8Dynamic.MemberPairs | SpanJson/JsonReader.Utf8.cs:933-944 | The members in document order, each name as its raw bytes. It ends inside the buffer. |
| Utf8Dynamic.MembersArePairs | SpanJson/JsonReader.Utf8.cs:933-944 | The object loop is the assignment of the member list, in order, into the dictionary. |
| Utf8Dynamic.AssignKeys | SpanJson/JsonReader.Utf8.cs:938-940 | The object's keys are exactly the names that occur. |
| Utf8Dynamic.AssignUntouched | SpanJson/JsonReader.Utf8.cs:938-940 | A key no member names keeps its earlier value. |
| Utf8Dynamic.LastValueWins | SpanJson/JsonReader.Utf8.cs:940 | A repeated name maps to the value of its last occurrence. |
| Utf8Dynamic.DynamicObject | SpanJson/JsonReader.Utf8.cs:931-944 | Every object read, the empty one included, is the dictionary assigned from its member list in document order, and every name is a raw name of the document. |
| Utf8Dynamic.DynamicObjectMembers | SpanJson/JsonReader.Utf8.cs:933-944 | In an object read, a repeated name holds the value of its last occurrence. |
| Utf8Dynamic.MemberNamesRaw | SpanJson/JsonReader.Utf8.cs:936-940 | Every name in the member list is a name span of the document (`null:` or a quoted body followed by `:`) widened byte by byte, never unescaped. |
| Utf8Dynamic.ElementList | SpanJson/JsonReader.Utf8.cs:945-956 | A list of elements ends after the `]`, past where it started and inside the buffer. |
| Utf8Dynamic.ElementsAreList | SpanJson/JsonReader.Utf8.cs:945-956 | The array loop appends the element list to what it has, in document order, and fails exactly where the element list fails. |
| Utf8Dynamic.DynamicArrayElements | SpanJson/JsonReader.Utf8.cs:945-956 | A whole array read is the array of its element values, in document order. |
| DateTimeParser.Two | SpanJson/Helpers/DateTimeParser.cs:70-206 | A two-digit field is below 100. |
| DateTimeParser.Four | SpanJson/Helpers/DateTimeParser.cs:70-90 | The year field is below 10000. |
| DateTimeParser.FixedFieldsAcceptTemplate | SpanJson/Helpers/DateTimeParser.cs:70-206 | The fixed part is accepted exactly when it has digits at 0-3, 5-6, 8-9, 11-12, 14-15, 17-18, `-` at 4 and 7, `T` at 10 and `:` at 13 and 16. |
| DateTimeParser.FixedFieldValues | SpanJson/Helpers/DateTimeParser.cs:70-206 | The year, month, day, hour, minute and second are the plain decimal values of their digit groups. |
| DateTimeParser.TwoDigits | SpanJson/Helpers/DateTimeParser.cs:205 | Two digits are `d1 * 10 + d2`. |
| DateTimeParser.FourDigits | SpanJson/Helpers/DateTimeParser.cs:70-90 | Four digits are `d1 * 1000 + d2 * 100 + d3 * 10 + d4`. |
| DateTimeParser.DigitRun | SpanJson/Helpers/DateTimeParser.cs:224-235 | The fraction loop takes at most its budget of digits, inside the input. |
| DateTimeParser.DigitRunIsDigits | SpanJson/Helpers/DateTimeParser.cs:224-235 | Every char the loop takes is a digit. |
| DateTimeParser.FractionRunEnds | SpanJson/Helpers/DateTimeParser.cs:224-235 | The loop stops at the end of the input, at its budget, or on a non-digit. |
| DateTimeParser.FractionSpec | SpanJson/Helpers/DateTimeParser.cs:211-238 | A fraction is read exactly when the input is longer than 20 and char 19 is `.`. Then there are 1 to 8 digits from 20, stopping at a non-digit, and the value is their plain decimal value. Otherwise it is 0 and the cursor stays at 19. |
| DateTimeParser.FractionRead | SpanJson/Helpers/DateTimeParser.cs:211-238 | The fraction is the required digit plus the loop's run. |
| DateTimeParser.FractionOf | SpanJson/Helpers/DateTimeParser.cs:211-238 | Conversely, a digit block ended by a non-digit, the end or the eighth digit is read as its decimal value. |
| DateTimeParser.ReadZone | SpanJson/Helpers/DateTimeParser.cs:240-314 | The designator read stays within the input. |
| DateTimeParser.ZoneSpec | SpanJson/Helpers/DateTimeParser.cs:240-314 | No zone exactly at the end or on a char other than `Z`/`+`/`-`, and that char is counted. `Z` is Utc, counting it. `±` needs two digits, `:` and two digits, counting all six chars. |
| DateTimeParser.Iso8601 | SpanJson/Helpers/DateTimeParser.cs:58-326 | A grammar success implies the fixed template and a consumed count from 19 to the input length. |
| DateTimeParser.TryParseDateTimeOffsetIso8601 | SpanJson/Helpers/DateTimeParser.cs:58-326 | Every success has calendar-valid fields and consumes 19 to `|s|` chars. |
| DateTimeParser.ShortInputFails | SpanJson/Helpers/DateTimeParser.cs:62-68 | Input shorter than 19 chars fails both parsers. |
| DateTimeParser.ParsedFields | SpanJson/Helpers/DateTimeParser.cs:58-326 | On success the fields are the decimal values of the fixed groups, and the kind is the zone's. |
| DateTimeParser.KindMapping | SpanJson/Helpers/DateTimeParser.cs:20-45 | Unspecified iff no zone, Utc iff `Z`, Local iff `±hh:mm`. `TryParseDateTime` reports the same consumed count. |
| DateTimeParser.ConsumedSpec | SpanJson/Helpers/DateTimeParser.cs:240-326 | The consumed count: through the fraction (or one char more if a char follows), the `Z`, or the six offset chars. |
| DateTimeParser.InvalidFieldsFail | SpanJson/Helpers/DateTimeParser.cs:329-358 | Calendar-invalid fields make both parsers answer false rather than fail. |
| DateTimeParser.PlainDateTimeAccepted | SpanJson/Helpers/DateTimeParser.cs:240-256 | A valid 19-char date-time parses as Unspecified with 19 consumed. |
| DateTimeParser.DecimalOfAppend | SpanJson/Helpers/DateTimeParser.cs:233 | Appending a digit multiplies the value by ten and adds the digit. |
| DateTimeParser.ClockTicksValue | SpanJson/Helpers/DateTimeParser.cs:329-358 | The example instant is valid and falls on the expected tick count. |
| DateTimeParser.ClockCreatable | SpanJson/Helpers/DateTimeParser.cs:329-358 | Both constructors accept the example instant with any fraction below 10^8 and any offset of at most 14 hours. |
| DateTimeParser.UtcWithFraction | SpanJson/Helpers/DateTimeParser.cs:47-57 | `2017-06-12T05:30:45.768Z` is Utc, fraction 768, 24 chars consumed. |
| DateTimeParser.WithoutDesignator | SpanJson/Helpers/DateTimeParser.cs:47-57 | `2017-06-12T05:30:45` is Unspecified, 19 chars consumed. |
| DateTimeParser.WithNegativeOffset | SpanJson/Helpers/DateTimeParser.cs:47-57 | `2017-06-12T05:30:45.7680000-07:00` is Local at -7:00, fraction 7680000, 33 chars consumed. |
| DateTimeParser.MonthThirteenFails | SpanJson/Helpers/DateTimeParser.cs:329-342 | Month 13 makes the parse answer false. |
| DateTimeParser.OffsetSignAsWritten | SpanJson/Helpers/DateTimeParser.cs:314-316 | As written, `-` flips only the hours. This agrees with the intended offset for `+` and for whole hours, and otherwise differs by twice the minutes. |
| DateTimeParser.MinusSevenThirty | SpanJson/Helpers/DateTimeParser.cs:274-326 | `-07:30` parses; as written it gives -390 minutes where -450 is meant. |
| DateTimeParser.IntendedOffsetMinutes | SpanJson/Helpers/DateTimeParser.cs:274-316 | The corrected offset: for `-` it is minus the whole `hh*60+mm`, for `+` plus it, and 0 without an offset. |
| DateTimeParser.IntendedOffsetSymmetric | SpanJson/Helpers/DateTimeParser.cs:314 | The corrected offsets for `-hh:mm` and `+hh:mm` are opposite. |
| DateTimeParser.MinusFourteenThirty | SpanJson/Helpers/DateTimeParser.cs:314-322 | `-14:30` is accepted as written (offset -13:30) although the corrected offset, -14:30, is out of range. |
| DateTimeParser.MinusZeroThirtyAtFirstInstant | SpanJson/Helpers/DateTimeParser.cs:314-322 | `0001-01-01T00:00:00-00:30` is rejected as written (offset +0:30 puts UTC before the first instant) although the corrected offset accepts it. |
| DateTimeParser.TryParseDateTimeOffset | SpanJson/Helpers/DateTimeParser.cs:14-18 | Succeeds exactly when the ISO parser does. On success it returns that parser's value and consumed count: the grammar's fields, fraction and zone, and its count. |
| DateTimeParser.ScanFraction | SpanJson/Helpers/DateTimeParser.cs:211-238 | The fraction loop returns the grammar's fraction and cursor, and fails exactly when the grammar does. |
| DateTimeParser.ScanZone | SpanJson/Helpers/DateTimeParser.cs:240-314 | The designator code returns the grammar's zone and cursor, and fails exactly when the grammar does. |
| DateTimeParser.TryParseIso8601 | SpanJson/Helpers/DateTimeParser.cs:58-326 | Succeeds exactly when the specification function does, with its value, count and kind. Every failure yields the default value, 0 consumed and Unspecified. |
| DateTimeParser.TryParseDateTimeMethod | SpanJson/Helpers/DateTimeParser.cs:20-45 | The kind selects the representation. A failure yields the default and 0 consumed. |

## Left out

- Single, Double and Decimal readers (SpanJson/JsonReader.Utf8.cs:55-73, 523-532): floating point, delegated to the library's `Utf8Parser`.
- TimeSpan, Guid, Version and Uri readers (SpanJson/JsonReader.Utf8.cs:312-334, 717-738): thin wrappers over library parsers.
- DateTime and DateTimeOffset readers of the UTF-8 reader (SpanJson/JsonReader.Utf8.cs:288-310): they call a byte overload of the date parser, which is not part of this model. The char parser they follow is modelled in `DateTimeParser`.
- UTF-8 to UTF-16 decoding by `Encoding.UTF8` (SpanJson/JsonReader.Utf8.cs:284, 375, 384, 397, 458): a foreign library. Each byte is one code unit, which is exact for ASCII only.
- Hex parsing by `Utf8Parser` (SpanJson/JsonReader.Utf8.cs:273, 430): replaced by the four-hex-digit `Hex4`. The library's acceptance of fewer than four hex digits is not modelled, so such input is `InvalidSymbol` here.
- The `SpanJsonDynamic*` wrapper classes: they are not part of this model. The tree is the datatype `Dyn` (Null, Bool, Number with the raw bytes, Str with the raw bytes and quotes, Obj, Arr).
- `LocalDateTime` and `UtcDateTime` (SpanJson/Helpers/DateTimeParser.cs:27-35), and the implicit conversion of a Local `DateTime` at 252: they depend on the machine's time zone. The model keeps the fields, raw fraction ticks, offset and kind.
- Tick arithmetic of `DateTime`/`DateTimeOffset` beyond the range checks the constructors make.
- The cursor after an error is not specified, because the source throws and abandons the reader.
- The reader's constructor and its fields are declared in SpanJson/JsonReader.cs, which is not part of this model. The class's constructor just takes the buffer and puts the cursor at 0.
- DateTimeParser.ReadZone: the input can end inside `±hh:mm` before any digit or `:` check there has failed (`+1`, `+12`, `+12:`, `+12:3`). Then the source reads past the string (SpanJson/Helpers/DateTimeParser.cs:277-312) and throws `IndexOutOfRangeException`. The model answers false (None) there, because the parser's result has no exception case. When a check fails inside the string first (`+ab`, `+12x`), the source returns false as well, and the model matches it.
- Utf8Lexer.NumberInt64: models the source's unchecked `(long)` cast and negation (116-117) as wrap-around and not as an error. `NumberInt64Checked` is the checked reference beside it.

## Findings

| source | as written | input that shows it | evidently intended | confidence | as-written member | corrected member |
|---|---|---|---|---|---|---|
| SpanJson/Helpers/DateTimeParser.cs:314-316 | only the hours of a `-hh:mm` offset are negated before `new TimeSpan(offsetHours, offsetMinutes, 0)` | `2017-06-12T05:30:45-07:30` gets offset -6:30 (-390 minutes) | offset -7:30 (-450 minutes) | not executed | DateTimeParser.OffsetSignAsWritten | DateTimeParser.IntendedOffsetMinutes |
| SpanJson/JsonReader.Utf8.cs:357 | a name without escapes is converted with `span.ToString()` on a `ReadOnlySpan<byte>` | `"ab":` reads as `System.ReadOnlySpan<Byte>[2]` | the name's text `ab`, as `ReadUtf8String` converts it | not executed | Utf8Strings.EscapedNameReturnsTypeName | Utf8Strings.EscapedNameIntendedRoundTrip |
