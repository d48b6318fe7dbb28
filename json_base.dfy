/** Shared vocabulary of the UTF-8 JSON reader: bytes, UTF-16 code units,
    the byte constants the reader compares against, the error kinds it
    raises, the token classification and the dynamic value tree. */
module JsonBase {

  /** One byte of the input buffer. */
  newtype byte = x: int | 0 <= x < 0x100

  /** One .NET `char`: a UTF-16 code unit (lone surrogates included). */
  newtype Char16 = x: int | 0 <= x < 0x1_0000

  type Bytes = seq<byte>
  type String16 = seq<Char16>

  // ASCII constants used by the reader
  const Tab: byte := 0x09
  const LineFeed: byte := 0x0A
  const CarriageReturn: byte := 0x0D
  const Space: byte := 0x20
  const Quote: byte := 0x22          // "
  const Plus: byte := 0x2B           // +
  const Comma: byte := 0x2C          // ,
  const Minus: byte := 0x2D          // -
  const Dot: byte := 0x2E            // .
  const Slash: byte := 0x2F          // /
  const Zero: byte := 0x30           // 0
  const Nine: byte := 0x39           // 9
  const Colon: byte := 0x3A          // :
  const UpperE: byte := 0x45         // E
  const UpperU: byte := 0x55         // U
  const LeftBracket: byte := 0x5B    // [
  const Backslash: byte := 0x5C      // \
  const RightBracket: byte := 0x5D   // ]
  const LowerA: byte := 0x61
  const LowerB: byte := 0x62
  const LowerE: byte := 0x65
  const LowerF: byte := 0x66
  const LowerL: byte := 0x6C
  const LowerN: byte := 0x6E
  const LowerR: byte := 0x72
  const LowerS: byte := 0x73
  const LowerT: byte := 0x74
  const LowerU: byte := 0x75
  const LeftBrace: byte := 0x7B      // {
  const RightBrace: byte := 0x7D     // }

  const TrueLiteral: Bytes := [LowerT, LowerR, LowerU, LowerE]
  const FalseLiteral: Bytes := [LowerF, LowerA, LowerL, LowerS, LowerE]
  const NullLiteral: Bytes := [LowerN, LowerU, LowerL, LowerL]

  /** The span ReadUtf8StringSpan returns for a JSON `null`. */
  const NullTerminator: Bytes := [0]

  const MaxUInt64: int := 0xFFFF_FFFF_FFFF_FFFF
  const TwoTo63: int := 0x8000_0000_0000_0000
  const TwoTo64: int := 0x1_0000_0000_0000_0000

  /** Maximal nesting depth of the dynamic reader. */
  const MaxNesting: nat := 256

  predicate IsWhitespace(b: byte) {
    b == Space || b == Tab || b == CarriageReturn || b == LineFeed
  }

  predicate IsDigit(b: byte) {
    Zero <= b <= Nine
  }

  function DigitValue(b: byte): nat
    requires IsDigit(b)
  {
    (b - Zero) as nat
  }

  /** `\u` and `\U` both introduce four hexadecimal digits. */
  predicate IsUnicodeMarker(b: byte) {
    b == LowerU || b == UpperU
  }

  /** The error kinds a read can end with. The first nine are the
      reader's own parser errors; Overflow is the `checked` arithmetic
      exception, OutOfRange an index or slice past the end of a span. */
  datatype ParserError =
    | EndOfData
    | InvalidSymbol
    | InvalidNumberFormat
    | ExpectedDoubleQuote
    | ExpectedSeparator
    | ExpectedBeginArray
    | ExpectedBeginObject
    | ExpectedEndObject
    | NestingTooDeep
    | Overflow
    | OutOfRange

  datatype Result<+T> = Ok(value: T) | Err(error: ParserError)

  /** A value read together with the cursor position after it. */
  datatype Read<+T> = Read(value: T, next: nat)

  /** Outcome of a check that yields no value. */
  datatype Check = Pass | Fail(error: ParserError)

  /** Classification of the byte under the cursor. The first five
      constructors are the ones the segment skipper treats as structural. */
  datatype JsonToken =
    | None
    | BeginObject
    | EndObject
    | BeginArray
    | EndArray
    | String
    | Number
    | True
    | False
    | Null
    | ValueSeparator
    | NameSeparator
  {
    /** `(byte)token > 4`: neither None nor a begin/end token. */
    predicate IsValueOrSeparator() {
      !(None? || BeginObject? || EndObject? || BeginArray? || EndArray?)
    }
  }

  /** The dynamic value tree. Numbers keep their raw span, strings
      their raw span including both quotes. */
  datatype Dyn =
    | Null
    | Bool(b: bool)
    | Number(raw: Bytes)
    | Str(raw: Bytes)
    | Obj(fields: map<String16, Dyn>)
    | Arr(items: seq<Dyn>)

  /** Byte-to-char conversion of a verbatim run: one code unit per byte,
      which is UTF-8 decoding for ASCII input. */
  function AsciiChars(s: Bytes): (r: String16)
    ensures |r| == |s|
    ensures forall k :: 0 <= k < |s| ==> r[k] as int == s[k] as int
  {
    seq(|s|, k requires 0 <= k < |s| => s[k] as int as Char16)
  }
}
