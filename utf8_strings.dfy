/** Specification of the string side of the UTF-8 reader: the escape
    table, unescaping, the single-character reader and the string and
    name span readers. A reference escaper states what the readers
    invert. */
module Utf8Strings {
  import opened JsonBase
  import opened Utf8Lexer

  // ---------------------------------------------------------------------
  // Hexadecimal digits of `\u` escapes

  predicate IsHexDigit(b: byte) {
    IsDigit(b) || (0x41 <= b <= 0x46) || (0x61 <= b <= 0x66)
  }

  function HexValue(b: byte): (v: nat)
    requires IsHexDigit(b)
    ensures v < 16
  {
    if IsDigit(b) then (b - Zero) as nat
    else if b <= 0x46 then (b - 0x41) as nat + 10
    else (b - 0x61) as nat + 10
  }

  /** Four hexadecimal digits of either case, as one UTF-16 code unit. */
  function Hex4(s: Bytes): (r: Result<Char16>)
    requires |s| == 4
    ensures r.Ok? <==> forall k :: 0 <= k < 4 ==> IsHexDigit(s[k])
    ensures r.Ok? ==>
      (r.value as int == HexValue(s[0]) * 4096 + HexValue(s[1]) * 256 + HexValue(s[2]) * 16 + HexValue(s[3]))
    ensures r.Err? ==> r.error == InvalidSymbol
  {
    if IsHexDigit(s[0]) && IsHexDigit(s[1]) && IsHexDigit(s[2]) && IsHexDigit(s[3]) then
      Ok((HexValue(s[0]) * 4096 + HexValue(s[1]) * 256 + HexValue(s[2]) * 16 + HexValue(s[3])) as Char16)
    else Err(InvalidSymbol)
  }

  // ---------------------------------------------------------------------
  // The escape table

  /** The character a two-byte escape `\b` stands for; an unknown letter
      is InvalidSymbol. The `u`/`U` escapes are handled by the callers. */
  function EscapeLetter(b: byte): (r: Result<Char16>)
    ensures r.Err? ==> r.error == InvalidSymbol
    ensures r.Ok? <==> b in {Quote, Backslash, Slash, LowerB, LowerF, LowerN, LowerR, LowerT}
  {
    if b == Quote then Ok(0x22)
    else if b == Backslash then Ok(0x5C)
    else if b == Slash then Ok(0x2F)
    else if b == LowerB then Ok(0x08)
    else if b == LowerF then Ok(0x0C)
    else if b == LowerN then Ok(0x0A)
    else if b == LowerR then Ok(0x0D)
    else if b == LowerT then Ok(0x09)
    else Err(InvalidSymbol)
  }

  function Prepend(c: Char16, r: Result<String16>): Result<String16> {
    match r
    case Ok(cs) => Ok([c] + cs)
    case Err(e) => Err(e)
  }

  /** UnescapeUtf8: verbatim bytes are copied one char per byte, every
      escape becomes one char. A backslash at the end, or a `\u` with
      fewer than four bytes after it, reads past the span (OutOfRange); an
      unknown escape letter or a non-hex digit is InvalidSymbol. */
  function Unescape(s: Bytes): (r: Result<String16>)
    ensures r.Err? ==> r.error == OutOfRange || r.error == InvalidSymbol
    ensures Body(s) ==> r != Err(OutOfRange)
    ensures Body(s) && r.Ok? ==> |r.value| == |s| - EscapeSize(s)
    decreases |s|
  {
    if |s| == 0 then Ok([])
    else if s[0] != Backslash then Prepend(s[0] as int as Char16, Unescape(s[1..]))
    else if |s| < 2 then Err(OutOfRange)
    else if IsUnicodeMarker(s[1]) then
      if |s| < 6 then Err(OutOfRange)
      else match Hex4(s[2..6])
        case Err(e) => Err(e)
        case Ok(c) => Prepend(c, Unescape(s[6..]))
    else match EscapeLetter(s[1])
      case Err(e) => Err(e)
      case Ok(c) => Prepend(c, Unescape(s[2..]))
  }

  /** A body without escapes has escape size 0 and unescapes to its bytes:
      the fast path of ReadUtf8String agrees with UnescapeUtf8. */
  lemma {:induction false} FastPathAgrees(s: Bytes)
    requires Body(s) && EscapeSize(s) == 0
    ensures forall k :: 0 <= k < |s| ==> s[k] != Backslash
    ensures Unescape(s) == Ok(AsciiChars(s))
    decreases |s|
  {
    if |s| > 0 {
      assert s[0] != Backslash;
      FastPathAgrees(s[1..]);
      assert AsciiChars(s) == [s[0] as int as Char16] + AsciiChars(s[1..]);
    }
  }

  /** ReadUtf8CharInternal: a one-byte span is that byte; a span starting
      with a known escape is the escaped char (trailing bytes ignored);
      anything else goes through the UTF-8 decoder into a one-char buffer,
      which for ASCII spans of two or more bytes overflows. OutOfRange
      stands for every exception on the way: the decoder's ArgumentException
      for a too-small buffer, and Slice's ArgumentOutOfRangeException for
      a `\u` escape with fewer than four digits after it. */
  function CharInternal(span: Bytes): (r: Result<Char16>)
    ensures |span| == 1 ==> r == Ok(span[0] as int as Char16)
    ensures |span| != 1 && (|span| < 2 || span[0] != Backslash) ==> r == Err(OutOfRange)
  {
    if |span| == 1 then Ok(span[0] as int as Char16)
    else if |span| == 0 then Err(OutOfRange)
    else if span[0] == Backslash then
      if IsUnicodeMarker(span[1]) then
        if |span| < 6 then Err(OutOfRange) else Hex4(span[2..6])
      else match EscapeLetter(span[1])
        case Ok(c) => Ok(c)
        case Err(_) => Err(OutOfRange)
    else Err(OutOfRange)
  }

  // ---------------------------------------------------------------------
  // Reference escaper

  function HexDigitByte(v: nat): (b: byte)
    requires v < 16
    ensures IsHexDigit(b) && HexValue(b) == v
  {
    if v < 10 then (v as byte) + Zero else ((v - 10) as byte) + 0x41
  }

  /** The four hexadecimal digits of a code unit, most significant first. */
  function HexQuad(v: int): (r: Bytes)
    requires 0 <= v < 0x1_0000
    ensures |r| == 4
  {
    var a := v / 16;
    var b := a / 16;
    [HexDigitByte(b / 16), HexDigitByte(b % 16), HexDigitByte(a % 16), HexDigitByte(v % 16)]
  }

  /** Four hexadecimal digits read back the code unit they were written from. */
  lemma HexQuadRoundTrip(v: int)
    requires 0 <= v < 0x1_0000
    ensures Hex4(HexQuad(v)) == Ok(v as Char16)
  {
    var a := v / 16;
    var b := a / 16;
    assert v == a * 16 + v % 16;
    assert a == b * 16 + a % 16;
    assert b == (b / 16) * 16 + b % 16;
  }

  /** The writer's escape of one code unit: the short escapes for quote,
      backslash and the five named controls, `\uXXXX` for other code units
      outside printable ASCII, the byte itself otherwise. */
  function EscapeChar16(c: Char16): (r: Bytes)
    ensures 1 <= |r| <= 6
  {
    if c == 0x22 then [Backslash, Quote]
    else if c == 0x5C then [Backslash, Backslash]
    else if c == 0x08 then [Backslash, LowerB]
    else if c == 0x0C then [Backslash, LowerF]
    else if c == 0x0A then [Backslash, LowerN]
    else if c == 0x0D then [Backslash, LowerR]
    else if c == 0x09 then [Backslash, LowerT]
    else if c < 0x20 || c >= 0x7F then
      [Backslash, LowerU] + HexQuad(c as int)
    else [c as int as byte]
  }

  function Escape(cs: String16): (r: Bytes)
    ensures |r| >= |cs|
    decreases |cs|
  {
    if |cs| == 0 then [] else EscapeChar16(cs[0]) + Escape(cs[1..])
  }

  /** The escape of c followed by anything: a body step, its escape size
      and its unescaping. */
  lemma EscapeCharStep(c: Char16, rest: Bytes)
    ensures var e := EscapeChar16(c);
      && (Body(e + rest) <==> Body(rest))
      && (Body(rest) ==> EscapeSize(e + rest) == |e| - 1 + EscapeSize(rest))
      && Unescape(e + rest) == Prepend(c, Unescape(rest))
  {
    var e := EscapeChar16(c);
    var s := e + rest;
    assert s[|e|..] == rest;
    if |e| == 6 {
      UnicodeEscapeStep(c, rest);
    } else if |e| == 2 {
      assert s[0] == Backslash && !IsUnicodeMarker(s[1]) && EscapeLetter(s[1]) == Ok(c);
    } else {
      assert s[0] == c as int as byte && s[0] != Backslash && s[0] != Quote;
    }
  }

  /** The `\uXXXX` escape decodes to the code unit it encodes. */
  lemma UnicodeEscapeStep(c: Char16, rest: Bytes)
    requires |EscapeChar16(c)| == 6
    ensures var s := EscapeChar16(c) + rest;
      s[0] == Backslash && IsUnicodeMarker(s[1]) && Hex4(s[2..6]) == Ok(c)
  {
    var e := EscapeChar16(c);
    var s := e + rest;
    assert e[2..6] == HexQuad(c as int);
    assert s[2..6] == e[2..6];
    HexQuadRoundTrip(c as int);
  }

  /** Unescaping inverts the escaper; the escaped text is a body whose
      escape size is the number of bytes saved. */
  lemma {:induction false} UnescapeEscape(cs: String16)
    ensures var e := Escape(cs);
      Body(e) && EscapeSize(e) == |e| - |cs| && Unescape(e) == Ok(cs)
    decreases |cs|
  {
    if |cs| > 0 {
      UnescapeEscape(cs[1..]);
      EscapeCharStep(cs[0], Escape(cs[1..]));
      assert [cs[0]] + cs[1..] == cs;
    }
  }

  /** The string finder locates the closing quote of every escaped
      string and reports its escape size. */
  lemma FindEscapedString(cs: String16, rest: Bytes)
    ensures var e := Escape(cs);
      FindStringEnd(e + [Quote] + rest, 0) == Terminated(|e|, |e| - |cs|)
  {
    var e := Escape(cs);
    var bs := e + [Quote] + rest;
    UnescapeEscape(cs);
    assert bs[0..|e|] == e;
    FindStringEndSpec(bs, 0, |e|, |e| - |cs|);
  }

  /** ReadUtf8Char reads back the escape of every code unit. */
  lemma CharEscapeRoundTrip(c: Char16)
    ensures CharInternal(EscapeChar16(c)) == Ok(c)
  {
    var e := EscapeChar16(c);
    if |e| == 6 {
      UnicodeEscapeStep(c, []);
      assert e + [] == e;
    }
  }

  // ---------------------------------------------------------------------
  // String and name span readers

  /** A string read: the bytes between the quotes and their escape size. */
  datatype Body16 = Body16(span: Bytes, escaped: nat)

  /** ReadUtf8StringSpanInternal: no whitespace skip; the byte at p must be
      a quote; the finder then locates the closing quote. */
  function StringSpanInternal(bs: Bytes, p: nat): (r: Result<Read<Body16>>)
    ensures r.Err? ==> r.error == OutOfRange || r.error == ExpectedDoubleQuote
    ensures r.Ok? ==> r.value.next == p + |r.value.value.span| + 2 <= |bs|
  {
    if p >= |bs| then Err(OutOfRange)
    else if bs[p] != Quote then Err(ExpectedDoubleQuote)
    else match FindStringEnd(bs, p + 1)
      case Terminated(n, e) => Ok(Read(Body16(bs[p + 1..p + 1 + n], e), p + n + 2))
      case Unterminated => Err(ExpectedDoubleQuote)
      case ReadPastEnd => Err(OutOfRange)
  }

  /** The span reader succeeds exactly on a quote, a body and a closing
      quote; it returns the body, its escape size, and the position after
      the closing quote. */
  lemma StringSpanInternalSpec(bs: Bytes, p: nat, s: Bytes, e: nat, next: nat)
    ensures StringSpanInternal(bs, p) == Ok(Read(Body16(s, e), next)) <==>
      && p + |s| + 2 == next <= |bs|
      && bs[p] == Quote && bs[p + 1..p + 1 + |s|] == s && bs[p + 1 + |s|] == Quote
      && Body(s) && e == EscapeSize(s)
  {
    if p < |bs| && bs[p] == Quote {
      FindStringEndSpec(bs, p + 1, |s|, e);
    }
  }

  /** ReadUtf8StringSpanWithQuotes: as above, but the span includes both
      quotes. */
  function StringSpanWithQuotes(bs: Bytes, p: nat): (r: Result<Read<Bytes>>)
    ensures r.Ok? ==> r.value.next == p + |r.value.value| <= |bs| && r.value.value == bs[p..r.value.next]
    ensures r.Ok? ==> |r.value.value| >= 2 && r.value.value[0] == Quote && r.value.value[|r.value.value| - 1] == Quote
  {
    match StringSpanInternal(bs, p)
    case Err(e) => Err(e)
    case Ok(Read(b, next)) => Ok(Read(bs[p..next], next))
  }

  /** ReadUtf8StringSpanWithQuotes ends right after the first unescaped
      quote: the slice is a quote, a well-formed body and a quote. */
  lemma StringSpanWithQuotesSpec(bs: Bytes, p: nat, w: Bytes, next: nat)
    ensures StringSpanWithQuotes(bs, p) == Ok(Read(w, next)) <==>
      && p + 2 <= next <= |bs| && w == bs[p..next]
      && bs[p] == Quote && bs[next - 1] == Quote && Body(bs[p + 1..next - 1])
  {
    match StringSpanInternal(bs, p)
    case Err(_) =>
      if p + 2 <= next <= |bs| && Body(bs[p + 1..next - 1]) {
        var s := bs[p + 1..next - 1];
        StringSpanInternalSpec(bs, p, s, EscapeSize(s), next);
      }
    case Ok(Read(b, n)) =>
      StringSpanInternalSpec(bs, p, b.span, b.escaped, n);
      assert bs[p + 1..n - 1] == b.span;
      if p + 2 <= next <= |bs| && Body(bs[p + 1..next - 1]) {
        var s := bs[p + 1..next - 1];
        StringSpanInternalSpec(bs, p, s, EscapeSize(s), next);
      }
  }

  /** ReadUtf8StringSpan: `null` yields the one-byte null terminator, any
      other value the body of a string after whitespace. */
  function StringSpan(bs: Bytes, p: nat): (r: Result<Read<Bytes>>)
    ensures r.Ok? ==> SkipWs(bs, p) + 2 <= r.value.next <= |bs|
  {
    match IsNull(bs, p)
    case Err(e) => Err(e)
    case Ok(Read(true, q)) => Ok(Read(NullTerminator, q))
    case Ok(Read(false, q)) =>
      match StringSpanInternal(bs, q)
      case Err(e) => Err(e)
      case Ok(Read(b, next)) => Ok(Read(b.span, next))
  }

  /** The name separator check of both name readers: the byte right after
      the closing quote (no whitespace skip) must be `:`. The read is
      unchecked; a mismatch raises ExpectedDoubleQuote. */
  function NameSeparatorAt(bs: Bytes, q: nat): (r: Result<nat>)
    ensures r.Ok? <==> q < |bs| && bs[q] == Colon
    ensures r.Ok? ==> r.value == q + 1
    ensures r.Err? ==> r.error == if q < |bs| then ExpectedDoubleQuote else OutOfRange
  {
    if q >= |bs| then Err(OutOfRange)
    else if bs[q] != Colon then Err(ExpectedDoubleQuote)
    else Ok(q + 1)
  }

  /** ReadUtf8NameSpan. */
  function NameSpan(bs: Bytes, p: nat): (r: Result<Read<Bytes>>)
    ensures r.Ok? ==> SkipWs(bs, p) + 3 <= r.value.next <= |bs|
  {
    match StringSpan(bs, p)
    case Err(e) => Err(e)
    case Ok(Read(s, q)) =>
      match NameSeparatorAt(bs, q)
      case Err(e) => Err(e)
      case Ok(next) => Ok(Read(s, next))
  }

  /** ReadUtf8StringSpan accepts exactly two layouts after whitespace: the
      literal `null`, read as the null terminator, or a quoted body whose
      span is the raw bytes between the quotes. */
  lemma StringSpanSpec(bs: Bytes, p: nat, s: Bytes, next: nat)
    ensures var q := SkipWs(bs, p);
      StringSpan(bs, p) == Ok(Read(s, next)) <==>
        || (q + 4 == next <= |bs| && bs[q..q + 4] == NullLiteral && s == NullTerminator)
        || (&& q + |s| + 2 == next <= |bs|
            && bs[q] == Quote && bs[q + 1..q + 1 + |s|] == s && bs[q + 1 + |s|] == Quote
            && Body(s))
  {
    var q := SkipWs(bs, p);
    IsNullExact(bs, p);
    assert q + 4 <= |bs| && bs[q..q + 4] == NullLiteral ==> bs[q] == bs[q..q + 4][0] == LowerN;
    match IsNull(bs, p)
    case Err(_) =>
    case Ok(Read(true, _)) =>
    case Ok(Read(false, _)) =>
      match StringSpanInternal(bs, q)
      case Err(_) =>
        if Body(s) { StringSpanInternalSpec(bs, q, s, EscapeSize(s), next); }
      case Ok(Read(b, n)) =>
        StringSpanInternalSpec(bs, q, b.span, b.escaped, n);
        if Body(s) { StringSpanInternalSpec(bs, q, s, EscapeSize(s), next); }
  }

  /** ReadUtf8NameSpan: one of the two string layouts, followed at once by
      `:`. */
  lemma NameSpanSpec(bs: Bytes, p: nat, s: Bytes, next: nat)
    ensures var q := SkipWs(bs, p);
      NameSpan(bs, p) == Ok(Read(s, next)) <==>
        || (q + 5 == next <= |bs| && bs[q..q + 4] == NullLiteral && bs[q + 4] == Colon
            && s == NullTerminator)
        || (&& q + |s| + 3 == next <= |bs|
            && bs[q] == Quote && bs[q + 1..q + 1 + |s|] == s && bs[q + 1 + |s|] == Quote
            && bs[q + 2 + |s|] == Colon && Body(s))
  {
    if next > 0 {
      StringSpanSpec(bs, p, s, next - 1);
    }
    match StringSpan(bs, p)
    case Err(_) =>
    case Ok(Read(s', m)) =>
      StringSpanSpec(bs, p, s', m);
  }

  /** A .NET string that may be null. */
  datatype NullableString = NullString | Text(chars: String16)

  /** ReadUtf8String: null, or the string after whitespace, copied
      verbatim when it has no escapes and unescaped otherwise. */
  function ReadString(bs: Bytes, p: nat): Result<Read<NullableString>> {
    match IsNull(bs, p)
    case Err(e) => Err(e)
    case Ok(Read(true, q)) => Ok(Read(NullString, q))
    case Ok(Read(false, q)) =>
      match StringSpanInternal(bs, q)
      case Err(e) => Err(e)
      case Ok(Read(b, next)) =>
        if b.escaped == 0 then Ok(Read(Text(AsciiChars(b.span)), next))
        else match Unescape(b.span)
          case Err(e) => Err(e)
          case Ok(cs) => Ok(Read(Text(cs), next))
  }

  /** The escaped text is a body that unescapes, and without escapes
      decodes byte by byte, to the string. */
  lemma EscapedBody(cs: String16)
    ensures var e := Escape(cs);
      && Body(e) && EscapeSize(e) == |e| - |cs| && Unescape(e) == Ok(cs)
      && (|e| - |cs| == 0 ==> AsciiChars(e) == cs)
  {
    var e := Escape(cs);
    UnescapeEscape(cs);
    if |e| - |cs| == 0 {
      FastPathAgrees(e);
    }
  }

  /** The layout of a quoted body followed by anything. */
  lemma QuotedLayout(s: Bytes, rest: Bytes)
    ensures var bs := [Quote] + s + [Quote] + rest;
      && |s| + 2 <= |bs| && bs[0] == Quote && bs[1..1 + |s|] == s && bs[1 + |s|] == Quote
  {
  }

  /** A body between two quotes is what the span reader reads. */
  lemma QuotedSpan(s: Bytes, rest: Bytes)
    requires Body(s)
    ensures StringSpanInternal([Quote] + s + [Quote] + rest, 0) == Ok(Read(Body16(s, EscapeSize(s)), |s| + 2))
  {
    QuotedLayout(s, rest);
    StringSpanInternalSpec([Quote] + s + [Quote] + rest, 0, s, EscapeSize(s), |s| + 2);
  }

  /** A quote is not the start of `null`. */
  lemma QuotedNotNull(bs: Bytes)
    requires 0 < |bs| && bs[0] == Quote
    ensures IsNull(bs, 0) == Ok(Read(false, 0))
  {
    assert SkipWs(bs, 0) == 0;
  }

  lemma QuotedBody(s: Bytes, rest: Bytes)
    requires Body(s)
    ensures StringSpanInternal([Quote] + s + [Quote] + rest, 0) == Ok(Read(Body16(s, EscapeSize(s)), |s| + 2))
    ensures IsNull([Quote] + s + [Quote] + rest, 0) == Ok(Read(false, 0))
  {
    QuotedSpan(s, rest);
    QuotedLayout(s, rest);
    QuotedNotNull([Quote] + s + [Quote] + rest);
  }

  /** ReadUtf8String reads back every escaped string, whatever follows it. */
  lemma ReadStringRoundTrip(cs: String16, rest: Bytes)
    ensures var e := Escape(cs);
      ReadString([Quote] + e + [Quote] + rest, 0) == Ok(Read(Text(cs), |e| + 2))
  {
    var e := Escape(cs);
    EscapedBody(cs);
    QuotedBody(e, rest);
    ReadStringOfBody([Quote] + e + [Quote] + rest, 0, 0, Body16(e, EscapeSize(e)), |e| + 2, cs);
  }

  /** ReadUtf8String on a non-null string reads the text its body stands for. */
  lemma ReadStringOfBody(bs: Bytes, p: nat, q: nat, b: Body16, next: nat, cs: String16)
    requires IsNull(bs, p) == Ok(Read(false, q)) && StringSpanInternal(bs, q) == Ok(Read(b, next))
    requires b.escaped == 0 ==> AsciiChars(b.span) == cs
    requires b.escaped != 0 ==> Unescape(b.span) == Ok(cs)
    ensures ReadString(bs, p) == Ok(Read(Text(cs), next))
  {
  }

  /** The text ReadOnlySpan<byte>.ToString() returns: the type name and
      the length, never the contents. */
  function SpanTypeName(n: nat): String16 {
    AsciiChars(SpanTypeNamePrefix + DecimalText(n) + [RightBracket])
  }

  /** "System.ReadOnlySpan<Byte>[" */
  const SpanTypeNamePrefix: Bytes :=
    [0x53, 0x79, 0x73, 0x74, 0x65, 0x6D, 0x2E, 0x52, 0x65, 0x61, 0x64, 0x4F, 0x6E, 0x6C, 0x79,
     0x53, 0x70, 0x61, 0x6E, 0x3C, 0x42, 0x79, 0x74, 0x65, 0x3E, LeftBracket]

  /** ReadUtf8EscapedName as written: no whitespace skip and no null check;
      a name without escapes is converted with span.ToString(). */
  function EscapedName(bs: Bytes, p: nat): Result<Read<String16>> {
    match StringSpanInternal(bs, p)
    case Err(e) => Err(e)
    case Ok(Read(b, q)) =>
      match NameSeparatorAt(bs, q)
      case Err(e) => Err(e)
      case Ok(next) =>
        if b.escaped == 0 then Ok(Read(SpanTypeName(|b.span|), next))
        else match Unescape(b.span)
          case Err(e) => Err(e)
          case Ok(cs) => Ok(Read(cs, next))
  }

  /** On a name with escapes the reader as written and the corrected one
      agree, so the round trip below covers the escaped path as written. */
  lemma EscapedNameEscapedAgrees(bs: Bytes, p: nat)
    requires StringSpanInternal(bs, p).Ok? && StringSpanInternal(bs, p).value.value.escaped != 0
    ensures EscapedName(bs, p) == EscapedNameIntended(bs, p)
  {
  }

  /** ReadUtf8EscapedName with the unescaped fast path decoding the bytes,
      as ReadUtf8String does. */
  function EscapedNameIntended(bs: Bytes, p: nat): Result<Read<String16>> {
    match StringSpanInternal(bs, p)
    case Err(e) => Err(e)
    case Ok(Read(b, q)) =>
      match NameSeparatorAt(bs, q)
      case Err(e) => Err(e)
      case Ok(next) =>
        if b.escaped == 0 then Ok(Read(AsciiChars(b.span), next))
        else match Unescape(b.span)
          case Err(e) => Err(e)
          case Ok(cs) => Ok(Read(cs, next))
  }

  /** `"ab":` as written reads as the type name "System.ReadOnlySpan<Byte>[2]". */
  lemma EscapedNameReturnsTypeName()
    ensures var bs: Bytes := [Quote, LowerA, LowerB, Quote, Colon];
      && EscapedName(bs, 0) == Ok(Read(SpanTypeName(2), 5))
      && SpanTypeName(2) != AsciiChars([LowerA, LowerB])
  {
    var bs: Bytes := [Quote, LowerA, LowerB, Quote, Colon];
    var ab: Bytes := [LowerA, LowerB];
    assert bs[1..3] == ab;
    assert ab[1..][1..] == [];
    assert Body(ab[1..][1..]) && EscapeSize(ab[1..][1..]) == 0;
    assert Body(ab[1..]) && EscapeSize(ab[1..]) == 0;
    assert Body(ab) && EscapeSize(ab) == 0;
    StringSpanInternalSpec(bs, 0, ab, 0, 4);
    assert SpanTypeName(2)[0] == 0x53;
  }

  /** The intended name reader reads back every escaped name followed by
      a colon, escapes or not. */
  lemma EscapedNameIntendedRoundTrip(cs: String16, rest: Bytes)
    ensures var e := Escape(cs);
      EscapedNameIntended([Quote] + e + [Quote, Colon] + rest, 0) == Ok(Read(cs, |e| + 3))
  {
    var e := Escape(cs);
    var bs := [Quote] + e + [Quote, Colon] + rest;
    assert bs == [Quote] + e + [Quote] + ([Colon] + rest);
    assert bs[|e| + 2] == Colon;
    EscapedBody(cs);
    QuotedBody(e, [Colon] + rest);
    EscapedNameOfBody(bs, 0, Body16(e, EscapeSize(e)), |e| + 2, cs);
  }

  /** The intended name reader on a name followed by its colon reads the
      text its body stands for. */
  lemma EscapedNameOfBody(bs: Bytes, p: nat, b: Body16, q: nat, cs: String16)
    requires StringSpanInternal(bs, p) == Ok(Read(b, q)) && q < |bs| && bs[q] == Colon
    requires b.escaped == 0 ==> AsciiChars(b.span) == cs
    requires b.escaped != 0 ==> Unescape(b.span) == Ok(cs)
    ensures EscapedNameIntended(bs, p) == Ok(Read(cs, q + 1))
  {
  }

  /** ReadUtf8Char: the string span, read as one character. */
  function ReadChar(bs: Bytes, p: nat): Result<Read<Char16>> {
    match StringSpan(bs, p)
    case Err(e) => Err(e)
    case Ok(Read(span, next)) =>
      match CharInternal(span)
      case Err(e) => Err(e)
      case Ok(c) => Ok(Read(c, next))
  }

  /** ReadUtf8Char reads back every escaped code unit between quotes. */
  lemma ReadCharRoundTrip(c: Char16, rest: Bytes)
    ensures var e := EscapeChar16(c);
      ReadChar([Quote] + e + [Quote] + rest, 0) == Ok(Read(c, |e| + 2))
  {
    var e := EscapeChar16(c);
    EscapeCharStep(c, []);
    assert e + [] == e;
    QuotedBody(e, rest);
    CharEscapeRoundTrip(c);
  }
}
