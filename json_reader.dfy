/** The UTF-8 pull reader itself: a cursor over an immutable byte buffer.
    Every method moves the cursor as the source's `_pos` moves and is
    proved to compute what the matching specification function of
    Utf8Lexer, Utf8Strings or Utf8Dynamic describes. Where the source
    throws, a method returns the error kind instead; the cursor it leaves
    behind is then unspecified, as the source's is after an exception. */
module JsonReaderUtf8 {
  import opened JsonBase
  import opened Utf8Lexer
  import opened Utf8Strings
  import opened Utf8Dynamic

  /** A method's outcome paired with the cursor it leaves, in the form the
      specification functions return. */
  function At<T>(r: Result<T>, p: nat): Result<Read<T>> {
    match r
    case Ok(v) => Ok(Read(v, p))
    case Err(e) => Err(e)
  }

  /** The outcome of a method that only moves the cursor. */
  function Moved(c: Check, p: nat): Result<nat> {
    match c
    case Pass => Ok(p)
    case Fail(e) => Err(e)
  }

  class JsonReader {
    /** The buffer being read (`_bytes`); `_length` is its length. */
    const bytes: Bytes
    /** The cursor (`_pos`). Skipping a literal adds its length unchecked,
        so the cursor may lie past the end of the buffer. */
    var pos: nat

    constructor (input: Bytes)
      ensures bytes == input && pos == 0
    {
      bytes := input;
      pos := 0;
    }

    // -------------------------------------------------------------------
    // Whitespace and tokens

    /** SkipWhitespaceUtf8. */
    method SkipWhitespace()
      modifies this
      ensures pos == SkipWs(bytes, old(pos))
    {
      while pos < |bytes|
        invariant SkipWs(bytes, pos) == SkipWs(bytes, old(pos))
        decreases |bytes| - pos
      {
        if IsWhitespace(bytes[pos]) {
          pos := pos + 1;
        } else {
          return;
        }
      }
    }

    /** ReadUtf8NextToken: skips whitespace and classifies the byte under
        the cursor without consuming it. */
    method ReadNextToken() returns (token: JsonToken)
      modifies this
      ensures NextToken(bytes, old(pos)) == Read(token, pos)
    {
      SkipWhitespace();
      if pos >= |bytes| {
        return JsonToken.None;
      }
      var b := bytes[pos];
      if b == LeftBrace {
        token := BeginObject;
      } else if b == RightBrace {
        token := EndObject;
      } else if b == LeftBracket {
        token := BeginArray;
      } else if b == RightBracket {
        token := EndArray;
      } else if b == Quote {
        token := JsonToken.String;
      } else if b == LowerT {
        token := True;
      } else if b == LowerF {
        token := False;
      } else if b == LowerN {
        token := JsonToken.Null;
      } else if b == Comma {
        token := ValueSeparator;
      } else if b == Colon {
        token := NameSeparator;
      } else if b == Minus || IsDigit(b) {
        token := JsonToken.Number;
      } else {
        token := JsonToken.None;
      }
    }

    // -------------------------------------------------------------------
    // End finders

    /** TryFindEndOfUtf8Number: the length of the numeric run from p; it
        succeeds when the run is not empty. */
    method FindEndOfNumber(p: nat) returns (found: bool, consumed: nat)
      ensures consumed == NumberRun(bytes, p)
      ensures found <==> consumed > 0
    {
      var i := p;
      while i < |bytes|
        invariant p <= i
        invariant NumberRun(bytes, p) == (i - p) + NumberRun(bytes, i)
        decreases |bytes| - i
      {
        if !IsNumericSymbol(bytes[i]) {
          break;
        }
        i := i + 1;
      }
      if i > p {
        return true, i - p;
      }
      return false, 0;
    }

    /** TryFindEndOfUtf8String: the distance to the closing quote and the
        escape count. The byte after a backslash is read unchecked. */
    method FindEndOfString(p: nat) returns (r: StringScan)
      ensures r == FindStringEnd(bytes, p)
    {
      var escapedCharsSize := 0;
      var i := p;
      while i < |bytes|
        invariant p <= i
        invariant ScanFrom(bytes, p, i, escapedCharsSize) == FindStringEnd(bytes, p)
        decreases |bytes| - i
      {
        var b := bytes[i];
        if b == Backslash {
          escapedCharsSize := escapedCharsSize + 1;
          i := i + 1;
          if i >= |bytes| {
            return ReadPastEnd;
          }
          var nextByte := bytes[i];
          if IsUnicodeMarker(nextByte) {
            escapedCharsSize := escapedCharsSize + 4;
            i := i + 4;
          }
        } else if b == Quote {
          return Terminated(i - p, escapedCharsSize);
        }
        i := i + 1;
      }
      return Unterminated;
    }

    // -------------------------------------------------------------------
    // Integer readers

    /** ReadUtf8NumberDigits: the digit run under the cursor, accumulated
        with checked unsigned 64-bit arithmetic. The first byte is read
        unchecked; every caller has made sure it exists. */
    method ReadNumberDigits() returns (r: Result<nat>)
      requires pos < |bytes|
      modifies this
      ensures At(r, pos) == NumberDigits(bytes, old(pos))
    {
      var start := pos;
      if !IsDigit(bytes[start]) {
        return Err(InvalidNumberFormat);
      }
      var result: nat := DigitValue(bytes[start]);
      DigitsStart(bytes, start);
      var i := start + 1;
      while i < |bytes| && IsDigit(bytes[i])
        invariant DigitsRead(bytes, start, i, result) && result <= MaxUInt64
        decreases |bytes| - i
      {
        var next := result * 10 + DigitValue(bytes[i]);
        DigitsStep(bytes, start, i, result);
        if next > MaxUInt64 {
          DigitsOverflow(bytes, start, i + 1, next);
          return Err(Overflow);
        }
        result := next;
        i := i + 1;
      }
      DigitsEnd(bytes, start, i, result);
      pos := i;
      return Ok(result);
    }

    /** ReadUtf8NumberUInt64. */
    method ReadNumberUInt64() returns (r: Result<nat>)
      modifies this
      ensures At(r, pos) == NumberUInt64(bytes, old(pos))
    {
      SkipWhitespace();
      if pos >= |bytes| {
        return Err(EndOfData);
      }
      r := ReadNumberDigits();
    }

    /** ReadUtf8NumberInt64: an optional minus sign, then the digits; the
        cast to `long` and the negation are unchecked. */
    method ReadNumberInt64() returns (r: Result<int>)
      modifies this
      ensures At(r, pos) == NumberInt64(bytes, old(pos))
    {
      SkipWhitespace();
      if pos >= |bytes| {
        return Err(EndOfData);
      }
      var neg := false;
      if bytes[pos] == Minus {
        pos := pos + 1;
        neg := true;
        if pos >= |bytes| {
          return Err(EndOfData);
        }
      }
      var digits := ReadNumberDigits();
      match digits {
        case Err(e) => return Err(e);
        case Ok(v) =>
          var result := ULongToLong(v);
          return Ok(if neg then NegateLong(result) else result);
      }
    }

    /** ReadUtf8SByte. */
    method ReadSByte() returns (r: Result<int>)
      modifies this
      ensures At(r, pos) == NumberSigned(bytes, old(pos), W8)
    {
      r := ReadSigned(W8);
    }

    /** ReadUtf8Int16. */
    method ReadInt16() returns (r: Result<int>)
      modifies this
      ensures At(r, pos) == NumberSigned(bytes, old(pos), W16)
    {
      r := ReadSigned(W16);
    }

    /** ReadUtf8Int32. */
    method ReadInt32() returns (r: Result<int>)
      modifies this
      ensures At(r, pos) == NumberSigned(bytes, old(pos), W32)
    {
      r := ReadSigned(W32);
    }

    /** ReadUtf8Int64. */
    method ReadInt64() returns (r: Result<int>)
      modifies this
      ensures At(r, pos) == NumberInt64(bytes, old(pos))
    {
      r := ReadNumberInt64();
    }

    /** ReadUtf8Byte. */
    method ReadByte() returns (r: Result<int>)
      modifies this
      ensures At(r, pos) == NumberUnsigned(bytes, old(pos), W8)
    {
      r := ReadUnsigned(W8);
    }

    /** ReadUtf8UInt16. */
    method ReadUInt16() returns (r: Result<int>)
      modifies this
      ensures At(r, pos) == NumberUnsigned(bytes, old(pos), W16)
    {
      r := ReadUnsigned(W16);
    }

    /** ReadUtf8UInt32. */
    method ReadUInt32() returns (r: Result<int>)
      modifies this
      ensures At(r, pos) == NumberUnsigned(bytes, old(pos), W32)
    {
      r := ReadUnsigned(W32);
    }

    /** ReadUtf8UInt64. */
    method ReadUInt64() returns (r: Result<nat>)
      modifies this
      ensures At(r, pos) == NumberUInt64(bytes, old(pos))
    {
      r := ReadNumberUInt64();
    }

    /** The Int64 reader followed by an unchecked cast to w. */
    method ReadSigned(w: Width) returns (r: Result<int>)
      modifies this
      ensures At(r, pos) == NumberSigned(bytes, old(pos), w)
    {
      var x := ReadNumberInt64();
      match x {
        case Err(e) => return Err(e);
        case Ok(v) => return Ok(WrapSigned(v, w));
      }
    }

    /** The UInt64 reader followed by an unchecked cast to w. */
    method ReadUnsigned(w: Width) returns (r: Result<int>)
      modifies this
      ensures At(r, pos) == NumberUnsigned(bytes, old(pos), w)
    {
      var x := ReadNumberUInt64();
      match x {
        case Err(e) => return Err(e);
        case Ok(v) => return Ok(WrapUnsigned(v, w));
      }
    }

    /** ReadUtf8NumberInternal: the raw numeric span after whitespace. */
    method ReadNumberInternal() returns (r: Result<Bytes>)
      modifies this
      ensures At(r, pos) == NumberInternal(bytes, old(pos))
    {
      SkipWhitespace();
      var found, consumed := FindEndOfNumber(pos);
      if found {
        var span := bytes[pos..pos + consumed];
        pos := pos + consumed;
        return Ok(span);
      }
      return Err(EndOfData);
    }

    // -------------------------------------------------------------------
    // Strings and names

    /** ReadUtf8StringSpanInternal: the body between the quotes and its
        escape count; the cursor ends after the closing quote. */
    method ReadStringSpanInternal() returns (r: Result<Body16>)
      modifies this
      ensures At(r, pos) == StringSpanInternal(bytes, old(pos))
    {
      if pos >= |bytes| {
        return Err(OutOfRange);
      }
      if bytes[pos] != Quote {
        return Err(ExpectedDoubleQuote);
      }
      pos := pos + 1;
      var scan := FindEndOfString(pos);
      match scan {
        case Terminated(bytesConsumed, escapedCharsSize) =>
          var span := bytes[pos..pos + bytesConsumed];
          pos := pos + bytesConsumed + 1;
          return Ok(Body16(span, escapedCharsSize));
        case Unterminated =>
          return Err(ExpectedDoubleQuote);
        case ReadPastEnd =>
          return Err(OutOfRange);
      }
    }

    /** ReadUtf8StringSpanWithQuotes: the same string, quotes included. */
    method ReadStringSpanWithQuotes() returns (r: Result<Bytes>)
      modifies this
      ensures At(r, pos) == StringSpanWithQuotes(bytes, old(pos))
    {
      if pos >= |bytes| {
        return Err(OutOfRange);
      }
      if bytes[pos] != Quote {
        return Err(ExpectedDoubleQuote);
      }
      var scan := FindEndOfString(pos + 1);
      match scan {
        case Terminated(bytesConsumed, _) =>
          var span := bytes[pos..pos + bytesConsumed + 2];
          pos := pos + bytesConsumed + 2;
          return Ok(span);
        case Unterminated =>
          return Err(ExpectedDoubleQuote);
        case ReadPastEnd =>
          return Err(OutOfRange);
      }
    }

    /** ReadUtf8StringSpan: the null terminator for `null`, else the body. */
    method ReadStringSpan() returns (r: Result<Bytes>)
      modifies this
      ensures At(r, pos) == StringSpan(bytes, old(pos))
    {
      var isNull := ReadIsNull();
      match isNull {
        case Err(e) =>
          return Err(e);
        case Ok(true) =>
          return Ok(NullTerminator);
        case Ok(false) =>
          var body := ReadStringSpanInternal();
          match body {
            case Err(e) =>
              return Err(e);
            case Ok(b) =>
              return Ok(b.span);
          }
      }
    }

    /** The unchecked `_bytes[_pos++] != ':'` of both name readers. */
    method ReadNameSeparator() returns (c: Check)
      modifies this
      ensures Moved(c, pos) == NameSeparatorAt(bytes, old(pos))
    {
      if pos >= |bytes| {
        return Fail(OutOfRange);
      }
      var b := bytes[pos];
      pos := pos + 1;
      if b != Colon {
        return Fail(ExpectedDoubleQuote);
      }
      return Pass;
    }

    /** ReadUtf8NameSpan. */
    method ReadNameSpan() returns (r: Result<Bytes>)
      modifies this
      ensures At(r, pos) == NameSpan(bytes, old(pos))
    {
      var span := ReadStringSpan();
      if span.Err? {
        return span;
      }
      var c := ReadNameSeparator();
      if c.Fail? {
        return Err(c.error);
      }
      return span;
    }

    /** ReadUtf8EscapedName as written: a name without escapes becomes the
        span's type name. */
    method ReadEscapedName() returns (r: Result<String16>)
      modifies this
      ensures At(r, pos) == EscapedName(bytes, old(pos))
    {
      ghost var start := pos;
      var body := ReadStringSpanInternal();
      if body.Err? {
        return Err(body.error);
      }
      ghost var afterQuote := pos;
      var c := ReadNameSeparator();
      if c.Fail? {
        return Err(c.error);
      }
      var b := body.value;
      if b.escaped == 0 {
        return Ok(SpanTypeName(|b.span|));
      }
      StringSpanInternalSpec(bytes, start, b.span, b.escaped, afterQuote);
      r := UnescapeSpan(b.span, b.escaped);
    }

    /** ReadUtf8String: null, the verbatim bytes, or their unescaping. */
    method ReadString() returns (r: Result<NullableString>)
      modifies this
      ensures At(r, pos) == Utf8Strings.ReadString(bytes, old(pos))
    {
      var isNull := ReadIsNull();
      if isNull.Err? {
        return Err(isNull.error);
      }
      if isNull.value {
        return Ok(NullString);
      }
      ghost var start := pos;
      var body := ReadStringSpanInternal();
      if body.Err? {
        return Err(body.error);
      }
      var b := body.value;
      if b.escaped == 0 {
        return Ok(Text(AsciiChars(b.span)));
      }
      StringSpanInternalSpec(bytes, start, b.span, b.escaped, pos);
      var chars := UnescapeSpan(b.span, b.escaped);
      match chars {
        case Err(e) =>
          return Err(e);
        case Ok(cs) =>
          return Ok(Text(cs));
      }
    }

    /** ReadUtf8Char: the string span read as one character. */
    method ReadChar() returns (r: Result<Char16>)
      modifies this
      ensures At(r, pos) == Utf8Strings.ReadChar(bytes, old(pos))
    {
      var span := ReadStringSpan();
      if span.Err? {
        return Err(span.error);
      }
      r := CharInternal(span.value);
    }

    // -------------------------------------------------------------------
    // Dynamic values

    /** ReadUtf8Dynamic(): the next value as a dynamic tree. */
    method ReadDynamic() returns (r: Result<Dyn>)
      modifies this
      ensures At(r, pos) == DynValue(bytes, old(pos), 0)
    {
      r := ReadDynamicNested(0);
    }

    /** ReadUtf8Dynamic(stack): the token is read before the nesting
        check; the leaves are read by the scalar readers, containers by
        their loops. */
    method ReadDynamicNested(stack: nat) returns (r: Result<Dyn>)
      modifies this
      ensures At(r, pos) == DynValue(bytes, old(pos), stack)
      decreases Rem(bytes, pos), 2
    {
      var token := ReadNextToken();
      NextTokenInside(bytes, old(pos));
      if stack > MaxNesting {
        return Err(NestingTooDeep);
      }
      match token {
        case Null =>
          var c := ReadNullLiteral();
          if c.Fail? {
            return Err(c.error);
          }
          return Ok(Dyn.Null);
        case False =>
          var b := ReadBoolean();
          if b.Err? {
            return Err(b.error);
          }
          return Ok(Bool(b.value));
        case True =>
          var b := ReadBoolean();
          if b.Err? {
            return Err(b.error);
          }
          return Ok(Bool(b.value));
        case Number =>
          var raw := ReadNumberInternal();
          if raw.Err? {
            return Err(raw.error);
          }
          return Ok(Dyn.Number(raw.value));
        case String =>
          var raw := ReadStringSpanWithQuotes();
          if raw.Err? {
            return Err(raw.error);
          }
          return Ok(Str(raw.value));
        case BeginObject =>
          pos := pos + 1;
          r := ReadObjectMembers(stack);
        case BeginArray =>
          pos := pos + 1;
          r := ReadArrayElements(stack);
        case _ =>
          return Err(EndOfData);
      }
    }

    /** The object loop of ReadUtf8Dynamic: names are the name spans
        decoded byte by byte; a repeated name keeps its last value. */
    method ReadObjectMembers(stack: nat) returns (r: Result<Dyn>)
      requires pos <= |bytes|
      modifies this
      ensures At(r, pos) == DynMembers(bytes, old(pos), 0, stack, map[])
      decreases Rem(bytes, pos), 3
    {
      var count := 0;
      var dictionary: map<String16, Dyn> := map[];
      while true
        invariant old(pos) <= pos <= |bytes|
        invariant DynMembers(bytes, pos, count, stack, dictionary) == DynMembers(bytes, old(pos), 0, stack, map[])
        decreases Rem(bytes, pos)
      {
        var end := TryReadIsEndObjectOrValueSeparator(count);
        if end.Err? {
          return Err(end.error);
        }
        if end.value.0 {
          return Ok(Obj(dictionary));
        }
        count := end.value.1;
        var name := ReadNameSpan();
        if name.Err? {
          return Err(name.error);
        }
        var value := ReadDynamicNested(stack + 1);
        if value.Err? {
          return Err(value.error);
        }
        dictionary := dictionary[AsciiChars(name.value) := value.value];
      }
    }

    /** The array loop of ReadUtf8Dynamic: elements in document order. */
    method ReadArrayElements(stack: nat) returns (r: Result<Dyn>)
      requires pos <= |bytes|
      modifies this
      ensures At(r, pos) == DynElements(bytes, old(pos), 0, stack, [])
      decreases Rem(bytes, pos), 3
    {
      var count := 0;
      var list: seq<Dyn> := [];
      while true
        invariant old(pos) <= pos <= |bytes|
        invariant DynElements(bytes, pos, count, stack, list) == DynElements(bytes, old(pos), 0, stack, [])
        decreases Rem(bytes, pos)
      {
        var end := TryReadIsEndArrayOrValueSeparator(count);
        if end.Err? {
          return Err(end.error);
        }
        if end.value.0 {
          return Ok(Arr(list));
        }
        count := end.value.1;
        var value := ReadDynamicNested(stack + 1);
        if value.Err? {
          return Err(value.error);
        }
        list := list + [value.value];
      }
    }

    // -------------------------------------------------------------------
    // Literals

    /** ReadUtf8Boolean: the first byte is peeked without a length check,
        the remaining letters are compared one by one. */
    method ReadBoolean() returns (r: Result<bool>)
      modifies this
      ensures At(r, pos) == Boolean(bytes, old(pos))
    {
      SkipWhitespace();
      if pos >= |bytes| {
        return Err(OutOfRange);
      }
      if bytes[pos] == LowerT {
        var c := ExpectTail(bytes, pos, TrueLiteral, 1);
        if c.Fail? {
          return Err(c.error);
        }
        pos := pos + 4;
        return Ok(true);
      }
      if bytes[pos] == LowerF {
        var c := ExpectTail(bytes, pos, FalseLiteral, 1);
        if c.Fail? {
          return Err(c.error);
        }
        pos := pos + 5;
        return Ok(false);
      }
      return Err(InvalidSymbol);
    }

    /** ReadUtf8IsNull. */
    method ReadIsNull() returns (r: Result<bool>)
      modifies this
      ensures At(r, pos) == IsNull(bytes, old(pos))
    {
      SkipWhitespace();
      if pos < |bytes| && bytes[pos] == LowerN {
        var c := ExpectTail(bytes, pos, NullLiteral, 1);
        if c.Fail? {
          return Err(c.error);
        }
        pos := pos + 4;
        return Ok(true);
      }
      return Ok(false);
    }

    /** ReadUtf8Null. */
    method ReadNullLiteral() returns (c: Check)
      modifies this
      ensures Moved(c, pos) == ReadNull(bytes, old(pos))
    {
      var isNull := ReadIsNull();
      match isNull {
        case Err(e) => return Fail(e);
        case Ok(b) => return if b then Pass else Fail(InvalidSymbol);
      }
    }

    // -------------------------------------------------------------------
    // Begin and end tokens, separators

    /** ReadUtf8BeginArray. */
    method ReadBeginArray() returns (b: bool)
      modifies this
      ensures IsBeginArray(bytes, old(pos)) == Read(b, pos)
    {
      SkipWhitespace();
      if pos < |bytes| && bytes[pos] == LeftBracket {
        pos := pos + 1;
        return true;
      }
      return false;
    }

    /** ReadUtf8BeginArrayOrThrow. */
    method ReadBeginArrayOrThrow() returns (c: Check)
      modifies this
      ensures Moved(c, pos) == BeginArrayOrThrow(bytes, old(pos))
    {
      var b := ReadBeginArray();
      c := if b then Pass else Fail(ExpectedBeginArray);
    }

    /** ReadUtf8IsBeginObject: the byte is peeked without a length check. */
    method ReadIsBeginObject() returns (r: Result<bool>)
      modifies this
      ensures At(r, pos) == IsBeginObject(bytes, old(pos))
    {
      SkipWhitespace();
      if pos >= |bytes| {
        return Err(OutOfRange);
      }
      if bytes[pos] == LeftBrace {
        pos := pos + 1;
        return Ok(true);
      }
      return Ok(false);
    }

    /** ReadUtf8BeginObjectOrThrow. */
    method ReadBeginObjectOrThrow() returns (c: Check)
      modifies this
      ensures Moved(c, pos) == BeginObjectOrThrow(bytes, old(pos))
    {
      var r := ReadIsBeginObject();
      match r {
        case Err(e) => return Fail(e);
        case Ok(b) => return if b then Pass else Fail(ExpectedBeginObject);
      }
    }

    /** ReadUtf8IsEndObject: the byte is peeked without a length check. */
    method ReadIsEndObject() returns (r: Result<bool>)
      modifies this
      ensures At(r, pos) == IsEndObject(bytes, old(pos))
    {
      SkipWhitespace();
      if pos >= |bytes| {
        return Err(OutOfRange);
      }
      if bytes[pos] == RightBrace {
        pos := pos + 1;
        return Ok(true);
      }
      return Ok(false);
    }

    /** ReadUtf8EndObjectOrThrow. */
    method ReadEndObjectOrThrow() returns (c: Check)
      modifies this
      ensures Moved(c, pos) == EndObjectOrThrow(bytes, old(pos))
    {
      var r := ReadIsEndObject();
      match r {
        case Err(e) => return Fail(e);
        case Ok(b) => return if b then Pass else Fail(ExpectedEndObject);
      }
    }

    /** TryReadUtf8IsEndArrayOrValueSeparator: whether the array ends, and
        the count the source updates through its `ref` parameter. */
    method TryReadIsEndArrayOrValueSeparator(count: nat) returns (r: Result<(bool, nat)>)
      modifies this
      ensures At(r, pos) == EndArrayOrSeparator(bytes, old(pos), count)
    {
      SkipWhitespace();
      if pos < |bytes| && bytes[pos] == RightBracket {
        pos := pos + 1;
        return Ok((true, count));
      }
      if count > 0 {
        if pos < |bytes| && bytes[pos] == Comma {
          pos := pos + 1;
          return Ok((false, count + 1));
        }
        return Err(ExpectedSeparator);
      }
      return Ok((false, count + 1));
    }

    /** TryReadUtf8IsEndObjectOrValueSeparator: as for arrays, with the
        separator peeked without a length check. */
    method TryReadIsEndObjectOrValueSeparator(count: nat) returns (r: Result<(bool, nat)>)
      modifies this
      ensures At(r, pos) == EndObjectOrSeparator(bytes, old(pos), count)
    {
      SkipWhitespace();
      if pos < |bytes| && bytes[pos] == RightBrace {
        pos := pos + 1;
        return Ok((true, count));
      }
      if count > 0 {
        if pos >= |bytes| {
          return Err(OutOfRange);
        }
        if bytes[pos] == Comma {
          pos := pos + 1;
          return Ok((false, count + 1));
        }
        return Err(ExpectedSeparator);
      }
      return Ok((false, count + 1));
    }

    // -------------------------------------------------------------------
    // Skipping

    /** SkipNextUtf8Value: moves past one token's value without reading
        it. */
    method SkipNextValue(token: JsonToken) returns (c: Check)
      modifies this
      ensures Moved(c, pos) == SkipValue(bytes, old(pos), token)
    {
      match token {
        case None =>
        case BeginObject =>
          pos := pos + 1;
        case EndObject =>
          pos := pos + 1;
        case BeginArray =>
          pos := pos + 1;
        case EndArray =>
          pos := pos + 1;
        case ValueSeparator =>
          pos := pos + 1;
        case NameSeparator =>
          pos := pos + 1;
        case Number =>
          var found, bytesConsumed := FindEndOfNumber(pos);
          if found {
            pos := pos + bytesConsumed;
          }
        case String =>
          pos := pos + 1;
          var scan := FindEndOfString(pos);
          match scan {
            case Terminated(bytesConsumed, _) =>
              pos := pos + bytesConsumed + 1;
            case Unterminated =>
              return Fail(ExpectedDoubleQuote);
            case ReadPastEnd =>
              return Fail(OutOfRange);
          }
        case Null =>
          pos := pos + 4;
        case True =>
          pos := pos + 4;
        case False =>
          pos := pos + 5;
      }
      return Pass;
    }

    /** SkipNextUtf8Segment(): skips the next value, containers included. */
    method SkipNextSegment() returns (c: Check)
      modifies this
      ensures Moved(c, pos) == SkipSegment(bytes, old(pos), 0)
    {
      c := SkipNestedSegment(0);
    }

    /** SkipNextUtf8Segment(stack): stack counts the containers still open.
        Scalars and separators are skipped by the do-while loop while
        inside a container; a closing token at depth one ends the skip. */
    method SkipNestedSegment(stack: nat) returns (c: Check)
      modifies this
      ensures Moved(c, pos) == SkipSegment(bytes, old(pos), stack)
      decreases Rem(bytes, pos), 1
    {
      var token := ReadNextToken();
      NextTokenInside(bytes, old(pos));
      match token {
        case None =>
          return Pass;
        case BeginArray =>
          pos := pos + 1;
          c := SkipNestedSegment(stack + 1);
        case BeginObject =>
          pos := pos + 1;
          c := SkipNestedSegment(stack + 1);
        case EndObject =>
          pos := pos + 1;
          if stack > 1 {
            c := SkipNestedSegment(stack - 1);
          } else {
            c := Pass;
          }
        case EndArray =>
          pos := pos + 1;
          if stack > 1 {
            c := SkipNestedSegment(stack - 1);
          } else {
            c := Pass;
          }
        case _ =>
          c := SkipScalarRun(token, stack);
      }
    }

    /** The do-while loop of SkipNextUtf8Segment: skip a value, read the
        next token, and repeat while inside a container on a scalar or
        separator; then continue the segment if still inside one. */
    method SkipScalarRun(token: JsonToken, stack: nat) returns (c: Check)
      requires pos < |bytes| && token == Classify(bytes, pos) && token.IsValueOrSeparator()
      modifies this
      ensures Moved(c, pos) == SkipScalars(bytes, old(pos), token, stack)
      decreases Rem(bytes, pos), 0
    {
      var current := token;
      while true
        invariant old(pos) <= pos < |bytes| && current == Classify(bytes, pos) && current.IsValueOrSeparator()
        invariant SkipScalars(bytes, pos, current, stack) == SkipScalars(bytes, old(pos), token, stack)
        decreases Rem(bytes, pos)
      {
        var skipped := SkipNextValue(current);
        if skipped.Fail? {
          return skipped;
        }
        ghost var q1 := pos;
        current := ReadNextToken();
        NextTokenInside(bytes, q1);
        if !(stack > 0 && current.IsValueOrSeparator()) {
          if stack > 0 {
            c := SkipNestedSegment(stack);
          } else {
            c := Pass;
          }
          return;
        }
      }
    }
  }


  // -------------------------------------------------------------------
  // Unescaping

  /** UnescapeUtf8 (an instance method of the reader that uses none of its
      state): the result has one char per byte of the span less
      the escape count. Verbatim runs are copied when an escape or the
      end of the span is reached; each escape writes one char. The span
      and its escape count come from the string finder. */
  method UnescapeSpan(span: Bytes, escapedCharsSize: nat) returns (r: Result<String16>)
    requires Body(span) && escapedCharsSize == EscapeSize(span)
    ensures r == Unescape(span)
  {
    var unescapedLength := |span| - escapedCharsSize;
    var result := new Char16[unescapedLength];
    ghost var done: String16 := [];
    var charOffset: nat := 0;
    var from: nat := 0;
    var index: nat := 0;
    UnescapingStart(span);
    while index < |span|
      invariant Unescaping(span, from, index, done) && result.Length == unescapedLength
      invariant charOffset == |done| <= result.Length && result[..charOffset] == done
      decreases |span| - index
    {
      if span[index] == Backslash {
        var decoded, next := EscapeInto(result, charOffset, span, from, index, done);
        match decoded {
          case Err(e) =>
            return Err(e);
          case Ok(c) =>
            done := done + AsciiChars(span[from..index]) + [c];
            charOffset := charOffset + (index - from) + 1;
            index := next;
            from := next;
        }
      } else {
        VerbatimStep(span, from, index, done);
        index := index + 1;
      }
    }
    var chars := FinishUnescape(result, charOffset, span, from, index, done);
    return Ok(chars);
  }

  /** Encoding.UTF8.GetChars on an ASCII run: one char per byte, written
      into dst from index at on. The chars before at are kept. */
  method CopyAscii(dst: array<Char16>, at: nat, src: Bytes)
    requires at + |src| <= dst.Length
    modifies dst
    ensures dst[..at + |src|] == old(dst[..at]) + AsciiChars(src)
    ensures dst[at + |src|..] == old(dst[at + |src|..])
  {
    var i := 0;
    while i < |src|
      invariant 0 <= i <= |src|
      invariant dst[..at + i] == old(dst[..at]) + AsciiChars(src[..i])
      invariant dst[at + i..] == old(dst[at + i..])
      decreases |src| - i
    {
      AsciiCharsSnoc(src[..i + 1]);
      assert src[..i + 1][..i] == src[..i];
      dst[at + i] := src[i] as int as Char16;
      assert dst[..at + i + 1] == dst[..at + i] + [dst[at + i]];
      i := i + 1;
    }
    assert src[..i] == src;
  }

  /** One escape of the unescaping loop: the pending verbatim run and the
      decoded char are written after the chars already produced, and the
      loop goes on after the escape; a failed decoding fails the whole
      unescaping. */
  method EscapeInto(result: array<Char16>, charOffset: nat, span: Bytes, from: nat, index: nat, ghost done: String16)
    returns (decoded: Result<Char16>, next: nat)
    requires Unescaping(span, from, index, done) && index < |span| && span[index] == Backslash
    requires result.Length == |span| - EscapeSize(span) && charOffset == |done| && result[..charOffset] == done
    modifies result
    ensures decoded.Err? ==> Unescape(span) == Err(decoded.error)
    ensures decoded.Ok? ==> index < next <= |span|
    ensures decoded.Ok? ==> Unescaping(span, next, next, done + AsciiChars(span[from..index]) + [decoded.value])
    ensures decoded.Ok? ==> result[..charOffset + (index - from) + 1] == done + AsciiChars(span[from..index]) + [decoded.value]
  {
    var width;
    width, decoded := DecodeEscape(span, index);
    next := index + width;
    EscapeStep(span, from, index, done, next, decoded);
    if decoded.Ok? {
      CopyRunAndChar(result, charOffset, span[from..index], decoded.value);
    }
  }

  /** The end of the unescaping loop: the last verbatim run is copied and
      the array holds the whole unescaping. */
  method FinishUnescape(result: array<Char16>, charOffset: nat, span: Bytes, from: nat, index: nat, ghost done: String16)
    returns (chars: String16)
    requires Unescaping(span, from, index, done) && index >= |span|
    requires result.Length == |span| - EscapeSize(span) && charOffset == |done| && result[..charOffset] == done
    modifies result
    ensures Unescape(span) == Ok(chars)
  {
    UnescapingEnd(span, from, index, done);
    var run := span[from..];
    ghost var all := done + AsciiChars(run);
    if from < |span| {
      CopyAscii(result, charOffset, run);
    } else {
      assert run == [] && all == done;
    }
    assert result[..] == result[..charOffset + |run|] == all;
    chars := result[..];
  }

  /** A pending verbatim run followed by one unescaped char. */
  method CopyRunAndChar(dst: array<Char16>, at: nat, run: Bytes, c: Char16)
    requires at + |run| < dst.Length
    modifies dst
    ensures dst[..at + |run| + 1] == old(dst[..at]) + AsciiChars(run) + [c]
  {
    CopyAscii(dst, at, run);
    PutChar(dst, at + |run|, c);
  }

  /** The escape at span[index]: its width in bytes and the char it
      decodes to, or the decoding error. */
  method DecodeEscape(span: Bytes, index: nat) returns (width: nat, decoded: Result<Char16>)
    requires index < |span| && Body(span[index..]) && span[index] == Backslash
    ensures index + width <= |span| && Body(span[index + width..])
    ensures EscapeSize(span[index..]) == width - 1 + EscapeSize(span[index + width..])
    ensures decoded.Err? ==> Unescape(span[index..]) == Err(decoded.error)
    ensures decoded.Ok? ==> Unescape(span[index..]) == Prepend(decoded.value, Unescape(span[index + width..]))
  {
    EscapeLength(span, index);
    var current := span[index + 1];
    if IsUnicodeMarker(current) {
      width := 6;
      decoded := Hex4(span[index + 2..index + 6]);
    } else {
      width := 2;
      decoded := EscapeLetter(current);
    }
    EscapeDecodedAt(span, index, width, decoded);
  }

  /** One unescaped char written at index at, after the chars already
      there. */
  method PutChar(dst: array<Char16>, at: nat, c: Char16)
    requires at < dst.Length
    modifies dst
    ensures dst[..at + 1] == old(dst[..at]) + [c]
  {
    dst[at] := c;
    assert dst[..at + 1] == dst[..at] + [dst[at]];
  }

  /** A string prepended to an unescaping outcome. */
  function PrependAll(cs: String16, r: Result<String16>): Result<String16> {
    match r
    case Ok(t) => Ok(cs + t)
    case Err(e) => Err(e)
  }

  lemma PrependNothing(r: Result<String16>)
    ensures PrependAll([] + AsciiChars([]), r) == r
  {
    if r.Ok? {
      assert [] + AsciiChars([]) + r.value == r.value;
    }
  }

  /** Prepending one char and then a string is prepending their
      concatenation. */
  lemma PrependAllStep(cs: String16, c: Char16, r: Result<String16>)
    ensures PrependAll(cs, Prepend(c, r)) == PrependAll(cs + [c], r)
  {
    if r.Ok? {
      assert cs + ([c] + r.value) == cs + [c] + r.value;
    }
  }

  lemma AsciiCharsSnoc(s: Bytes)
    requires |s| > 0
    ensures AsciiChars(s) == AsciiChars(s[..|s| - 1]) + [s[|s| - 1] as int as Char16]
  {
  }

  /** The unescaping loop's invariant: the chars written so far followed
      by the pending verbatim run span[from..index] and the unescaping of
      the rest make up the unescaping of the whole span. */
  predicate Unescaping(span: Bytes, from: nat, index: nat, done: String16) {
    && from <= index <= |span|
    && Body(span) && Body(span[index..])
    && |done| + (|span| - from) == |span| - EscapeSize(span) + EscapeSize(span[index..])
    && Unescape(span) == PrependAll(done + AsciiChars(span[from..index]), Unescape(span[index..]))
  }

  lemma UnescapingStart(span: Bytes)
    requires Body(span)
    ensures Unescaping(span, 0, 0, [])
  {
    assert span[0..] == span && span[0..0] == [];
    PrependNothing(Unescape(span));
  }

  lemma VerbatimStep(span: Bytes, from: nat, index: nat, done: String16)
    requires Unescaping(span, from, index, done) && index < |span| && span[index] != Backslash
    ensures Unescaping(span, from, index + 1, done)
  {
    var s := span[index..];
    var c := span[index] as int as Char16;
    VerbatimAt(s);
    assert span[index + 1..] == s[1..];
    AsciiCharsSnoc(span[from..index + 1]);
    assert span[from..index + 1][..index - from] == span[from..index];
    PrependAllStep(done + AsciiChars(span[from..index]), c, Unescape(span[index + 1..]));
    assert done + AsciiChars(span[from..index]) + [c] == done + AsciiChars(span[from..index + 1]);
  }

  lemma EscapeLength(span: Bytes, index: nat)
    requires index < |span| && Body(span[index..]) && span[index] == Backslash
    ensures index + 2 <= |span| && (IsUnicodeMarker(span[index + 1]) ==> index + 6 <= |span|)
  {
    EscapeAt(span[index..]);
  }

  /** An escape of width bytes at index decodes to one char or fails the
      whole unescaping. */
  lemma EscapeDecodedAt(span: Bytes, index: nat, width: nat, decoded: Result<Char16>)
    requires index < |span| && Body(span[index..]) && span[index] == Backslash
    requires index + 2 <= |span| && (IsUnicodeMarker(span[index + 1]) ==> index + 6 <= |span|)
    requires width == if IsUnicodeMarker(span[index + 1]) then 6 else 2
    requires decoded == if IsUnicodeMarker(span[index + 1]) then Hex4(span[index + 2..index + 6]) else EscapeLetter(span[index + 1])
    ensures index + width <= |span| && Body(span[index + width..])
    ensures EscapeSize(span[index..]) == width - 1 + EscapeSize(span[index + width..])
    ensures decoded.Err? ==> Unescape(span[index..]) == Err(decoded.error)
    ensures decoded.Ok? ==> Unescape(span[index..]) == Prepend(decoded.value, Unescape(span[index + width..]))
  {
    var s := span[index..];
    assert s[1] == span[index + 1];
    if IsUnicodeMarker(s[1]) {
      assert s[2..6] == span[index + 2..index + 6];
    }
    EscapeDecoded(s, width, decoded);
    assert span[index + width..] == s[width..];
  }

  /** After a decoded escape the pending run restarts empty; a failed one
      fails the whole unescaping. */
  lemma EscapeStep(span: Bytes, from: nat, index: nat, done: String16, next: nat, decoded: Result<Char16>)
    requires Unescaping(span, from, index, done) && index < next <= |span| && Body(span[next..])
    requires decoded.Err? ==> Unescape(span[index..]) == Err(decoded.error)
    requires decoded.Ok? ==> Unescape(span[index..]) == Prepend(decoded.value, Unescape(span[next..]))
    requires EscapeSize(span[index..]) == next - index - 1 + EscapeSize(span[next..])
    ensures decoded.Err? ==> Unescape(span) == Err(decoded.error)
    ensures decoded.Ok? ==> |done| + (index - from) < |span| - EscapeSize(span)
    ensures decoded.Ok? ==> index < next <= |span|
    ensures decoded.Ok? ==> Unescaping(span, next, next, done + AsciiChars(span[from..index]) + [decoded.value])
  {
    if decoded.Ok? {
      var before := done + AsciiChars(span[from..index]);
      var c := decoded.value;
      PrependAllStep(before, c, Unescape(span[next..]));
      assert span[next..next] == [];
      assert before + [c] + AsciiChars([]) == before + [c];
    }
  }

  /** EscapeAt for an escape of the given width and decoding. */
  lemma EscapeDecoded(s: Bytes, width: nat, decoded: Result<Char16>)
    requires Body(s) && |s| > 0 && s[0] == Backslash
    requires |s| >= 2 && (IsUnicodeMarker(s[1]) ==> |s| >= 6)
    requires width == if IsUnicodeMarker(s[1]) then 6 else 2
    requires decoded == if IsUnicodeMarker(s[1]) then Hex4(s[2..6]) else EscapeLetter(s[1])
    ensures width <= |s| && Body(s[width..]) && EscapeSize(s) == width - 1 + EscapeSize(s[width..])
    ensures decoded.Err? ==> Unescape(s) == Err(decoded.error)
    ensures decoded.Ok? ==> Unescape(s) == Prepend(decoded.value, Unescape(s[width..]))
  {
    EscapeAt(s);
  }

  lemma UnescapingEnd(span: Bytes, from: nat, index: nat, done: String16)
    requires Unescaping(span, from, index, done) && index >= |span|
    ensures |done| + |span[from..]| == |span| - EscapeSize(span)
    ensures Unescape(span) == Ok(done + AsciiChars(span[from..]))
  {
    var prefix := done + AsciiChars(span[from..index]);
    assert span[index..] == [];
    assert Unescape(span[index..]) == Ok([]);
    assert prefix + [] == prefix;
    assert span[from..index] == span[from..];
  }

  /** A body that starts with a verbatim byte. */
  lemma VerbatimAt(s: Bytes)
    requires Body(s) && |s| > 0 && s[0] != Backslash
    ensures Body(s[1..]) && EscapeSize(s) == EscapeSize(s[1..])
    ensures Unescape(s) == Prepend(s[0] as int as Char16, Unescape(s[1..]))
  {
  }

  /** A body that starts with an escape. */
  lemma EscapeAt(s: Bytes)
    requires Body(s) && |s| > 0 && s[0] == Backslash
    ensures |s| >= 2 && (IsUnicodeMarker(s[1]) ==> |s| >= 6)
    ensures IsUnicodeMarker(s[1]) ==>
      && Body(s[6..]) && EscapeSize(s) == 5 + EscapeSize(s[6..])
      && Unescape(s) == match Hex4(s[2..6]) case Err(e) => Err(e) case Ok(c) => Prepend(c, Unescape(s[6..]))
    ensures !IsUnicodeMarker(s[1]) ==>
      && Body(s[2..]) && EscapeSize(s) == 1 + EscapeSize(s[2..])
      && Unescape(s) == match EscapeLetter(s[1]) case Err(e) => Err(e) case Ok(c) => Prepend(c, Unescape(s[2..]))
  {
  }

  /** The digit loop's invariant: bs[start..i] are digits with value v. */
  predicate DigitsRead(bs: Bytes, start: nat, i: nat, v: nat) {
    && start < i <= |bs|
    && IsDigit(bs[start])
    && AllDigits(bs[start..i])
    && v == DecimalValue(bs[start..i])
  }

  /** The digit loop starts with the first digit's value. */
  lemma DigitsStart(bs: Bytes, start: nat)
    requires start < |bs| && IsDigit(bs[start])
    ensures DigitsRead(bs, start, start + 1, DigitValue(bs[start]))
  {
    assert bs[start..start + 1][..0] == [];
  }

  /** One more digit multiplies the value by ten and adds the digit. */
  lemma DigitsStep(bs: Bytes, start: nat, i: nat, v: nat)
    requires DigitsRead(bs, start, i, v) && i < |bs| && IsDigit(bs[i])
    ensures DigitsRead(bs, start, i + 1, v * 10 + DigitValue(bs[i]))
  {
    assert bs[start..i + 1][..i - start] == bs[start..i];
  }

  /** A prefix of the run whose value is too large overflows the reader. */
  lemma DigitsOverflow(bs: Bytes, start: nat, i: nat, v: nat)
    requires DigitsRead(bs, start, i, v) && v > MaxUInt64
    ensures NumberDigits(bs, start) == Err(Overflow)
  {
    var n := DigitRun(bs, start);
    DigitRunCovers(bs, start, i - start);
    RunPrefixBound(bs, start, i - start);
    assert DecimalValue(bs[start..start + n]) > MaxUInt64;
  }

  /** The whole run read without overflow is the reader's result. */
  lemma DigitsEnd(bs: Bytes, start: nat, i: nat, v: nat)
    requires DigitsRead(bs, start, i, v) && v <= MaxUInt64
    requires i == |bs| || !IsDigit(bs[i])
    ensures NumberDigits(bs, start) == Ok(Read(v, i))
  {
    DigitRunOfRun(bs, start, i - start);
  }

  /** A stretch of digits lies inside the digit run. */
  lemma {:induction false} DigitRunCovers(bs: Bytes, start: nat, k: nat)
    requires start + k <= |bs| && AllDigits(bs[start..start + k])
    ensures k <= DigitRun(bs, start)
    decreases k
  {
    if k > 0 {
      assert bs[start] == bs[start..start + k][0];
      assert bs[start + 1..start + k] == bs[start..start + k][1..];
      DigitRunCovers(bs, start + 1, k - 1);
    }
  }

  /** A prefix of a digit run never has a larger value than the whole run. */
  lemma RunPrefixBound(bs: Bytes, start: nat, k: nat)
    requires start + k <= |bs| && k <= DigitRun(bs, start)
    ensures AllDigits(bs[start..start + k]) && AllDigits(bs[start..start + DigitRun(bs, start)])
    ensures DecimalValue(bs[start..start + k]) <= DecimalValue(bs[start..start + DigitRun(bs, start)])
  {
    var ds := bs[start..start + DigitRun(bs, start)];
    assert ds[..k] == bs[start..start + k];
    DecimalValueMonotone(ds, k);
  }
}
