/** Specification of the recursive parts of the UTF-8 reader: skipping a
    value or a segment without building it, and building the dynamic
    value tree. */
module Utf8Dynamic {
  import opened JsonBase
  import opened Utf8Lexer
  import opened Utf8Strings

  // ---------------------------------------------------------------------
  // Skipping

  /** SkipNextUtf8Value: structural tokens and separators are one byte;
      a number is its numeric run (nothing when there is none); a string
      runs to its closing quote; the literals are skipped by their length
      without looking at their letters. */
  function SkipValue(bs: Bytes, p: nat, token: JsonToken): (r: Result<nat>)
    ensures r.Ok? ==> p <= r.value
    ensures r.Ok? && token != JsonToken.None && p < |bs| && token == Classify(bs, p) ==> p < r.value
    ensures r.Err? ==> r.error == ExpectedDoubleQuote || r.error == OutOfRange
  {
    match token
    case None => Ok(p)
    case BeginObject => Ok(p + 1)
    case EndObject => Ok(p + 1)
    case BeginArray => Ok(p + 1)
    case EndArray => Ok(p + 1)
    case ValueSeparator => Ok(p + 1)
    case NameSeparator => Ok(p + 1)
    case Number => Ok(p + NumberRun(bs, p))
    case String =>
      (match FindStringEnd(bs, p + 1)
       case Terminated(n, _) => Ok(p + 1 + n + 1)
       case Unterminated => Err(ExpectedDoubleQuote)
       case ReadPastEnd => Err(OutOfRange))
    case Null => Ok(p + 4)
    case True => Ok(p + 4)
    case False => Ok(p + 5)
  }

  /** SkipNextUtf8Segment(stack): the position after the skipped segment. */
  function SkipSegment(bs: Bytes, p: nat, stack: nat): (r: Result<nat>)
    ensures r.Ok? ==> p <= r.value
    decreases Rem(bs, p), 1
  {
    var t := NextToken(bs, p);
    var q := t.next;
    match t.value
    case None => Ok(q)
    case BeginArray => SkipSegment(bs, q + 1, stack + 1)
    case BeginObject => SkipSegment(bs, q + 1, stack + 1)
    case EndObject => if stack > 1 then SkipSegment(bs, q + 1, stack - 1) else Ok(q + 1)
    case EndArray => if stack > 1 then SkipSegment(bs, q + 1, stack - 1) else Ok(q + 1)
    case _ => SkipScalars(bs, q, t.value, stack)
  }

  /** The do-while loop of SkipNextUtf8Segment: skip the value, look at
      the next token, and go on while inside a container and the token is
      neither a begin/end token nor None; then continue the segment. */
  function SkipScalars(bs: Bytes, q: nat, token: JsonToken, stack: nat): (r: Result<nat>)
    requires q < |bs| && token == Classify(bs, q) && token.IsValueOrSeparator()
    ensures r.Ok? ==> q <= r.value
    decreases Rem(bs, q), 0
  {
    match SkipValue(bs, q, token)
    case Err(e) => Err(e)
    case Ok(q1) =>
      var t := NextToken(bs, q1);
      if stack > 0 && t.value.IsValueOrSeparator() then SkipScalars(bs, t.next, t.value, stack)
      else if stack > 0 then SkipSegment(bs, t.next, stack)
      else Ok(t.next)
  }

  /** Skipping starts after whitespace either way. */
  lemma SkipSegmentWs(bs: Bytes, p: nat, stack: nat)
    ensures SkipSegment(bs, SkipWs(bs, p), stack) == SkipSegment(bs, p, stack)
  {
    NextTokenIdempotent(bs, p);
  }

  /** Inside a container the scalar loop is the segment skipper applied
      after the value. */
  lemma ScalarsAsSegment(bs: Bytes, q: nat, token: JsonToken, stack: nat)
    requires q < |bs| && token == Classify(bs, q) && token.IsValueOrSeparator() && stack > 0
    ensures SkipValue(bs, q, token).Err? ==> SkipScalars(bs, q, token, stack) == Err(SkipValue(bs, q, token).error)
    ensures SkipValue(bs, q, token).Ok? ==>
      SkipScalars(bs, q, token, stack) == SkipSegment(bs, SkipValue(bs, q, token).value, stack)
  {
    if SkipValue(bs, q, token).Ok? {
      SkipSegmentWs(bs, SkipValue(bs, q, token).value, stack);
    }
  }

  // ---------------------------------------------------------------------
  // The dynamic value tree

  /** ReadUtf8Dynamic(stack): the next token decides; nesting deeper than
      MaxNesting is refused after the token is read. Objects keep the last
      value of a repeated name, names are the raw bytes of the name span;
      arrays keep document order. */
  function DynValue(bs: Bytes, p: nat, stack: nat): (r: Result<Read<Dyn>>)
    ensures r.Ok? ==> p < r.value.next <= |bs|
    decreases Rem(bs, p), 2
  {
    var t := NextToken(bs, p);
    var q := t.next;
    if stack > MaxNesting then Err(NestingTooDeep)
    else if t.value == BeginObject then DynMembers(bs, q + 1, 0, stack, map[])
    else if t.value == BeginArray then DynElements(bs, q + 1, 0, stack, [])
    else DynScalar(bs, q, t.value)
  }

  /** How the reader opens a container it accepts. */
  lemma DynOpens(bs: Bytes, p: nat, s: nat)
    requires DynValue(bs, p, s).Ok?
    ensures var t := NextToken(bs, p);
      t.value == BeginObject ==> t.next < |bs| && DynValue(bs, p, s) == DynMembers(bs, t.next + 1, 0, s, map[])
    ensures var t := NextToken(bs, p);
      t.value == BeginArray ==> t.next < |bs| && DynValue(bs, p, s) == DynElements(bs, t.next + 1, 0, s, [])
  {
    NextTokenInside(bs, p);
  }

  /** The leaves: `null`, the booleans, the raw numeric span, the raw
      string span with its quotes; any other token is EndOfData. */
  function DynScalar(bs: Bytes, q: nat, token: JsonToken): (r: Result<Read<Dyn>>)
    ensures r.Ok? ==> q < r.value.next <= |bs|
  {
    match token
    case Null =>
      (match ReadNull(bs, q)
       case Err(e) => Err(e)
       case Ok(n) => Ok(Read(Dyn.Null, n)))
    case True => BoolNode(bs, q)
    case False => BoolNode(bs, q)
    case Number =>
      (match NumberInternal(bs, q)
       case Err(e) => Err(e)
       case Ok(Read(raw, n)) => Ok(Read(Dyn.Number(raw), n)))
    case String =>
      (match StringSpanWithQuotes(bs, q)
       case Err(e) => Err(e)
       case Ok(Read(raw, n)) => Ok(Read(Str(raw), n)))
    case _ => Err(EndOfData)
  }

  function BoolNode(bs: Bytes, q: nat): (r: Result<Read<Dyn>>)
    ensures r.Ok? ==> q < r.value.next <= |bs|
  {
    match Boolean(bs, q)
    case Err(e) => Err(e)
    case Ok(Read(b, n)) => Ok(Read(Bool(b), n))
  }

  /** The member loop of an object: names and values until the closing
      brace, each name replacing an earlier equal one. */
  function DynMembers(bs: Bytes, p: nat, count: nat, stack: nat, acc: map<String16, Dyn>)
    : (r: Result<Read<Dyn>>)
    requires p <= |bs|
    ensures r.Ok? ==> p < r.value.next <= |bs| && r.value.value.Obj?
    decreases Rem(bs, p), 3
  {
    match EndObjectOrSeparator(bs, p, count)
    case Err(e) => Err(e)
    case Ok(Read((true, _), n)) => Ok(Read(Obj(acc), n))
    case Ok(Read((false, c), n)) =>
      match NameSpan(bs, n)
      case Err(e) => Err(e)
      case Ok(Read(name, m)) =>
        match DynValue(bs, m, stack + 1)
        case Err(e) => Err(e)
        case Ok(Read(v, k)) => DynMembers(bs, k, c, stack, acc[AsciiChars(name) := v])
  }

  /** The element loop of an array, in document order. */
  function DynElements(bs: Bytes, p: nat, count: nat, stack: nat, acc: seq<Dyn>)
    : (r: Result<Read<Dyn>>)
    requires p <= |bs|
    ensures r.Ok? ==> p < r.value.next <= |bs| && r.value.value.Arr?
    decreases Rem(bs, p), 3
  {
    match EndArrayOrSeparator(bs, p, count)
    case Err(e) => Err(e)
    case Ok(Read((true, _), n)) => Ok(Read(Arr(acc), n))
    case Ok(Read((false, c), n)) =>
      match DynValue(bs, n, stack + 1)
      case Err(e) => Err(e)
      case Ok(Read(v, k)) => DynElements(bs, k, c, stack, acc + [v])
  }

  // ---------------------------------------------------------------------
  // Skipping agrees with reading

  /** How the segment skipper goes on after a closing token at depth k:
      further up when still inside a container, done at the top. */
  function Close(bs: Bytes, e: nat, k: nat): Result<nat> {
    if k > 0 then SkipSegment(bs, e, k) else Ok(e)
  }

  /** One step of the skipper on a scalar token inside a container. */
  lemma SegmentOnScalar(bs: Bytes, p: nat, k: nat)
    requires k >= 1
    requires var t := NextToken(bs, p); t.value.IsValueOrSeparator()
    ensures var t := NextToken(bs, p);
      && (SkipValue(bs, t.next, t.value).Err? ==> SkipSegment(bs, p, k) == Err(SkipValue(bs, t.next, t.value).error))
      && (SkipValue(bs, t.next, t.value).Ok? ==>
            SkipSegment(bs, p, k) == SkipSegment(bs, SkipValue(bs, t.next, t.value).value, k))
  {
    var t := NextToken(bs, p);
    assert SkipSegment(bs, p, k) == SkipScalars(bs, t.next, t.value, k);
    ScalarsAsSegment(bs, t.next, t.value, k);
  }

  /** One step of the skipper on a begin token. */
  lemma SegmentOnBegin(bs: Bytes, p: nat, k: nat)
    requires var t := NextToken(bs, p); t.value == BeginObject || t.value == BeginArray
    ensures SkipSegment(bs, p, k) == SkipSegment(bs, NextToken(bs, p).next + 1, k + 1)
  {
  }

  /** One step of the skipper on an end token. */
  lemma SegmentOnEnd(bs: Bytes, p: nat, k: nat)
    requires var t := NextToken(bs, p); t.value == EndObject || t.value == EndArray
    ensures SkipSegment(bs, p, k + 1) == Close(bs, NextToken(bs, p).next + 1, k)
  {
  }

  /** Every leaf the reader accepts is skipped to where the reader stops. */
  lemma SkipsScalar(bs: Bytes, q: nat, token: JsonToken)
    requires q < |bs| && token == Classify(bs, q) && DynScalar(bs, q, token).Ok?
    ensures SkipValue(bs, q, token) == Ok(DynScalar(bs, q, token).value.next)
  {
  }

  /** A name and its colon are skipped as the name reader reads them. */
  lemma SkipsName(bs: Bytes, n: nat, j: nat, name: Bytes, m: nat)
    requires NameSpan(bs, n) == Ok(Read(name, m)) && j >= 1
    ensures SkipSegment(bs, n, j) == SkipSegment(bs, m, j)
  {
    var q := SkipWs(bs, n);
    if q < |bs| && bs[q] == LowerN {
      assert IsNull(bs, n) == Ok(Read(true, q + 4));
      SkipsNullName(bs, n, q, j);
    } else {
      var b := StringSpanInternal(bs, q).value;
      assert IsNull(bs, n) == Ok(Read(false, q));
      SkipsStringName(bs, n, q, b.next, j);
    }
  }

  /** One step of the skipper over a scalar token whose extent is known. */
  lemma SegmentStep(bs: Bytes, p: nat, k: nat, token: JsonToken, q: nat, q1: nat)
    requires k >= 1 && NextToken(bs, p) == Read(token, q) && token.IsValueOrSeparator()
    requires SkipValue(bs, q, token) == Ok(q1)
    ensures SkipSegment(bs, p, k) == SkipSegment(bs, q1, k)
  {
    SegmentOnScalar(bs, p, k);
  }

  /** The colon after a name. */
  lemma SkipsColon(bs: Bytes, e: nat, j: nat)
    requires j >= 1 && e < |bs| && bs[e] == Colon
    ensures SkipSegment(bs, e, j) == SkipSegment(bs, e + 1, j)
  {
    assert SkipWs(bs, e) == e;
    SegmentStep(bs, e, j, NameSeparator, e, e + 1);
  }

  /** The name `null`: four letters and the colon right after them. */
  lemma SkipsNullName(bs: Bytes, n: nat, q: nat, j: nat)
    requires j >= 1 && q == SkipWs(bs, n) && q + 4 < |bs| && bs[q] == LowerN && bs[q + 4] == Colon
    ensures SkipSegment(bs, n, j) == SkipSegment(bs, q + 5, j)
  {
    assert NextToken(bs, n) == Read(JsonToken.Null, q);
    SegmentStep(bs, n, j, JsonToken.Null, q, q + 4);
    SkipsColon(bs, q + 4, j);
  }

  /** A quoted name and the colon right after its closing quote. */
  lemma SkipsStringName(bs: Bytes, n: nat, q: nat, e: nat, j: nat)
    requires j >= 1 && q == SkipWs(bs, n) && StringSpanInternal(bs, q).Ok?
    requires e == StringSpanInternal(bs, q).value.next && e < |bs| && bs[e] == Colon
    ensures SkipSegment(bs, n, j) == SkipSegment(bs, e + 1, j)
  {
    assert NextToken(bs, n) == Read(JsonToken.String, q);
    assert SkipValue(bs, q, JsonToken.String) == Ok(e);
    SegmentStep(bs, n, j, JsonToken.String, q, e);
    SkipsColon(bs, e, j);
  }

  /** Inside a container, skipping from the start of a value the reader
      accepts continues exactly where the reader stops. */
  lemma {:induction false} SkipsValue(bs: Bytes, p: nat, s: nat, k: nat, v: Read<Dyn>)
    requires DynValue(bs, p, s) == Ok(v) && k >= 1
    ensures SkipSegment(bs, p, k) == SkipSegment(bs, v.next, k)
    decreases Rem(bs, p), 2
  {
    var t := NextToken(bs, p);
    if t.value == BeginObject {
      DynOpens(bs, p, s);
      SkipsObject(bs, p, s, k, t.next, v);
    } else if t.value == BeginArray {
      DynOpens(bs, p, s);
      SkipsArray(bs, p, s, k, t.next, v);
    } else {
      assert DynValue(bs, p, s) == DynScalar(bs, t.next, t.value);
      SkipsScalarValue(bs, p, k, t.value, t.next, v);
    }
  }

  /** An object the reader accepts is skipped up to its closing brace,
      after which the skipper closes one level. */
  lemma {:induction false} SkipsObject(bs: Bytes, p: nat, s: nat, k: nat, q: nat, v: Read<Dyn>)
    requires NextToken(bs, p) == Read(BeginObject, q) && q < |bs|
    requires DynMembers(bs, q + 1, 0, s, map[]) == Ok(v)
    ensures SkipSegment(bs, p, k) == Close(bs, v.next, k)
    decreases Rem(bs, p), 1
  {
    SegmentOnBegin(bs, p, k);
    SkipsMembers(bs, q + 1, 0, s, map[], k, v);
  }

  /** An array the reader accepts is skipped up to its closing bracket,
      after which the skipper closes one level. */
  lemma {:induction false} SkipsArray(bs: Bytes, p: nat, s: nat, k: nat, q: nat, v: Read<Dyn>)
    requires NextToken(bs, p) == Read(BeginArray, q) && q < |bs|
    requires DynElements(bs, q + 1, 0, s, []) == Ok(v)
    ensures SkipSegment(bs, p, k) == Close(bs, v.next, k)
    decreases Rem(bs, p), 1
  {
    SegmentOnBegin(bs, p, k);
    SkipsElements(bs, q + 1, 0, s, [], k, v);
  }

  /** A leaf inside a container is skipped where the reader stops. */
  lemma SkipsScalarValue(bs: Bytes, p: nat, k: nat, token: JsonToken, q: nat, v: Read<Dyn>)
    requires k >= 1 && NextToken(bs, p) == Read(token, q) && DynScalar(bs, q, token) == Ok(v)
    ensures SkipSegment(bs, p, k) == SkipSegment(bs, v.next, k)
  {
    NextTokenInside(bs, p);
    SkipsScalar(bs, q, token);
    SegmentStep(bs, p, k, token, q, v.next);
  }

  /** The rest of an object the reader accepts is skipped up to its
      closing brace, after which the skipper closes one level. */
  lemma {:induction false} SkipsMembers(bs: Bytes, p: nat, count: nat, s: nat,
                                        acc: map<String16, Dyn>, k: nat, r: Read<Dyn>)
    requires p <= |bs| && DynMembers(bs, p, count, s, acc) == Ok(r)
    ensures SkipSegment(bs, p, k + 1) == Close(bs, r.next, k)
    decreases Rem(bs, p), 3
  {
    match EndObjectOrSeparator(bs, p, count)
    case Err(_) =>
      assert false;
    case Ok(Read((true, c), n)) =>
      ClosesObject(bs, p, count, c, n, k);
    case Ok(Read((false, c), n)) =>
      PassesObjectSeparator(bs, p, count, c, n, k + 1);
      match NameSpan(bs, n)
      case Err(_) =>
        assert false;
      case Ok(Read(name, m)) =>
        SkipsName(bs, n, k + 1, name, m);
        match DynValue(bs, m, s + 1)
        case Err(_) =>
          assert false;
        case Ok(v) =>
          SkipsValue(bs, m, s + 1, k + 1, v);
          SkipsMembers(bs, v.next, c, s, acc[AsciiChars(name) := v.value], k, r);
  }

  /** The rest of an array the reader accepts is skipped up to its
      closing bracket, after which the skipper closes one level. */
  lemma {:induction false} SkipsElements(bs: Bytes, p: nat, count: nat, s: nat, acc: seq<Dyn>, k: nat,
                                         r: Read<Dyn>)
    requires p <= |bs| && DynElements(bs, p, count, s, acc) == Ok(r)
    ensures SkipSegment(bs, p, k + 1) == Close(bs, r.next, k)
    decreases Rem(bs, p), 3
  {
    match EndArrayOrSeparator(bs, p, count)
    case Err(_) =>
      assert false;
    case Ok(Read((true, c), n)) =>
      ClosesArray(bs, p, count, c, n, k);
    case Ok(Read((false, c), n)) =>
      PassesArraySeparator(bs, p, count, c, n, k + 1);
      match DynValue(bs, n, s + 1)
      case Err(_) =>
        assert false;
      case Ok(v) =>
        SkipsValue(bs, n, s + 1, k + 1, v);
        SkipsElements(bs, v.next, c, s, acc + [v.value], k, r);
  }

  /** The closing brace the separator check consumes closes one level. */
  lemma ClosesObject(bs: Bytes, p: nat, count: nat, c: nat, n: nat, k: nat)
    requires EndObjectOrSeparator(bs, p, count) == Ok(Read((true, c), n))
    ensures SkipSegment(bs, p, k + 1) == Close(bs, n, k)
  {
    SegmentOnEnd(bs, p, k);
  }

  /** The closing bracket the separator check consumes closes one level. */
  lemma ClosesArray(bs: Bytes, p: nat, count: nat, c: nat, n: nat, k: nat)
    requires EndArrayOrSeparator(bs, p, count) == Ok(Read((true, c), n))
    ensures SkipSegment(bs, p, k + 1) == Close(bs, n, k)
  {
    SegmentOnEnd(bs, p, k);
  }

  /** What the separator check of an object passes over, the skipper does too. */
  lemma PassesObjectSeparator(bs: Bytes, p: nat, count: nat, c: nat, n: nat, j: nat)
    requires j >= 1 && EndObjectOrSeparator(bs, p, count) == Ok(Read((false, c), n))
    ensures SkipSegment(bs, p, j) == SkipSegment(bs, n, j)
  {
    SeparatorStep(bs, p, count > 0, n, j);
  }

  /** What the separator check of an array passes over, the skipper does too. */
  lemma PassesArraySeparator(bs: Bytes, p: nat, count: nat, c: nat, n: nat, j: nat)
    requires j >= 1 && EndArrayOrSeparator(bs, p, count) == Ok(Read((false, c), n))
    ensures SkipSegment(bs, p, j) == SkipSegment(bs, n, j)
  {
    SeparatorStep(bs, p, count > 0, n, j);
  }

  /** Passing a separator (or, before the first element, nothing but
      whitespace) leaves the skipper where it was. */
  lemma SeparatorStep(bs: Bytes, p: nat, comma: bool, n: nat, j: nat)
    requires j >= 1
    requires var q := SkipWs(bs, p);
      if comma then q < |bs| && bs[q] == Comma && n == q + 1 else n == q
    ensures SkipSegment(bs, p, j) == SkipSegment(bs, n, j)
  {
    if comma {
      var q := SkipWs(bs, p);
      assert NextToken(bs, p) == Read(ValueSeparator, q);
      SegmentStep(bs, p, j, ValueSeparator, q, n);
    } else {
      SkipSegmentWs(bs, p, j);
    }
  }

  /** SkipNextUtf8Segment() ends where ReadUtf8Dynamic() ends on every
      value the latter accepts; after a scalar it also skips the
      whitespace that follows. */
  lemma SkipMatchesDynamic(bs: Bytes, p: nat, s: nat)
    requires DynValue(bs, p, s).Ok?
    ensures var r := DynValue(bs, p, s).value;
      SkipSegment(bs, p, 0) == if r.value.Obj? || r.value.Arr? then Ok(r.next) else Ok(SkipWs(bs, r.next))
  {
    var t := NextToken(bs, p);
    if t.value == BeginObject || t.value == BeginArray {
      SkipsContainerAtTop(bs, p, s);
    } else {
      assert DynValue(bs, p, s) == DynScalar(bs, t.next, t.value);
      SkipsScalarAtTop(bs, p);
    }
  }

  /** At the top level a container is skipped up to its closing token. */
  lemma SkipsContainerAtTop(bs: Bytes, p: nat, s: nat)
    requires var t := NextToken(bs, p); t.value == BeginObject || t.value == BeginArray
    requires DynValue(bs, p, s).Ok?
    ensures var r := DynValue(bs, p, s).value;
      (r.value.Obj? || r.value.Arr?) && SkipSegment(bs, p, 0) == Ok(r.next)
  {
    var t := NextToken(bs, p);
    var v := DynValue(bs, p, s).value;
    DynOpens(bs, p, s);
    if t.value == BeginObject {
      SkipsObject(bs, p, s, 0, t.next, v);
    } else {
      SkipsArray(bs, p, s, 0, t.next, v);
    }
  }

  /** At the top level a leaf is skipped together with the whitespace
      after it. */
  lemma SkipsScalarAtTop(bs: Bytes, p: nat)
    requires var t := NextToken(bs, p); DynScalar(bs, t.next, t.value).Ok?
    ensures var t := NextToken(bs, p); var r := DynScalar(bs, t.next, t.value).value;
      !r.value.Obj? && !r.value.Arr? && SkipSegment(bs, p, 0) == Ok(SkipWs(bs, r.next))
  {
    var t := NextToken(bs, p);
    SkipsScalar(bs, t.next, t.value);
    assert t.value.IsValueOrSeparator();
    assert SkipSegment(bs, p, 0) == SkipScalars(bs, t.next, t.value, 0);
  }

  // ---------------------------------------------------------------------
  // The nesting limit

  /** d opening brackets, a zero, d closing brackets. */
  function Nest(d: nat): (r: Bytes)
    ensures |r| == 2 * d + 1
  {
    seq(2 * d + 1, k => if k < d then LeftBracket else if k == d then Zero else RightBracket)
  }

  /** The value Nest(d) stands for: d arrays around the number 0. */
  function Wrap(d: nat): Dyn {
    if d == 0 then Dyn.Number([Zero]) else Arr([Wrap(d - 1)])
  }

  /** An array of one element, read from after its opening bracket. */
  lemma OneElement(bs: Bytes, p: nat, s: nat, w: Dyn, e: nat)
    requires p <= |bs| && EndArrayOrSeparator(bs, p, 0) == Ok(Read((false, 1), p))
    requires DynValue(bs, p, s + 1) == Ok(Read(w, e))
    requires EndArrayOrSeparator(bs, e, 1) == Ok(Read((true, 1), e + 1))
    ensures DynElements(bs, p, 0, s, []) == Ok(Read(Arr([w]), e + 1))
  {
    assert [] + [w] == [w];
  }

  /** An array whose element fails fails the same way. */
  lemma FailedElement(bs: Bytes, p: nat, s: nat, x: ParserError)
    requires p <= |bs| && EndArrayOrSeparator(bs, p, 0) == Ok(Read((false, 1), p))
    requires DynValue(bs, p, s + 1) == Err(x)
    ensures DynElements(bs, p, 0, s, []) == Err(x)
  {
  }

  /** The bytes of Nest(d) as the reader sees them. */
  lemma NestToken(d: nat, i: nat)
    requires i <= d
    ensures NextToken(Nest(d), i) == Read(if i < d then BeginArray else JsonToken.Number, i)
  {
    var bs := Nest(d);
    assert bs[i] == (if i < d then LeftBracket else Zero);
    assert SkipWs(bs, i) == i;
  }

  lemma NestOpens(d: nat, i: nat)
    requires i < d
    ensures EndArrayOrSeparator(Nest(d), i + 1, 0) == Ok(Read((false, 1), i + 1))
  {
    var bs := Nest(d);
    assert bs[i + 1] != RightBracket && !IsWhitespace(bs[i + 1]);
    assert SkipWs(bs, i + 1) == i + 1;
  }

  lemma NestCloses(d: nat, i: nat)
    requires i < d
    ensures EndArrayOrSeparator(Nest(d), 2 * d - i, 1) == Ok(Read((true, 1), 2 * d - i + 1))
  {
    var bs := Nest(d);
    var e := 2 * d - i;
    assert bs[e] == RightBracket;
    assert SkipWs(bs, e) == e;
  }

  /** The zero in the middle of Nest(d). */
  lemma NestLeaf(d: nat, s: nat)
    requires s <= MaxNesting
    ensures DynValue(Nest(d), d, s) == Ok(Read(Wrap(0), d + 1))
  {
    var bs := Nest(d);
    NestToken(d, d);
    assert d + 1 == |bs| || bs[d + 1] == RightBracket;
    assert NumberRun(bs, d + 1) == 0;
    assert NumberRun(bs, d) == 1;
    assert bs[d..d + 1] == [Zero];
    assert NumberInternal(bs, d) == Ok(Read([Zero], d + 1));
    assert DynValue(bs, d, s) == DynScalar(bs, d, JsonToken.Number);
  }

  /** Below the limit an array is read by the element loop. */
  lemma DynOnArray(bs: Bytes, p: nat, s: nat, q: nat)
    requires s <= MaxNesting && NextToken(bs, p) == Read(BeginArray, q) && q < |bs|
    ensures DynValue(bs, p, s) == DynElements(bs, q + 1, 0, s, [])
  {
  }

  /** One bracket of Nest(d) around an accepted inner value. */
  lemma NestArrayOk(d: nat, i: nat, s: nat, w: Dyn)
    requires i < d && s <= MaxNesting
    requires DynValue(Nest(d), i + 1, s + 1) == Ok(Read(w, 2 * d - i))
    ensures DynValue(Nest(d), i, s) == Ok(Read(Arr([w]), 2 * d - i + 1))
  {
    var bs := Nest(d);
    NestToken(d, i);
    DynOnArray(bs, i, s, i);
    NestOpens(d, i);
    NestCloses(d, i);
    OneElement(bs, i + 1, s, w, 2 * d - i);
  }

  /** One bracket of Nest(d) around a rejected inner value. */
  lemma NestArrayErr(d: nat, i: nat, s: nat)
    requires i < d && s <= MaxNesting
    requires DynValue(Nest(d), i + 1, s + 1) == Err(NestingTooDeep)
    ensures DynValue(Nest(d), i, s) == Err(NestingTooDeep)
  {
    var bs := Nest(d);
    NestToken(d, i);
    DynOnArray(bs, i, s, i);
    NestOpens(d, i);
    FailedElement(bs, i + 1, s, NestingTooDeep);
  }

  /** Read from position i of Nest(d) at depth s, the document is accepted
      exactly when the deepest value sits at depth MaxNesting or less. */
  lemma {:induction false} NestFrom(d: nat, i: nat, s: nat)
    requires i <= d
    ensures DynValue(Nest(d), i, s) ==
      if s + (d - i) <= MaxNesting then Ok(Read(Wrap(d - i), 2 * d + 1 - i)) else Err(NestingTooDeep)
    decreases d - i
  {
    if s > MaxNesting {
      assert DynValue(Nest(d), i, s) == Err(NestingTooDeep);
    } else if i == d {
      NestLeaf(d, s);
    } else {
      NestFrom(d, i + 1, s + 1);
      if s + (d - i) <= MaxNesting {
        assert Wrap(d - i) == Arr([Wrap(d - i - 1)]);
        NestArrayOk(d, i, s, Wrap(d - i - 1));
      } else {
        NestArrayErr(d, i, s);
      }
    }
  }

  /** ReadUtf8Dynamic() accepts 256 nested arrays and refuses 257. */
  lemma NestingLimit(d: nat)
    ensures DynValue(Nest(d), 0, 0) ==
      if d <= MaxNesting then Ok(Read(Wrap(d), 2 * d + 1)) else Err(NestingTooDeep)
  {
    NestFrom(d, 0, 0);
  }

  // ---------------------------------------------------------------------
  // Object members as the list of pairs in document order

  type Member = (String16, Dyn)

  /** The members of an object in the order the reader meets them, each
      name as the raw bytes of its span. */
  function MemberPairs(bs: Bytes, p: nat, count: nat, stack: nat): (r: Result<Read<seq<Member>>>)
    requires p <= |bs|
    ensures r.Ok? ==> p < r.value.next <= |bs|
    decreases Rem(bs, p)
  {
    match EndObjectOrSeparator(bs, p, count)
    case Err(e) => Err(e)
    case Ok(Read((true, _), n)) => Ok(Read([], n))
    case Ok(Read((false, c), n)) =>
      match NameSpan(bs, n)
      case Err(e) => Err(e)
      case Ok(Read(name, m)) =>
        match DynValue(bs, m, stack + 1)
        case Err(e) => Err(e)
        case Ok(Read(v, k)) =>
          match MemberPairs(bs, k, c, stack)
          case Err(e) => Err(e)
          case Ok(Read(rest, e)) => Ok(Read([(AsciiChars(name), v)] + rest, e))
  }

  /** Dictionary assignment of each pair in turn. */
  function Assign(acc: map<String16, Dyn>, ps: seq<Member>): map<String16, Dyn>
    decreases |ps|
  {
    if ps == [] then acc else Assign(acc[ps[0].0 := ps[0].1], ps[1..])
  }

  function AsObject(acc: map<String16, Dyn>, r: Result<Read<seq<Member>>>): Result<Read<Dyn>> {
    match r
    case Err(e) => Err(e)
    case Ok(Read(ps, n)) => Ok(Read(Obj(Assign(acc, ps)), n))
  }

  /** The member loop is the assignment of the pairs, failing exactly
      where the pair reader fails. */
  lemma {:induction false} MembersArePairs(bs: Bytes, p: nat, count: nat, s: nat, acc: map<String16, Dyn>)
    requires p <= |bs|
    ensures DynMembers(bs, p, count, s, acc) == AsObject(acc, MemberPairs(bs, p, count, s))
    decreases Rem(bs, p)
  {
    match EndObjectOrSeparator(bs, p, count)
    case Err(e) =>
    case Ok(Read((true, _), n)) =>
    case Ok(Read((false, c), n)) =>
      match NameSpan(bs, n)
      case Err(e) =>
      case Ok(Read(name, m)) =>
        match DynValue(bs, m, s + 1)
        case Err(e) =>
        case Ok(Read(v, k)) =>
          var acc' := acc[AsciiChars(name) := v];
          MembersArePairs(bs, k, c, s, acc');
          match MemberPairs(bs, k, c, s)
          case Err(e) =>
          case Ok(Read(rest, e)) =>
            var ps := [(AsciiChars(name), v)] + rest;
            assert ps[0] == (AsciiChars(name), v) && ps[1..] == rest;
            assert Assign(acc, ps) == Assign(acc', rest);
  }

  /** The names of an object are those of its pairs. */
  lemma {:induction false} AssignKeys(acc: map<String16, Dyn>, ps: seq<Member>)
    ensures Assign(acc, ps).Keys == acc.Keys + set i | 0 <= i < |ps| :: ps[i].0
    decreases |ps|
  {
    if ps != [] {
      AssignKeys(acc[ps[0].0 := ps[0].1], ps[1..]);
      var later := set i | 0 <= i < |ps[1..]| :: ps[1..][i].0;
      var all := set i | 0 <= i < |ps| :: ps[i].0;
      assert all == {ps[0].0} + later by {
        forall x | x in all ensures x in {ps[0].0} + later {
          var i :| 0 <= i < |ps| && ps[i].0 == x;
          if i > 0 { assert ps[1..][i - 1].0 == x; }
        }
        forall x | x in later ensures x in all {
          var i :| 0 <= i < |ps[1..]| && ps[1..][i].0 == x;
          assert ps[i + 1].0 == x;
        }
      }
    }
  }

  /** A name no later pair repeats keeps its value. */
  lemma {:induction false} AssignUntouched(acc: map<String16, Dyn>, ps: seq<Member>, key: String16)
    requires key in acc
    requires forall i :: 0 <= i < |ps| ==> ps[i].0 != key
    ensures key in Assign(acc, ps) && Assign(acc, ps)[key] == acc[key]
    decreases |ps|
  {
    if ps != [] {
      assert ps[0].0 != key;
      forall i | 0 <= i < |ps[1..]| ensures ps[1..][i].0 != key {
        assert ps[1..][i] == ps[i + 1];
      }
      AssignUntouched(acc[ps[0].0 := ps[0].1], ps[1..], key);
    }
  }

  /** A repeated name keeps the value of its last occurrence. */
  lemma {:induction false} LastValueWins(acc: map<String16, Dyn>, ps: seq<Member>, j: nat)
    requires j < |ps|
    requires forall i :: j < i < |ps| ==> ps[i].0 != ps[j].0
    ensures ps[j].0 in Assign(acc, ps) && Assign(acc, ps)[ps[j].0] == ps[j].1
    decreases |ps|
  {
    var acc' := acc[ps[0].0 := ps[0].1];
    if j == 0 {
      forall i | 0 <= i < |ps[1..]| ensures ps[1..][i].0 != ps[0].0 {
        assert ps[1..][i] == ps[i + 1];
      }
      AssignUntouched(acc', ps[1..], ps[0].0);
    } else {
      forall i | j - 1 < i < |ps[1..]| ensures ps[1..][i].0 != ps[1..][j - 1].0 {
        assert ps[1..][i] == ps[i + 1];
      }
      LastValueWins(acc', ps[1..], j - 1);
    }
  }

  /** Below the limit an object is read by the member loop. */
  lemma DynOnObject(bs: Bytes, p: nat, s: nat, q: nat)
    requires s <= MaxNesting && NextToken(bs, p) == Read(BeginObject, q) && q < |bs|
    ensures DynValue(bs, p, s) == DynMembers(bs, q + 1, 0, s, map[])
  {
  }

  /** ReadUtf8Dynamic on an object whose pairs read as ps, the empty
      object included: the object assigns them in document order, and
      every name is a raw name span of the document. */
  lemma DynamicObject(bs: Bytes, p: nat, s: nat, q: nat, ps: seq<Member>, e: nat)
    requires s <= MaxNesting && NextToken(bs, p) == Read(BeginObject, q) && q < |bs|
    requires MemberPairs(bs, q + 1, 0, s) == Ok(Read(ps, e))
    ensures DynValue(bs, p, s) == Ok(Read(Obj(Assign(map[], ps)), e))
    ensures forall i :: 0 <= i < |ps| ==> RawKey(bs, ps[i].0)
  {
    DynOnObject(bs, p, s, q);
    MembersArePairs(bs, q + 1, 0, s, map[]);
    MemberNamesRaw(bs, q + 1, 0, s, ps, e);
  }

  /** A repeated name of such an object ends up holding the value of its
      last occurrence. */
  lemma DynamicObjectMembers(bs: Bytes, p: nat, s: nat, q: nat, ps: seq<Member>, e: nat, j: nat)
    requires s <= MaxNesting && NextToken(bs, p) == Read(BeginObject, q) && q < |bs|
    requires MemberPairs(bs, q + 1, 0, s) == Ok(Read(ps, e))
    requires j < |ps| && forall i :: j < i < |ps| ==> ps[i].0 != ps[j].0
    ensures DynValue(bs, p, s) == Ok(Read(Obj(Assign(map[], ps)), e))
    ensures ps[j].0 in Assign(map[], ps) && Assign(map[], ps)[ps[j].0] == ps[j].1
    ensures forall i :: 0 <= i < |ps| ==> RawKey(bs, ps[i].0)
  {
    DynamicObject(bs, p, s, q, ps, e);
    LastValueWins(map[], ps, j);
  }

  /** A name as it stands in the document at q: the literal `null` (read as
      the null terminator) or a quoted body, followed at once by `:`. */
  predicate NameLayout(bs: Bytes, q: nat, s: Bytes) {
    || (q + 4 < |bs| && bs[q..q + 4] == NullLiteral && bs[q + 4] == Colon && s == NullTerminator)
    || (&& q + |s| + 2 < |bs|
        && bs[q] == Quote && bs[q + 1..q + 1 + |s|] == s && bs[q + 1 + |s|] == Quote
        && bs[q + 2 + |s|] == Colon && Body(s))
  }

  /** A dictionary key comes from some name in the document, widened byte
      by byte. */
  ghost predicate RawKey(bs: Bytes, key: String16) {
    exists q: nat, s: Bytes :: NameLayout(bs, q, s) && key == AsciiChars(s)
  }

  /** Every name of the object's pairs is the raw name span widened byte by
      byte: the reader never unescapes a dynamic object's names. */
  lemma {:induction false} MemberNamesRaw(bs: Bytes, p: nat, count: nat, s: nat, ps: seq<Member>, e: nat)
    requires p <= |bs| && MemberPairs(bs, p, count, s) == Ok(Read(ps, e))
    ensures forall i :: 0 <= i < |ps| ==> RawKey(bs, ps[i].0)
    decreases Rem(bs, p)
  {
    match EndObjectOrSeparator(bs, p, count)
    case Ok(Read((true, _), n)) =>
    case Ok(Read((false, c), n)) =>
      match NameSpan(bs, n)
      case Ok(Read(name, m)) =>
        NameSpanSpec(bs, n, name, m);
        assert NameLayout(bs, SkipWs(bs, n), name);
        match DynValue(bs, m, s + 1)
        case Ok(Read(v, k)) =>
          match MemberPairs(bs, k, c, s)
          case Ok(Read(rest, _)) =>
            MemberNamesRaw(bs, k, c, s, rest, e);
            assert ps == [(AsciiChars(name), v)] + rest;
            forall i | 0 <= i < |ps| ensures RawKey(bs, ps[i].0) {
              if i > 0 { assert ps[i] == rest[i - 1]; }
            }
  }

  /** The elements of an array in the order the reader meets them. */
  function ElementList(bs: Bytes, p: nat, count: nat, stack: nat): (r: Result<Read<seq<Dyn>>>)
    requires p <= |bs|
    ensures r.Ok? ==> p < r.value.next <= |bs|
    decreases Rem(bs, p)
  {
    match EndArrayOrSeparator(bs, p, count)
    case Err(e) => Err(e)
    case Ok(Read((true, _), n)) => Ok(Read([], n))
    case Ok(Read((false, c), n)) =>
      match DynValue(bs, n, stack + 1)
      case Err(e) => Err(e)
      case Ok(Read(v, k)) =>
        match ElementList(bs, k, c, stack)
        case Err(e) => Err(e)
        case Ok(Read(rest, e)) => Ok(Read([v] + rest, e))
  }

  function AsArray(acc: seq<Dyn>, r: Result<Read<seq<Dyn>>>): Result<Read<Dyn>> {
    match r
    case Err(e) => Err(e)
    case Ok(Read(vs, n)) => Ok(Read(Arr(acc + vs), n))
  }

  /** The element loop appends the elements in document order, failing
      exactly where the element reader fails. */
  lemma {:induction false} ElementsAreList(bs: Bytes, p: nat, count: nat, s: nat, acc: seq<Dyn>)
    requires p <= |bs|
    ensures DynElements(bs, p, count, s, acc) == AsArray(acc, ElementList(bs, p, count, s))
    decreases Rem(bs, p)
  {
    match EndArrayOrSeparator(bs, p, count)
    case Err(e) =>
    case Ok(Read((true, _), n)) =>
      assert acc + [] == acc;
    case Ok(Read((false, c), n)) =>
      match DynValue(bs, n, s + 1)
      case Err(e) =>
      case Ok(Read(v, k)) =>
        ElementsAreList(bs, k, c, s, acc + [v]);
        match ElementList(bs, k, c, s)
        case Err(e) =>
        case Ok(Read(rest, e)) =>
          assert acc + ([v] + rest) == (acc + [v]) + rest;
  }

  /** ReadUtf8Dynamic on an array whose elements read as vs: the array
      holds exactly those values, in document order. */
  lemma DynamicArrayElements(bs: Bytes, p: nat, s: nat, q: nat, vs: seq<Dyn>, e: nat)
    requires s <= MaxNesting && NextToken(bs, p) == Read(BeginArray, q) && q < |bs|
    requires ElementList(bs, q + 1, 0, s) == Ok(Read(vs, e))
    ensures DynValue(bs, p, s) == Ok(Read(Arr(vs), e))
  {
    DynOnArray(bs, p, s, q);
    ElementsAreList(bs, q + 1, 0, s, []);
    assert [] + vs == vs;
  }
}
