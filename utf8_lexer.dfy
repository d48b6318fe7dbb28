/** Specification of the flat (non-recursive) reads of the UTF-8 JSON
    reader, as functions of the buffer and the cursor position: whitespace
    skipping, token classification, the number and string end finders,
    the integer readers, the literal matchers and the separator protocol.
    Each function returns the value read and the position after it. */
module Utf8Lexer {
  import opened JsonBase

  // ---------------------------------------------------------------------
  // Whitespace and token classification

  /** What is left of the buffer from p on: the measure every reader
      that moves forward decreases. */
  function Rem(bs: Bytes, p: nat): nat {
    if p <= |bs| then |bs| - p else 0
  }

  /** Position of the first non-whitespace byte at or after p. */
  function SkipWs(bs: Bytes, p: nat): (q: nat)
    ensures p <= q
    ensures q <= |bs| || q == p
    ensures q < |bs| ==> !IsWhitespace(bs[q])
    decreases |bs| - p
  {
    if p < |bs| && IsWhitespace(bs[p]) then SkipWs(bs, p + 1) else p
  }

  /** Everything SkipWs passes over is whitespace. */
  lemma {:induction false} SkipWsSkipsWhitespace(bs: Bytes, p: nat)
    ensures forall i :: p <= i < SkipWs(bs, p) ==> i < |bs| && IsWhitespace(bs[i])
    decreases |bs| - p
  {
    if p < |bs| && IsWhitespace(bs[p]) {
      var q := SkipWs(bs, p + 1);
      assert SkipWs(bs, p) == q;
      SkipWsSkipsWhitespace(bs, p + 1);
      forall i | p <= i < q
        ensures i < |bs| && IsWhitespace(bs[i])
      {
        if i > p {
          assert p + 1 <= i < SkipWs(bs, p + 1);
        }
      }
    } else {
      assert SkipWs(bs, p) == p;
    }
  }

  /** The token the byte at p starts; the byte is not consumed. */
  function Classify(bs: Bytes, p: nat): (t: JsonToken)
    ensures t.None? <==> p >= |bs| || !IsTokenStart(bs[p])
    ensures t.Number? <==> p < |bs| && (bs[p] == Minus || IsDigit(bs[p]))
    ensures t.String? <==> p < |bs| && bs[p] == Quote
  {
    if p >= |bs| then JsonToken.None
    else
      var b := bs[p];
      if b == LeftBrace then BeginObject
      else if b == RightBrace then EndObject
      else if b == LeftBracket then BeginArray
      else if b == RightBracket then EndArray
      else if b == Quote then JsonToken.String
      else if b == LowerT then True
      else if b == LowerF then False
      else if b == LowerN then JsonToken.Null
      else if b == Comma then ValueSeparator
      else if b == Colon then NameSeparator
      else if b == Minus || IsDigit(b) then JsonToken.Number
      else JsonToken.None
  }

  predicate IsTokenStart(b: byte) {
    b in {LeftBrace, RightBrace, LeftBracket, RightBracket, Quote, LowerT, LowerF,
          LowerN, Comma, Colon, Minus} || IsDigit(b)
  }

  /** ReadUtf8NextToken: skip whitespace, then classify. */
  function NextToken(bs: Bytes, p: nat): Read<JsonToken> {
    var q := SkipWs(bs, p);
    Read(Classify(bs, q), q)
  }

  /** Asking twice gives the same token without moving further. */
  lemma NextTokenIdempotent(bs: Bytes, p: nat)
    ensures NextToken(bs, NextToken(bs, p).next) == NextToken(bs, p)
  {
  }

  /** A token other than None sits on a byte inside the buffer. */
  lemma NextTokenInside(bs: Bytes, p: nat)
    ensures !NextToken(bs, p).value.None? ==> NextToken(bs, p).next < |bs|
  {
  }

  // ---------------------------------------------------------------------
  // Number end finder

  predicate IsNumericSymbol(b: byte) {
    IsDigit(b) || b == Plus || b == Minus || b == Dot || b == UpperE || b == LowerE
  }

  /** Length of the maximal run of numeric symbols starting at i. */
  function NumberRun(bs: Bytes, i: nat): (n: nat)
    ensures n > 0 ==> i + n <= |bs|
    ensures i + n < |bs| ==> !IsNumericSymbol(bs[i + n])
    decreases |bs| - i
  {
    if i < |bs| && IsNumericSymbol(bs[i]) then 1 + NumberRun(bs, i + 1) else 0
  }

  /** The numeric run consists of numeric symbols only. */
  lemma {:induction false} NumberRunIsNumeric(bs: Bytes, i: nat)
    ensures forall k :: i <= k < i + NumberRun(bs, i) ==> k < |bs| && IsNumericSymbol(bs[k])
    decreases |bs| - i
  {
    if i < |bs| && IsNumericSymbol(bs[i]) {
      var n := NumberRun(bs, i + 1);
      assert NumberRun(bs, i) == 1 + n;
      NumberRunIsNumeric(bs, i + 1);
      forall k | i <= k < i + 1 + n
        ensures k < |bs| && IsNumericSymbol(bs[k])
      {
        if k > i {
          assert i + 1 <= k < i + 1 + NumberRun(bs, i + 1);
        }
      }
    } else {
      assert NumberRun(bs, i) == 0;
    }
  }

  /** ReadUtf8NumberInternal: the raw numeric span after whitespace. */
  function NumberInternal(bs: Bytes, p: nat): (r: Result<Read<Bytes>>)
    ensures r.Ok? ==> var q := SkipWs(bs, p);
      r.value.next == q + |r.value.value| <= |bs| && r.value.value == bs[q..r.value.next]
      && |r.value.value| > 0
    ensures r.Err? ==> r.error == EndOfData
  {
    var q := SkipWs(bs, p);
    var n := NumberRun(bs, q);
    if n > 0 then Ok(Read(bs[q..q + n], q + n)) else Err(EndOfData)
  }

  // ---------------------------------------------------------------------
  // String end finder

  /** Outcome of TryFindEndOfUtf8String. ReadPastEnd is the read of the
      byte after a backslash that is the last byte of the buffer. */
  datatype StringScan =
    | Terminated(consumed: nat, escapedCharsSize: nat)
    | Unterminated
    | ReadPastEnd

  /** The finder's loop from index i, having counted esc so far. */
  function ScanFrom(bs: Bytes, p: nat, i: nat, esc: nat): (r: StringScan)
    requires p <= i
    ensures r.Terminated? ==> i <= p + r.consumed < |bs| && bs[p + r.consumed] == Quote
    decreases |bs| - i
  {
    if i >= |bs| then Unterminated
    else if bs[i] == Backslash then
      if i + 1 >= |bs| then ReadPastEnd
      else if IsUnicodeMarker(bs[i + 1]) then ScanFrom(bs, p, i + 6, esc + 5)
      else ScanFrom(bs, p, i + 2, esc + 1)
    else if bs[i] == Quote then Terminated(i - p, esc)
    else ScanFrom(bs, p, i + 1, esc)
  }

  function FindStringEnd(bs: Bytes, p: nat): StringScan {
    ScanFrom(bs, p, p, 0)
  }

  /** The bytes of a string literal between its quotes: verbatim bytes
      other than `"` and `\`, two-byte escapes, and `\u`/`\U` followed by
      four bytes. */
  predicate Body(s: Bytes)
    decreases |s|
  {
    || |s| == 0
    || (s[0] != Quote && s[0] != Backslash && Body(s[1..]))
    || (|s| >= 2 && s[0] == Backslash && !IsUnicodeMarker(s[1]) && Body(s[2..]))
    || (|s| >= 6 && s[0] == Backslash && IsUnicodeMarker(s[1]) && Body(s[6..]))
  }

  /** The number of bytes saved by unescaping: 1 per two-byte escape,
      5 per six-byte `\u` escape. */
  function EscapeSize(s: Bytes): (n: nat)
    requires Body(s)
    ensures n <= |s|
    decreases |s|
  {
    if |s| == 0 then 0
    else if s[0] != Backslash then EscapeSize(s[1..])
    else if IsUnicodeMarker(s[1]) then 5 + EscapeSize(s[6..])
    else 1 + EscapeSize(s[2..])
  }

  /** A body followed by a quote is found by the scanner, with the body's
      escape size. */
  lemma {:induction false} ScanFindsBody(bs: Bytes, p: nat, i: nat, j: nat, esc: nat)
    requires p <= i <= j < |bs| && bs[j] == Quote && Body(bs[i..j])
    ensures ScanFrom(bs, p, i, esc) == Terminated(j - p, esc + EscapeSize(bs[i..j]))
    decreases j - i
  {
    var s := bs[i..j];
    if i == j {
    } else if bs[i] != Backslash {
      assert s[1..] == bs[i + 1..j];
      ScanFindsBody(bs, p, i + 1, j, esc);
    } else if IsUnicodeMarker(bs[i + 1]) {
      assert s[6..] == bs[i + 6..j];
      ScanFindsBody(bs, p, i + 6, j, esc + 5);
    } else {
      assert s[2..] == bs[i + 2..j];
      ScanFindsBody(bs, p, i + 2, j, esc + 1);
    }
  }

  /** Conversely, what the scanner finds is a body followed by a quote. */
  lemma {:induction false} ScanFoundIsBody(bs: Bytes, p: nat, i: nat, esc: nat)
    requires p <= i && ScanFrom(bs, p, i, esc).Terminated?
    ensures var r := ScanFrom(bs, p, i, esc);
      Body(bs[i..p + r.consumed]) && r.escapedCharsSize == esc + EscapeSize(bs[i..p + r.consumed])
    decreases |bs| - i
  {
    var r := ScanFrom(bs, p, i, esc);
    var j := p + r.consumed;
    if bs[i] == Quote {
      assert bs[i..j] == [];
    } else {
      var w := if bs[i] != Backslash then 1 else if IsUnicodeMarker(bs[i + 1]) then 6 else 2;
      var e := if w == 1 then 0 else w - 1;
      assert r == ScanFrom(bs, p, i + w, esc + e);
      ScanFoundIsBody(bs, p, i + w, esc + e);
      BodyStep(bs[i..j], w);
      assert bs[i..j][w..] == bs[i + w..j];
    }
  }

  /** One step of a body: a verbatim byte, a two-byte escape or a six-byte
      `\u` escape, and what it adds to the escape size. */
  lemma BodyStep(s: Bytes, w: nat)
    requires 0 < |s| && s[0] != Quote && (s[0] == Backslash ==> |s| >= 2)
    requires w <= |s| && w == (if s[0] != Backslash then 1 else if IsUnicodeMarker(s[1]) then 6 else 2)
    requires Body(s[w..])
    ensures Body(s) && EscapeSize(s) == (if w == 1 then 0 else w - 1) + EscapeSize(s[w..])
  {
  }

  /** TryFindEndOfUtf8String succeeds exactly on a body followed by a
      quote: consumed is the body's length, escapedCharsSize its escape
      size. */
  lemma FindStringEndSpec(bs: Bytes, p: nat, n: nat, e: nat)
    ensures FindStringEnd(bs, p) == Terminated(n, e) <==>
      (p + n < |bs| && bs[p + n] == Quote && Body(bs[p..p + n]) && e == EscapeSize(bs[p..p + n]))
  {
    if FindStringEnd(bs, p) == Terminated(n, e) {
      ScanFoundIsBody(bs, p, p, 0);
    }
    if p + n < |bs| && bs[p + n] == Quote && Body(bs[p..p + n]) {
      ScanFindsBody(bs, p, p, p + n, 0);
    }
  }

  // ---------------------------------------------------------------------
  // Integer readers

  /** Length of the maximal digit run starting at i. */
  function DigitRun(bs: Bytes, i: nat): (n: nat)
    ensures n > 0 ==> i + n <= |bs|
    ensures forall k :: i <= k < i + n ==> k < |bs| && IsDigit(bs[k])
    ensures i + n < |bs| ==> !IsDigit(bs[i + n])
    decreases |bs| - i
  {
    if i < |bs| && IsDigit(bs[i]) then 1 + DigitRun(bs, i + 1) else 0
  }

  predicate AllDigits(ds: Bytes) {
    forall k :: 0 <= k < |ds| ==> IsDigit(ds[k])
  }

  /** The plain decimal value of a digit sequence. */
  function DecimalValue(ds: Bytes): nat
    requires AllDigits(ds)
    decreases |ds|
  {
    if |ds| == 0 then 0 else DecimalValue(ds[..|ds| - 1]) * 10 + DigitValue(ds[|ds| - 1])
  }

  /** Appending digits never makes the value smaller. */
  lemma {:induction false} DecimalValueMonotone(ds: Bytes, k: nat)
    requires AllDigits(ds) && k <= |ds|
    ensures DecimalValue(ds[..k]) <= DecimalValue(ds)
    decreases |ds| - k
  {
    if k < |ds| {
      var ds' := ds[..k + 1];
      assert ds'[..k] == ds[..k];
      assert DecimalValue(ds') == DecimalValue(ds[..k]) * 10 + DigitValue(ds[k]);
      DecimalValueMonotone(ds, k + 1);
    } else {
      assert ds[..k] == ds;
    }
  }

  /** ReadUtf8NumberDigits: the maximal digit run from p, accumulated in a
      checked unsigned 64-bit integer. */
  function NumberDigits(bs: Bytes, p: nat): (r: Result<Read<nat>>)
    requires p < |bs|
    ensures r.Ok? ==> var n := DigitRun(bs, p);
      n > 0 && r.value.next == p + n && r.value.value == DecimalValue(bs[p..p + n])
      && r.value.value <= MaxUInt64
    ensures r.Err? <==> !IsDigit(bs[p]) || DecimalValue(bs[p..p + DigitRun(bs, p)]) > MaxUInt64
    ensures r.Err? ==> r.error == (if IsDigit(bs[p]) then Overflow else InvalidNumberFormat)
  {
    if !IsDigit(bs[p]) then Err(InvalidNumberFormat)
    else
      var n := DigitRun(bs, p);
      var v := DecimalValue(bs[p..p + n]);
      if v > MaxUInt64 then Err(Overflow) else Ok(Read(v, p + n))
  }

  /** ReadUtf8NumberUInt64. */
  function NumberUInt64(bs: Bytes, p: nat): Result<Read<nat>> {
    var q := SkipWs(bs, p);
    if q >= |bs| then Err(EndOfData) else NumberDigits(bs, q)
  }

  /** The unchecked `(long)` cast of an unsigned 64-bit value. */
  function ULongToLong(v: nat): (r: int)
    requires v <= MaxUInt64
    ensures -TwoTo63 <= r < TwoTo63
    ensures r == v || r == v - TwoTo64
  {
    if v < TwoTo63 then v else v - TwoTo64
  }

  /** The unchecked 64-bit negation: -long.MinValue wraps to itself. */
  function NegateLong(x: int): (r: int)
    requires -TwoTo63 <= x < TwoTo63
    ensures -TwoTo63 <= r < TwoTo63
    ensures r == -x || (x == -TwoTo63 && r == x)
  {
    if x == -TwoTo63 then x else -x
  }

  /** ReadUtf8NumberInt64, with the source's unchecked cast and negation. */
  function NumberInt64(bs: Bytes, p: nat): (r: Result<Read<int>>)
    ensures r.Ok? ==> -TwoTo63 <= r.value.value < TwoTo63
  {
    var q := SkipWs(bs, p);
    if q >= |bs| then Err(EndOfData)
    else if bs[q] == Minus then
      if q + 1 >= |bs| then Err(EndOfData)
      else match NumberDigits(bs, q + 1)
        case Err(e) => Err(e)
        case Ok(Read(v, next)) => Ok(Read(NegateLong(ULongToLong(v)), next))
    else match NumberDigits(bs, q)
      case Err(e) => Err(e)
      case Ok(Read(v, next)) => Ok(Read(ULongToLong(v), next))
  }

  /** The shortest decimal text of n (the writer's form of an unsigned
      integer), used to state the readers' round trips. */
  function DecimalText(n: nat): (r: Bytes)
    ensures |r| > 0 && AllDigits(r) && DecimalValue(r) == n
  {
    var d := (n % 10) as byte + Zero;
    if n < 10 then
      assert [d][..0] == [];
      [d]
    else
      var r := DecimalText(n / 10) + [d];
      assert r[..|r| - 1] == DecimalText(n / 10);
      r
  }

  /** DigitRun measures a run of digits ended by the buffer's end or a
      non-digit. */
  lemma {:induction false} DigitRunOfRun(bs: Bytes, i: nat, n: nat)
    requires i + n <= |bs| && AllDigits(bs[i..i + n])
    requires i + n == |bs| || !IsDigit(bs[i + n])
    ensures DigitRun(bs, i) == n
    decreases n
  {
    if n > 0 {
      assert bs[i] == bs[i..i + n][0];
      assert bs[i + 1..i + n] == bs[i..i + n][1..];
      DigitRunOfRun(bs, i + 1, n - 1);
    }
  }

  /** The digit reader on the decimal text of n placed at i. */
  lemma NumberDigitsAt(bs: Bytes, i: nat, n: nat)
    requires var t := DecimalText(n);
      i + |t| <= |bs| && bs[i..i + |t|] == t && (i + |t| == |bs| || !IsDigit(bs[i + |t|]))
    ensures var t := DecimalText(n);
      IsDigit(bs[i]) &&
      NumberDigits(bs, i) == if n <= MaxUInt64 then Ok(Read(n, i + |t|)) else Err(Overflow)
  {
    var t := DecimalText(n);
    assert bs[i] == t[0];
    DigitRunOfRun(bs, i, |t|);
    assert bs[i..i + DigitRun(bs, i)] == t;
    assert DecimalValue(bs[i..i + DigitRun(bs, i)]) == n;
  }

  /** ReadUtf8NumberUInt64 reads back the decimal text of n, stopping
      at the first non-digit, and overflows exactly above 2^64 - 1. */
  lemma UInt64RoundTrip(n: nat, rest: Bytes)
    requires |rest| == 0 || !IsDigit(rest[0])
    ensures var t := DecimalText(n);
      NumberUInt64(t + rest, 0) == if n <= MaxUInt64 then Ok(Read(n, |t|)) else Err(Overflow)
  {
    var t := DecimalText(n);
    var bs := t + rest;
    assert bs[0] == t[0];
    assert bs[0..|t|] == t;
    DigitRunOfRun(bs, 0, |t|);
  }

  /** Decimal text of a signed integer, with a leading minus sign. */
  function SignedText(x: int): (r: Bytes)
    ensures |r| > 0
  {
    if x < 0 then [Minus] + DecimalText(-x) else DecimalText(x)
  }

  /** As written, the unchecked cast turns the text of every value in
      [2^63, 2^64) into a negative number: "9223372036854775808" reads as
      -2^63. */
  lemma Int64WrapsAboveMax(n: nat, rest: Bytes)
    requires TwoTo63 <= n <= MaxUInt64
    requires |rest| == 0 || !IsDigit(rest[0])
    ensures NumberInt64(DecimalText(n) + rest, 0) == Ok(Read(n - TwoTo64, |DecimalText(n)|))
  {
    var t := DecimalText(n);
    var bs := t + rest;
    assert bs[0..|t|] == t;
    if |rest| > 0 { assert bs[|t|] == rest[0]; }
    NumberDigitsAt(bs, 0, n);
    assert SkipWs(bs, 0) == 0;
  }

  /** ReadUtf8NumberInt64 with the range check the cast evidently lacks:
      a magnitude outside the 64-bit signed range is an overflow. */
  function NumberInt64Checked(bs: Bytes, p: nat): (r: Result<Read<int>>)
    ensures r.Ok? ==> -TwoTo63 <= r.value.value < TwoTo63
  {
    var q := SkipWs(bs, p);
    if q >= |bs| then Err(EndOfData)
    else if bs[q] == Minus then
      if q + 1 >= |bs| then Err(EndOfData)
      else match NumberDigits(bs, q + 1)
        case Err(e) => Err(e)
        case Ok(Read(v, next)) => if v > TwoTo63 then Err(Overflow) else Ok(Read(-(v as int), next))
    else match NumberDigits(bs, q)
      case Err(e) => Err(e)
      case Ok(Read(v, next)) => if v >= TwoTo63 then Err(Overflow) else Ok(Read(v, next))
  }

  /** The checked reader reads back the text of every integer inside the
      signed 64-bit range and reports Overflow for every one outside it. */
  lemma Int64CheckedRoundTrip(x: int, rest: Bytes)
    requires |rest| == 0 || !IsDigit(rest[0])
    ensures -TwoTo63 <= x < TwoTo63 ==>
      NumberInt64Checked(SignedText(x) + rest, 0) == Ok(Read(x, |SignedText(x)|))
    ensures !(-TwoTo63 <= x < TwoTo63) ==> NumberInt64Checked(SignedText(x) + rest, 0) == Err(Overflow)
  {
    if x < 0 {
      CheckedNegative(-x, rest);
    } else {
      CheckedNonNegative(x, rest);
    }
  }

  lemma CheckedNegative(n: nat, rest: Bytes)
    requires n > 0 && (|rest| == 0 || !IsDigit(rest[0]))
    ensures NumberInt64Checked([Minus] + DecimalText(n) + rest, 0) ==
      if n <= TwoTo63 then Ok(Read(-(n as int), 1 + |DecimalText(n)|)) else Err(Overflow)
  {
    var t := DecimalText(n);
    var bs := [Minus] + t + rest;
    assert bs[1..1 + |t|] == t;
    if |rest| > 0 { assert bs[1 + |t|] == rest[0]; }
    NumberDigitsAt(bs, 1, n);
    assert bs[0] == Minus && SkipWs(bs, 0) == 0;
  }

  lemma CheckedNonNegative(n: nat, rest: Bytes)
    requires |rest| == 0 || !IsDigit(rest[0])
    ensures NumberInt64Checked(DecimalText(n) + rest, 0) ==
      if n < TwoTo63 then Ok(Read(n, |DecimalText(n)|)) else Err(Overflow)
  {
    var t := DecimalText(n);
    var bs := t + rest;
    assert bs[0..|t|] == t;
    if |rest| > 0 { assert bs[|t|] == rest[0]; }
    NumberDigitsAt(bs, 0, n);
    assert SkipWs(bs, 0) == 0;
  }

  /** The correction only turns wrapped results into errors: wherever the
      checked reader succeeds, the reader as written agrees with it. */
  lemma Int64CheckedAgrees(bs: Bytes, p: nat)
    ensures NumberInt64Checked(bs, p).Ok? ==> NumberInt64(bs, p) == NumberInt64Checked(bs, p)
  {
  }

  /** ReadUtf8NumberInt64 reads back the text of every 64-bit signed
      value. */
  lemma Int64RoundTrip(x: int, rest: Bytes)
    requires -TwoTo63 <= x < TwoTo63
    requires |rest| == 0 || !IsDigit(rest[0])
    ensures NumberInt64(SignedText(x) + rest, 0) == Ok(Read(x, |SignedText(x)|))
  {
    Int64CheckedRoundTrip(x, rest);
    Int64CheckedAgrees(SignedText(x) + rest, 0);
  }

  /** The integer widths the narrowing readers cast to. */
  datatype Width = W8 | W16 | W32 | W64 {
    /** 2 to the power of the width. */
    function Modulus(): (m: nat)
      ensures m >= 0x100 && m % 2 == 0
    {
      match this
      case W8 => 0x100
      case W16 => 0x1_0000
      case W32 => 0x1_0000_0000
      case W64 => TwoTo64
    }

    /** The bound of the signed range: -Half() <= x < Half(). */
    function Half(): (h: nat)
      ensures 2 * h == Modulus() && h <= TwoTo63
    {
      Modulus() / 2
    }
  }

  /** An unchecked narrowing cast to an unsigned integer of the given
      width: the low bits. */
  function WrapUnsigned(x: int, w: Width): (r: int)
    ensures 0 <= r < w.Modulus()
    ensures 0 <= x < w.Modulus() ==> r == x
    ensures (x - r) % w.Modulus() == 0
  {
    var m := w.Modulus();
    assert x - x % m == (x / m) * m;
    MultipleMod(x / m, m);
    x % m
  }

  /** A multiple of m leaves no remainder. */
  lemma {:induction false} MultipleMod(k: int, m: int)
    requires m > 0
    ensures (k * m) % m == 0
  {
    var q, r := (k * m) / m, (k * m) % m;
    assert k * m == q * m + r;
    assert (k - q) * m == r;
    MultipleBounds(k - q, m);
  }

  /** A nonzero multiple of m is at least m away from zero. */
  lemma MultipleBounds(d: int, m: int)
    requires m > 0
    ensures d >= 1 ==> d * m >= m
    ensures d <= -1 ==> d * m <= -m
  {
    if d >= 1 {
      assert d * m == (d - 1) * m + m;
    }
    if d <= -1 {
      assert d * m == (d + 1) * m - m;
    }
  }

  /** An unchecked narrowing cast to a signed integer of the given width:
      the same low bits, read as two's complement. */
  function WrapSigned(x: int, w: Width): (r: int)
    ensures -(w.Half() as int) <= r < w.Half()
    ensures WrapUnsigned(r, w) == WrapUnsigned(x, w)
    ensures -(w.Half() as int) <= x < w.Half() ==> r == x
  {
    var m := w.Modulus();
    var u := WrapUnsigned(x, w);
    NegativeMod(u - m, m);
    NegativeMod(x, m);
    if u < w.Half() then u else u - m
  }

  lemma NegativeMod(a: int, m: int)
    requires m > 0
    ensures -m <= a < 0 ==> a % m == a + m
  {
    if -m <= a < 0 {
      var k := a / m;
      assert a == m * k + a % m;
    }
  }

  /** ReadUtf8SByte, ReadUtf8Int16, ReadUtf8Int32 and ReadUtf8Int64: the
      Int64 reader's result, cast unchecked to the width. */
  function NumberSigned(bs: Bytes, p: nat, w: Width): (r: Result<Read<int>>)
    ensures r.Ok? ==> -(w.Half() as int) <= r.value.value < w.Half()
  {
    match NumberInt64(bs, p)
    case Err(e) => Err(e)
    case Ok(Read(x, n)) => Ok(Read(WrapSigned(x, w), n))
  }

  /** ReadUtf8Byte, ReadUtf8UInt16, ReadUtf8UInt32 and ReadUtf8UInt64: the
      UInt64 reader's result, cast unchecked to the width. */
  function NumberUnsigned(bs: Bytes, p: nat, w: Width): (r: Result<Read<int>>)
    ensures r.Ok? ==> 0 <= r.value.value < w.Modulus()
  {
    match NumberUInt64(bs, p)
    case Err(e) => Err(e)
    case Ok(Read(v, n)) => Ok(Read(WrapUnsigned(v, w), n))
  }

  /** At 64 bits the casts change nothing. */
  lemma WidestCastsAreIdentities(bs: Bytes, p: nat)
    ensures NumberSigned(bs, p, W64) == NumberInt64(bs, p)
    ensures NumberUnsigned(bs, p, W64) == NumberUInt64(bs, p)
  {
  }

  /** Every signed reader reads back the text of each value of its
      width. */
  lemma SignedRoundTrip(x: int, rest: Bytes, w: Width)
    requires -(w.Half() as int) <= x < w.Half()
    requires |rest| == 0 || !IsDigit(rest[0])
    ensures NumberSigned(SignedText(x) + rest, 0, w) == Ok(Read(x, |SignedText(x)|))
  {
    Int64RoundTrip(x, rest);
  }

  /** Every unsigned reader reads back the text of each value of its
      width. */
  lemma UnsignedRoundTrip(n: nat, rest: Bytes, w: Width)
    requires n < w.Modulus()
    requires |rest| == 0 || !IsDigit(rest[0])
    ensures NumberUnsigned(DecimalText(n) + rest, 0, w) == Ok(Read(n, |DecimalText(n)|))
  {
    UInt64RoundTrip(n, rest);
  }

  /** Outside its width a signed reader keeps the low bits of what the
      Int64 reader reads: the text of x reads as x wrapped. */
  lemma SignedNarrowing(x: int, rest: Bytes, w: Width)
    requires -TwoTo63 <= x < TwoTo63
    requires |rest| == 0 || !IsDigit(rest[0])
    ensures NumberSigned(SignedText(x) + rest, 0, w) == Ok(Read(WrapSigned(x, w), |SignedText(x)|))
  {
    Int64RoundTrip(x, rest);
  }

  /** Outside its width an unsigned reader keeps the low bits of what the
      UInt64 reader reads. */
  lemma UnsignedNarrowing(n: nat, rest: Bytes, w: Width)
    requires n <= MaxUInt64
    requires |rest| == 0 || !IsDigit(rest[0])
    ensures NumberUnsigned(DecimalText(n) + rest, 0, w) == Ok(Read(WrapUnsigned(n, w), |DecimalText(n)|))
  {
    UInt64RoundTrip(n, rest);
  }

  /** The casts wrap: 128 as an sbyte is -128, 256 as a byte is 0, 2^31
      as an int is -2^31. */
  lemma NarrowingWraps()
    ensures WrapSigned(128, W8) == -128
    ensures WrapUnsigned(256, W8) == 0
    ensures WrapSigned(0x8000_0000, W32) == -0x8000_0000
  {
  }

  // ---------------------------------------------------------------------
  // Literals

  /** Compares bs[q + k ..] with lit[k ..], reading one byte at a time: a
      byte past the end is OutOfRange, a different byte InvalidSymbol. */
  function ExpectTail(bs: Bytes, q: nat, lit: Bytes, k: nat): (r: Check)
    requires k <= |lit|
    ensures r == Pass || r == Fail(OutOfRange) || r == Fail(InvalidSymbol)
    ensures r == Pass && k < |lit| ==> q + |lit| <= |bs|
    decreases |lit| - k
  {
    if k == |lit| then Pass
    else if q + k >= |bs| then Fail(OutOfRange)
    else if bs[q + k] != lit[k] then Fail(InvalidSymbol)
    else ExpectTail(bs, q, lit, k + 1)
  }

  lemma {:induction false} ExpectTailPasses(bs: Bytes, q: nat, lit: Bytes, k: nat)
    requires k <= |lit|
    ensures ExpectTail(bs, q, lit, k) == Pass <==>
      k == |lit| || (q + |lit| <= |bs| && bs[q + k..q + |lit|] == lit[k..])
    decreases |lit| - k
  {
    if k < |lit| {
      ExpectTailPasses(bs, q, lit, k + 1);
      if q + |lit| <= |bs| {
        assert bs[q + k..q + |lit|] == [bs[q + k]] + bs[q + k + 1..q + |lit|];
        assert lit[k..] == [lit[k]] + lit[k + 1..];
      }
    }
  }

  /** The literal test passes iff the whole literal is in the buffer at q. */
  lemma LiteralMatch(bs: Bytes, q: nat, lit: Bytes)
    requires |lit| > 0 && q < |bs| && bs[q] == lit[0]
    ensures ExpectTail(bs, q, lit, 1) == Pass <==> q + |lit| <= |bs| && bs[q..q + |lit|] == lit
  {
    ExpectTailPasses(bs, q, lit, 1);
    if q + |lit| <= |bs| {
      assert bs[q..q + |lit|] == [bs[q]] + bs[q + 1..q + |lit|];
      assert lit == [lit[0]] + lit[1..];
    }
  }

  /** ReadUtf8Boolean (no length checks on the lookahead in the source:
      a lookahead past the end is OutOfRange here). */
  function Boolean(bs: Bytes, p: nat): (r: Result<Read<bool>>)
    ensures r.Ok? ==> SkipWs(bs, p) < r.value.next <= |bs|
  {
    var q := SkipWs(bs, p);
    if q >= |bs| then Err(OutOfRange)
    else if bs[q] == LowerT then
      match ExpectTail(bs, q, TrueLiteral, 1)
      case Pass => Ok(Read(true, q + 4))
      case Fail(e) => Err(e)
    else if bs[q] == LowerF then
      match ExpectTail(bs, q, FalseLiteral, 1)
      case Pass => Ok(Read(false, q + 5))
      case Fail(e) => Err(e)
    else Err(InvalidSymbol)
  }

  /** ReadUtf8IsNull: true and four bytes on `null`, false without
      consuming anything but whitespace when the next byte is not `n`. */
  function IsNull(bs: Bytes, p: nat): (r: Result<Read<bool>>)
    ensures r.Ok? && !r.value.value ==> r.value.next == SkipWs(bs, p)
    ensures r.Ok? && r.value.value ==> r.value.next == SkipWs(bs, p) + 4 <= |bs|
  {
    var q := SkipWs(bs, p);
    if q < |bs| && bs[q] == LowerN then
      match ExpectTail(bs, q, NullLiteral, 1)
      case Pass => Ok(Read(true, q + 4))
      case Fail(e) => Err(e)
    else Ok(Read(false, q))
  }

  /** ReadUtf8Null. */
  function ReadNull(bs: Bytes, p: nat): Result<nat> {
    match IsNull(bs, p)
    case Err(e) => Err(e)
    case Ok(Read(isNull, q)) => if isNull then Ok(q) else Err(InvalidSymbol)
  }

  /** ReadUtf8Boolean accepts exactly `true` and `false`. */
  lemma BooleanExact(bs: Bytes, p: nat, b: bool, next: nat)
    ensures var q := SkipWs(bs, p);
      Boolean(bs, p) == Ok(Read(b, next)) <==>
        (b && next == q + 4 <= |bs| && bs[q..next] == TrueLiteral) ||
        (!b && next == q + 5 <= |bs| && bs[q..next] == FalseLiteral)
  {
    var q := SkipWs(bs, p);
    if q < |bs| && bs[q] == LowerT { LiteralMatch(bs, q, TrueLiteral); }
    if q < |bs| && bs[q] == LowerF { LiteralMatch(bs, q, FalseLiteral); }
    if q + 4 <= |bs| && bs[q..q + 4] == TrueLiteral { assert bs[q] == bs[q..q + 4][0]; }
    if q + 5 <= |bs| && bs[q..q + 5] == FalseLiteral { assert bs[q] == bs[q..q + 5][0]; }
  }

  /** A first byte other than `t` or `f` is InvalidSymbol. */
  lemma BooleanOtherByte(bs: Bytes, p: nat)
    requires var q := SkipWs(bs, p); q < |bs| && bs[q] != LowerT && bs[q] != LowerF
    ensures Boolean(bs, p) == Err(InvalidSymbol)
  {
  }

  /** ReadUtf8IsNull: true exactly on `null`, false exactly when the first
      non-whitespace byte is not `n`, InvalidSymbol on `n` followed by a
      different byte. */
  lemma IsNullExact(bs: Bytes, p: nat)
    ensures var q := SkipWs(bs, p);
      && (IsNull(bs, p) == Ok(Read(true, q + 4)) <==> q + 4 <= |bs| && bs[q..q + 4] == NullLiteral)
      && (IsNull(bs, p) == Ok(Read(false, q)) <==> q >= |bs| || bs[q] != LowerN)
      && (q + 4 <= |bs| && bs[q] == LowerN && bs[q..q + 4] != NullLiteral ==>
            IsNull(bs, p) == Err(InvalidSymbol))
  {
    var q := SkipWs(bs, p);
    if q < |bs| && bs[q] == LowerN {
      LiteralMatch(bs, q, NullLiteral);
      ExpectTailPasses(bs, q, NullLiteral, 1);
      if q + 4 <= |bs| && bs[q..q + 4] != NullLiteral {
        ExpectTailFails(bs, q, NullLiteral, 1);
      }
    }
    if q + 4 <= |bs| && bs[q..q + 4] == NullLiteral { assert bs[q] == bs[q..q + 4][0]; }
  }

  /** With the whole literal's length available, a failed test is a
      mismatch, never a read past the end. */
  lemma {:induction false} ExpectTailFails(bs: Bytes, q: nat, lit: Bytes, k: nat)
    requires k <= |lit| && q + |lit| <= |bs|
    ensures ExpectTail(bs, q, lit, k) != Fail(OutOfRange)
    decreases |lit| - k
  {
    if k < |lit| && bs[q + k] == lit[k] {
      ExpectTailFails(bs, q, lit, k + 1);
    }
  }

  // ---------------------------------------------------------------------
  // Begin/end tokens and the separator protocol

  /** ReadUtf8BeginArray. */
  function IsBeginArray(bs: Bytes, p: nat): Read<bool> {
    var q := SkipWs(bs, p);
    if q < |bs| && bs[q] == LeftBracket then Read(true, q + 1) else Read(false, q)
  }

  /** ReadUtf8IsBeginObject: the peek at the byte is unchecked. */
  function IsBeginObject(bs: Bytes, p: nat): Result<Read<bool>> {
    var q := SkipWs(bs, p);
    if q >= |bs| then Err(OutOfRange)
    else if bs[q] == LeftBrace then Ok(Read(true, q + 1)) else Ok(Read(false, q))
  }

  /** ReadUtf8IsEndObject: the peek at the byte is unchecked. */
  function IsEndObject(bs: Bytes, p: nat): Result<Read<bool>> {
    var q := SkipWs(bs, p);
    if q >= |bs| then Err(OutOfRange)
    else if bs[q] == RightBrace then Ok(Read(true, q + 1)) else Ok(Read(false, q))
  }

  /** TryReadUtf8IsEndArrayOrValueSeparator: the value is (is the end,
      the updated count). */
  function EndArrayOrSeparator(bs: Bytes, p: nat, count: nat): (r: Result<Read<(bool, nat)>>)
    ensures r.Ok? ==> SkipWs(bs, p) <= r.value.next && (r.value.next <= |bs| || r.value.next == SkipWs(bs, p))
  {
    var q := SkipWs(bs, p);
    if q < |bs| && bs[q] == RightBracket then Ok(Read((true, count), q + 1))
    else if count > 0 then
      if q < |bs| && bs[q] == Comma then Ok(Read((false, count + 1), q + 1))
      else Err(ExpectedSeparator)
    else Ok(Read((false, count + 1), q))
  }

  /** TryReadUtf8IsEndObjectOrValueSeparator: as for arrays, but the
      separator peek is unchecked. */
  function EndObjectOrSeparator(bs: Bytes, p: nat, count: nat): (r: Result<Read<(bool, nat)>>)
    ensures r.Ok? ==> SkipWs(bs, p) <= r.value.next && (r.value.next <= |bs| || r.value.next == SkipWs(bs, p))
  {
    var q := SkipWs(bs, p);
    if q < |bs| && bs[q] == RightBrace then Ok(Read((true, count), q + 1))
    else if count > 0 then
      if q >= |bs| then Err(OutOfRange)
      else if bs[q] == Comma then Ok(Read((false, count + 1), q + 1))
      else Err(ExpectedSeparator)
    else Ok(Read((false, count + 1), q))
  }

  /** ReadUtf8BeginArrayOrThrow. */
  function BeginArrayOrThrow(bs: Bytes, p: nat): (r: Result<nat>)
    ensures var q := SkipWs(bs, p); r.Ok? <==> q < |bs| && bs[q] == LeftBracket
    ensures r.Ok? ==> r.value == SkipWs(bs, p) + 1
    ensures r.Err? ==> r.error == ExpectedBeginArray
  {
    var b := IsBeginArray(bs, p);
    if b.value then Ok(b.next) else Err(ExpectedBeginArray)
  }

  /** ReadUtf8BeginObjectOrThrow. */
  function BeginObjectOrThrow(bs: Bytes, p: nat): (r: Result<nat>)
    ensures var q := SkipWs(bs, p); r.Ok? <==> q < |bs| && bs[q] == LeftBrace
    ensures r.Ok? ==> r.value == SkipWs(bs, p) + 1
    ensures r.Err? ==> r.error == if SkipWs(bs, p) < |bs| then ExpectedBeginObject else OutOfRange
  {
    match IsBeginObject(bs, p)
    case Err(e) => Err(e)
    case Ok(Read(b, n)) => if b then Ok(n) else Err(ExpectedBeginObject)
  }

  /** ReadUtf8EndObjectOrThrow. */
  function EndObjectOrThrow(bs: Bytes, p: nat): (r: Result<nat>)
    ensures var q := SkipWs(bs, p); r.Ok? <==> q < |bs| && bs[q] == RightBrace
    ensures r.Ok? ==> r.value == SkipWs(bs, p) + 1
    ensures r.Err? ==> r.error == if SkipWs(bs, p) < |bs| then ExpectedEndObject else OutOfRange
  {
    match IsEndObject(bs, p)
    case Err(e) => Err(e)
    case Ok(Read(b, n)) => if b then Ok(n) else Err(ExpectedEndObject)
  }

  /** The separator protocol: a closing byte ends the sequence and is
      consumed; otherwise the first call consumes nothing, every later call
      consumes a comma or fails with ExpectedSeparator, and the count goes
      up by one on every call that does not close. */
  lemma SeparatorProtocol(bs: Bytes, p: nat, count: nat)
    ensures var q := SkipWs(bs, p); var r := EndArrayOrSeparator(bs, p, count);
      && (q < |bs| && bs[q] == RightBracket ==> r == Ok(Read((true, count), q + 1)))
      && (!(q < |bs| && bs[q] == RightBracket) && count == 0 ==> r == Ok(Read((false, 1), q)))
      && (!(q < |bs| && bs[q] == RightBracket) && count > 0 ==>
            r == (if q < |bs| && bs[q] == Comma then Ok(Read((false, count + 1), q + 1))
                  else Err(ExpectedSeparator)))
  {
  }

  /** The object separator protocol is the array one with `}` for `]`,
      except that the separator peek past the end is OutOfRange. */
  lemma ObjectSeparatorProtocol(bs: Bytes, p: nat, count: nat)
    ensures var q := SkipWs(bs, p); var r := EndObjectOrSeparator(bs, p, count);
      && (q < |bs| && bs[q] == RightBrace ==> r == Ok(Read((true, count), q + 1)))
      && (!(q < |bs| && bs[q] == RightBrace) && count == 0 ==> r == Ok(Read((false, 1), q)))
      && (!(q < |bs| && bs[q] == RightBrace) && count > 0 ==>
            r == (if q >= |bs| then Err(OutOfRange)
                  else if bs[q] == Comma then Ok(Read((false, count + 1), q + 1))
                  else Err(ExpectedSeparator)))
  {
  }
}
