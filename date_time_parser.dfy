/** The ISO-8601 date-time parser of the helpers: a fixed-position grammar
    `YYYY-MM-DDThh:mm:ss`, an optional `.fraction` and an optional `Z` or
    `+hh:mm`/`-hh:mm`, without backtracking. The grammar is specified by
    pure functions; TryParseIso8601 is the step-by-step parser with its
    cursor and fraction loop, proved to compute them. */
module DateTimeParser {

  datatype Option<+T> = None | Some(value: T)

  /** DateTimeKind; Unspecified is its default value. */
  datatype Kind = Unspecified | Utc | Local

  predicate IsDigitChar(c: char) {
    '0' <= c <= '9'
  }

  function Val(c: char): nat
    requires IsDigitChar(c)
  {
    c as int - '0' as int
  }

  predicate AllDigits(ds: string) {
    forall k :: 0 <= k < |ds| ==> IsDigitChar(ds[k])
  }

  /** The plain decimal value of a digit string, accumulated left to
      right as value * 10 + digit. */
  function DecimalOf(ds: string): nat
    requires AllDigits(ds)
    decreases |ds|
  {
    if |ds| == 0 then 0 else DecimalOf(ds[..|ds| - 1]) * 10 + Val(ds[|ds| - 1])
  }

  // ---------------------------------------------------------------------
  // The fixed part

  datatype Fields = Fields(year: nat, month: nat, day: nat, hour: nat, minute: nat, second: nat)

  /** Two digits at i and i + 1. */
  function Two(s: string, i: nat): (r: Option<nat>)
    requires i + 2 <= |s|
    ensures r.Some? ==> r.value < 100
  {
    if IsDigitChar(s[i]) && IsDigitChar(s[i + 1]) then Some(Val(s[i]) * 10 + Val(s[i + 1])) else None
  }

  /** Four digits at i .. i + 3. */
  function Four(s: string, i: nat): (r: Option<nat>)
    requires i + 4 <= |s|
    ensures r.Some? ==> r.value < 10000
  {
    if IsDigitChar(s[i]) && IsDigitChar(s[i + 1]) && IsDigitChar(s[i + 2]) && IsDigitChar(s[i + 3])
    then Some(Val(s[i]) * 1000 + Val(s[i + 1]) * 100 + Val(s[i + 2]) * 10 + Val(s[i + 3]))
    else None
  }

  /** Year, `-`, month, `-`, day, `T`, hour, `:`, minute, `:`, second,
      checked in this order; any mismatch fails the parse. */
  function FixedFields(s: string): Option<Fields>
    requires |s| >= 19
  {
    var year := Four(s, 0);
    if year.None? || s[4] != '-' then None
    else
      var month := Two(s, 5);
      if month.None? || s[7] != '-' then None
      else
        var day := Two(s, 8);
        if day.None? || s[10] != 'T' then None
        else
          var hour := Two(s, 11);
          if hour.None? || s[13] != ':' then None
          else
            var minute := Two(s, 14);
            if minute.None? || s[16] != ':' then None
            else
              var second := Two(s, 17);
              if second.None? then None
              else Some(Fields(year.value, month.value, day.value, hour.value, minute.value, second.value))
  }

  /** Reference layout of the fixed part: `d` stands for any ASCII digit. */
  const Template: string := "dddd-dd-ddTdd:dd:dd"

  predicate MatchesTemplate(s: string)
    requires |s| >= 19
  {
    forall i :: 0 <= i < 19 ==> if Template[i] == 'd' then IsDigitChar(s[i]) else s[i] == Template[i]
  }

  lemma TwoDigits(ds: string)
    requires |ds| == 2 && AllDigits(ds)
    ensures DecimalOf(ds) == Val(ds[0]) * 10 + Val(ds[1])
  {
    var one := ds[..1];
    assert one[..0] == [] && one[0] == ds[0];
    assert DecimalOf(one) == Val(ds[0]);
  }

  lemma FourDigits(ds: string)
    requires |ds| == 4 && AllDigits(ds)
    ensures DecimalOf(ds) == Val(ds[0]) * 1000 + Val(ds[1]) * 100 + Val(ds[2]) * 10 + Val(ds[3])
  {
    var two, three := ds[..2], ds[..3];
    TwoDigits(two);
    assert three[..2] == two && three[2] == ds[2];
    assert DecimalOf(three) == DecimalOf(two) * 10 + Val(ds[2]);
    assert ds[..3] == three;
  }

  /** The fixed part is accepted exactly when it follows the template. */
  lemma FixedFieldsAcceptTemplate(s: string)
    requires |s| >= 19
    ensures FixedFields(s).Some? <==> MatchesTemplate(s)
  {
    if FixedFields(s).Some? {
      forall i | 0 <= i < 19
        ensures if Template[i] == 'd' then IsDigitChar(s[i]) else s[i] == Template[i]
      {
      }
    }
    if MatchesTemplate(s) {
      assert Template[0] == 'd' && Template[1] == 'd' && Template[2] == 'd' && Template[3] == 'd';
      assert IsDigitChar(s[0]) && IsDigitChar(s[1]) && IsDigitChar(s[2]) && IsDigitChar(s[3]);
      assert s[4] == Template[4] && s[7] == Template[7] && s[10] == Template[10];
      assert s[13] == Template[13] && s[16] == Template[16];
      assert Template[5] == 'd' && Template[6] == 'd' && Template[8] == 'd' && Template[9] == 'd';
      assert IsDigitChar(s[5]) && IsDigitChar(s[6]) && IsDigitChar(s[8]) && IsDigitChar(s[9]);
      assert Template[11] == 'd' && Template[12] == 'd' && Template[14] == 'd' && Template[15] == 'd';
      assert IsDigitChar(s[11]) && IsDigitChar(s[12]) && IsDigitChar(s[14]) && IsDigitChar(s[15]);
      assert Template[17] == 'd' && Template[18] == 'd';
      assert IsDigitChar(s[17]) && IsDigitChar(s[18]);
    }
  }

  /** The six fields are the plain decimal values of their digit groups. */
  lemma FixedFieldValues(s: string, f: Fields)
    requires |s| >= 19 && FixedFields(s) == Some(f)
    ensures AllDigits(s[0..4]) && f.year == DecimalOf(s[0..4])
    ensures AllDigits(s[5..7]) && f.month == DecimalOf(s[5..7])
    ensures AllDigits(s[8..10]) && f.day == DecimalOf(s[8..10])
    ensures AllDigits(s[11..13]) && f.hour == DecimalOf(s[11..13])
    ensures AllDigits(s[14..16]) && f.minute == DecimalOf(s[14..16])
    ensures AllDigits(s[17..19]) && f.second == DecimalOf(s[17..19])
  {
    FourDigits(s[0..4]);
    TwoDigits(s[5..7]);
    TwoDigits(s[8..10]);
    TwoDigits(s[11..13]);
    TwoDigits(s[14..16]);
    TwoDigits(s[17..19]);
  }

  // ---------------------------------------------------------------------
  // The fraction

  function Min(a: int, b: int): int {
    if a <= b then a else b
  }

  /** How many digits the fraction loop takes from i, at most max. */
  function DigitRun(s: string, i: nat, max: nat): (n: nat)
    ensures n <= max && (n == 0 || i + n <= |s|)
    decreases max
  {
    if max == 0 || i >= |s| || !IsDigitChar(s[i]) then 0 else 1 + DigitRun(s, i + 1, max - 1)
  }

  lemma {:induction false} DigitRunIsDigits(s: string, i: nat, max: nat)
    ensures forall k :: i <= k < i + DigitRun(s, i, max) ==> k < |s| && IsDigitChar(s[k])
    decreases max
  {
    if max == 0 || i >= |s| || !IsDigitChar(s[i]) {
      assert DigitRun(s, i, max) == 0;
    } else {
      DigitRunIsDigits(s, i + 1, max - 1);
      assert DigitRun(s, i, max) == 1 + DigitRun(s, i + 1, max - 1);
    }
  }

  /** The fraction as read: its value, its number of digits, and the
      cursor after it. */
  datatype Fraction = Fraction(value: nat, digits: nat, end: nat)

  /** A `.` at 19 starts a fraction only when more characters follow it;
      the first digit is required, at most seven more are taken. */
  function ReadFraction(s: string): Option<Fraction>
    requires |s| >= 19
  {
    if |s| > 20 && s[19] == '.' then
      if !IsDigitChar(s[20]) then None
      else
        var n := DigitRun(s, 21, Min(7, |s| - 21));
        DigitRunIsDigits(s, 21, Min(7, |s| - 21));
        var ds := s[20..21 + n];
        assert AllDigits(ds) by {
          forall k | 0 <= k < |ds| ensures IsDigitChar(ds[k]) {
            assert ds[k] == s[20 + k];
          }
        }
        Some(Fraction(DecimalOf(s[20..21 + n]), n + 1, 21 + n))
    else Some(Fraction(0, 0, 19))
  }

  /** What the fraction reader promises: it is read exactly when a `.` at
      19 has a character after it; then it is the longest run of one to
      eight digits at 20, and its value is their plain decimal value. */
  lemma FractionSpec(s: string, fr: Fraction)
    requires |s| >= 19 && ReadFraction(s) == Some(fr)
    ensures fr.digits > 0 <==> |s| > 20 && s[19] == '.'
    ensures fr.digits == 0 ==> fr.value == 0 && fr.end == 19
    ensures fr.digits > 0 ==>
      && 1 <= fr.digits <= 8 && fr.end == 20 + fr.digits <= |s|
      && AllDigits(s[20..fr.end]) && fr.value == DecimalOf(s[20..fr.end])
      && (fr.end == |s| || fr.digits == 8 || !IsDigitChar(s[fr.end]))
  {
    if |s| > 20 && s[19] == '.' {
      FractionRead(s, fr, DigitRun(s, 21, Min(7, |s| - 21)));
    }
  }

  lemma FractionRead(s: string, fr: Fraction, n: nat)
    requires |s| > 20 && s[19] == '.' && ReadFraction(s) == Some(fr)
    requires n == DigitRun(s, 21, Min(7, |s| - 21))
    ensures fr.digits == n + 1 && fr.end == 21 + n <= |s|
    ensures AllDigits(s[20..fr.end]) && fr.value == DecimalOf(s[20..fr.end])
    ensures fr.end == |s| || fr.digits == 8 || !IsDigitChar(s[fr.end])
  {
    FractionRunEnds(s, 21, Min(7, |s| - 21));
    DigitRunIsDigits(s, 21, Min(7, |s| - 21));
    var ds := s[20..21 + n];
    forall k | 0 <= k < |ds| ensures IsDigitChar(ds[k]) {
      assert ds[k] == s[20 + k];
    }
  }

  /** The loop stops at the end of the input, after max digits, or at a
      non-digit. */
  lemma {:induction false} FractionRunEnds(s: string, i: nat, max: nat)
    requires i <= |s| && max <= |s| - i
    ensures var n := DigitRun(s, i, max); i + n == |s| || n == max || !IsDigitChar(s[i + n])
    decreases max
  {
    if !(max == 0 || i >= |s| || !IsDigitChar(s[i])) {
      FractionRunEnds(s, i + 1, max - 1);
    }
  }

  // ---------------------------------------------------------------------
  // The zone designator

  /** `Z`, `+hh:mm` / `-hh:mm`, or neither. */
  datatype Zone = NoZone | Zulu | Offset(negative: bool, hours: nat, minutes: nat)

  datatype ZoneRead = ZoneRead(zone: Zone, end: nat)

  /** The character at c, if any, is consumed whatever it is; only `Z`,
      `+` and `-` are designators. The six characters of an offset are
      read without a length check, so input that ends inside them fails. */
  function ReadZone(s: string, c: nat): (r: Option<ZoneRead>)
    requires c <= |s|
    ensures r.Some? ==> c <= r.value.end <= |s|
  {
    if c == |s| then Some(ZoneRead(NoZone, c))
    else if s[c] != 'Z' && s[c] != '+' && s[c] != '-' then Some(ZoneRead(NoZone, c + 1))
    else if s[c] == 'Z' then Some(ZoneRead(Zulu, c + 1))
    else if c + 6 > |s| then None
    else
      var hours := Two(s, c + 1);
      if hours.None? || s[c + 3] != ':' then None
      else
        var minutes := Two(s, c + 4);
        if minutes.None? then None
        else Some(ZoneRead(Offset(s[c] == '-', hours.value, minutes.value), c + 6))
  }

  /** What the zone reader promises, case by case. */
  lemma ZoneSpec(s: string, c: nat, z: ZoneRead)
    requires c <= |s| && ReadZone(s, c) == Some(z)
    ensures z.zone == NoZone <==> c == |s| || (s[c] != 'Z' && s[c] != '+' && s[c] != '-')
    ensures z.zone == NoZone ==> z.end == if c == |s| then c else c + 1
    ensures z.zone == Zulu <==> c < |s| && s[c] == 'Z'
    ensures z.zone == Zulu ==> z.end == c + 1
    ensures z.zone.Offset? ==>
      && z.end == c + 6 <= |s| && (s[c] == '+' || s[c] == '-') && z.zone.negative == (s[c] == '-')
      && AllDigits(s[c + 1..c + 3]) && z.zone.hours == DecimalOf(s[c + 1..c + 3])
      && s[c + 3] == ':'
      && AllDigits(s[c + 4..c + 6]) && z.zone.minutes == DecimalOf(s[c + 4..c + 6])
  {
    if z.zone.Offset? {
      TwoDigits(s[c + 1..c + 3]);
      TwoDigits(s[c + 4..c + 6]);
    }
  }

  // ---------------------------------------------------------------------
  // The grammar

  /** Everything the grammar reads, before any calendar check. */
  datatype Parsed = Parsed(fields: Fields, fraction: nat, zone: Zone, consumed: nat)

  function Iso8601(s: string): (r: Option<Parsed>)
    ensures r.Some? ==> |s| >= 19 && MatchesTemplate(s) && 19 <= r.value.consumed <= |s|
  {
    if |s| < 19 then None
    else
      FixedFieldsAcceptTemplate(s);
      match FixedFields(s)
      case None => None
      case Some(f) =>
        match ReadFraction(s)
        case None => None
        case Some(fr) =>
          match ReadZone(s, fr.end)
          case None => None
          case Some(z) => Some(Parsed(f, fr.value, z.zone, z.end))
  }

  // ---------------------------------------------------------------------
  // The constructors' checks

  const TicksPerSecond: nat := 10_000_000
  const TicksPerMinute: nat := 600_000_000
  const TicksPerDay: nat := 864_000_000_000

  /** DateTime.MaxValue.Ticks: the last tick of 9999-12-31. */
  const MaxTicks: nat := 3_155_378_975_999_999_999

  /** The largest offset a DateTimeOffset accepts, in minutes (14 hours). */
  const MaxOffsetMinutes: nat := 840

  predicate IsLeapYear(y: nat) {
    y % 4 == 0 && (y % 100 != 0 || y % 400 == 0)
  }

  function DaysInMonth(y: nat, m: nat): nat
    requires 1 <= m <= 12
  {
    if m == 2 then (if IsLeapYear(y) then 29 else 28)
    else if m == 4 || m == 6 || m == 9 || m == 11 then 30
    else 31
  }

  /** The checks of the DateTime(year, month, day, hour, minute, second)
      constructor. */
  predicate ValidFields(f: Fields) {
    && 1 <= f.year <= 9999 && 1 <= f.month <= 12 && 1 <= f.day <= DaysInMonth(f.year, f.month)
    && f.hour < 24 && f.minute < 60 && f.second < 60
  }

  /** Days from 0001-01-01 to the first of January of year y. */
  function DaysToYear(y: nat): nat
    requires y >= 1
  {
    var n := y - 1;
    n * 365 + n / 4 - n / 100 + n / 400
  }

  /** Days from the first of January to the first of month m. */
  function DaysToMonth(y: nat, m: nat): nat
    requires 1 <= m <= 12
  {
    var before := [0, 31, 59, 90, 120, 151, 181, 212, 243, 273, 304, 334];
    before[m - 1] + if IsLeapYear(y) && m > 2 then 1 else 0
  }

  /** The tick count of the clock time the fields name. */
  function ClockTicks(f: Fields): nat
    requires ValidFields(f)
  {
    ((DaysToYear(f.year) + DaysToMonth(f.year, f.month) + f.day - 1) * 86400
      + f.hour * 3600 + f.minute * 60 + f.second) * TicksPerSecond
  }

  /** TryCreateDateTime: the fields are a date and time, and adding the
      fraction as ticks stays within DateTime's range. */
  predicate CanCreateDateTime(f: Fields, fraction: nat) {
    ValidFields(f) && ClockTicks(f) + fraction <= MaxTicks
  }

  /** TryCreateDateTimeOffset: as above, the offset is at most 14 hours
      either way, and the instant is within range both before and after
      the fraction is added. */
  predicate CanCreateDateTimeOffset(f: Fields, fraction: nat, offset: int) {
    && ValidFields(f) && -(MaxOffsetMinutes as int) <= offset <= MaxOffsetMinutes
    && ClockTicks(f) + fraction <= MaxTicks
    && 0 <= ClockTicks(f) - offset * TicksPerMinute
    && ClockTicks(f) + fraction - offset * TicksPerMinute <= MaxTicks
  }

  /** The offset, in minutes, that the source hands to the DateTimeOffset
      constructor: new TimeSpan(hours, minutes, 0) after only the hours
      were negated. */
  function OffsetMinutes(z: Zone): int {
    match z
    case Offset(negative, h, m) => (if negative then -(h as int) else h as int) * 60 + m
    case _ => 0
  }

  // ---------------------------------------------------------------------
  // TryParseDateTimeOffsetIso8601 and its callers

  /** The parsed value: the clock fields, the fraction as raw ticks and
      the zone designator it was read with. */
  datatype DateValue = DateValue(fields: Fields, ticks: nat, zone: Zone)

  datatype Outcome = Outcome(value: DateValue, consumed: nat, kind: Kind)

  /** The value, charsConsumed and kind all out-parameters get when the
      parse fails: default(DateTimeOffset), 0 and Unspecified. */
  const DefaultValue: DateValue := DateValue(Fields(1, 1, 1, 0, 0, 0), 0, Zulu)

  function KindOf(z: Zone): Kind {
    match z
    case NoZone => Unspecified
    case Zulu => Utc
    case Offset(_, _, _) => Local
  }

  /** Whether the constructor the zone selects accepts the fields, with
      the offset as the source builds it (OffsetMinutes). */
  predicate Creatable(p: Parsed) {
    match p.zone
    case NoZone => CanCreateDateTime(p.fields, p.fraction)
    case Zulu => CanCreateDateTimeOffset(p.fields, p.fraction, 0)
    case Offset(_, _, _) => CanCreateDateTimeOffset(p.fields, p.fraction, OffsetMinutes(p.zone))
  }

  function TryParseDateTimeOffsetIso8601(s: string): (r: Option<Outcome>)
    ensures r.Some? ==> ValidFields(r.value.value.fields) && 19 <= r.value.consumed <= |s|
  {
    match Iso8601(s)
    case None => None
    case Some(p) =>
      if Creatable(p) then Some(Outcome(DateValue(p.fields, p.fraction, p.zone), p.consumed, KindOf(p.zone)))
      else None
  }

  /** TryParseDateTimeOffset: the same parse, without the kind. */
  function TryParseDateTimeOffset(s: string): (r: Option<(DateValue, nat)>)
    ensures r.Some? <==> TryParseDateTimeOffsetIso8601(s).Some?
    ensures r.Some? ==> r.value.1 == TryParseDateTimeOffsetIso8601(s).value.consumed
    ensures r.Some? ==> r.value.0 == TryParseDateTimeOffsetIso8601(s).value.value
    ensures r.Some? ==> Iso8601(s).Some? && var p := Iso8601(s).value;
      r.value == (DateValue(p.fields, p.fraction, p.zone), p.consumed)
  {
    match TryParseDateTimeOffsetIso8601(s)
    case None => None
    case Some(o) => Some((o.value, o.consumed))
  }

  /** The DateTime TryParseDateTime returns, selected by the kind. */
  datatype DateTimeValue =
      /** dto.DateTime (kind Unspecified) or dto.UtcDateTime (kind Utc,
          zero offset): the parsed clock time itself. */
    | ClockTime(fields: Fields, ticks: nat, kind: Kind)
      /** dto.LocalDateTime: the instant at the given offset in minutes,
          shown in the machine's time zone. */
    | InLocalZone(fields: Fields, ticks: nat, offset: int)

  function DateTimeOf(o: Outcome): DateTimeValue {
    match o.kind
    case Local => InLocalZone(o.value.fields, o.value.ticks, OffsetMinutes(o.value.zone))
    case Utc => ClockTime(o.value.fields, o.value.ticks, Utc)
    case Unspecified => ClockTime(o.value.fields, o.value.ticks, Unspecified)
  }

  /** TryParseDateTime. */
  function TryParseDateTime(s: string): Option<(DateTimeValue, nat)> {
    match TryParseDateTimeOffsetIso8601(s)
    case None => None
    case Some(o) => Some((DateTimeOf(o), o.consumed))
  }

  // ---------------------------------------------------------------------
  // Properties

  /** Input shorter than the fixed part fails. */
  lemma ShortInputFails(s: string)
    requires |s| < 19
    ensures TryParseDateTimeOffsetIso8601(s) == None && TryParseDateTime(s) == None
  {
  }

  /** A successful parse read a template-conforming prefix, the fields are
      its digit groups, and the constructor the zone selects accepted them. */
  lemma ParsedFields(s: string, o: Outcome)
    requires TryParseDateTimeOffsetIso8601(s) == Some(o)
    ensures |s| >= 19 && MatchesTemplate(s)
    ensures o.value.fields.year == DecimalOf(s[0..4]) && o.value.fields.month == DecimalOf(s[5..7])
    ensures o.value.fields.day == DecimalOf(s[8..10]) && o.value.fields.hour == DecimalOf(s[11..13])
    ensures o.value.fields.minute == DecimalOf(s[14..16]) && o.value.fields.second == DecimalOf(s[17..19])
    ensures o.kind == KindOf(o.value.zone)
  {
    var p := Iso8601(s).value;
    FixedFieldValues(s, p.fields);
  }

  /** The kind follows the designator, and TryParseDateTime reports the
      same charsConsumed. */
  lemma KindMapping(s: string, o: Outcome)
    requires TryParseDateTimeOffsetIso8601(s) == Some(o)
    ensures o.kind == Unspecified <==> o.value.zone == NoZone
    ensures o.kind == Utc <==> o.value.zone == Zulu
    ensures o.kind == Local <==> o.value.zone.Offset?
    ensures TryParseDateTime(s) == Some((DateTimeOf(o), o.consumed))
    ensures o.kind != Local ==> DateTimeOf(o) == ClockTime(o.value.fields, o.value.ticks, o.kind)
  {
  }

  /** Where the parse stops: after the fraction as FractionSpec places it
      (19 when there is none), plus whatever the designator, or the one
      character in its place, takes. */
  lemma ConsumedSpec(s: string, o: Outcome, fr: Fraction)
    requires TryParseDateTimeOffsetIso8601(s) == Some(o)
    requires |s| >= 19 && ReadFraction(s) == Some(fr)
    ensures fr.end <= |s|
    ensures o.value.zone == NoZone ==> o.consumed == if fr.end == |s| then fr.end else fr.end + 1
    ensures o.value.zone == Zulu ==> o.consumed == fr.end + 1 && s[fr.end] == 'Z'
    ensures o.value.zone.Offset? ==> o.consumed == fr.end + 6
  {
    ZoneSpec(s, fr.end, ReadZone(s, fr.end).value);
  }

  /** Calendar-invalid fields make the parse fail rather than raise. */
  lemma InvalidFieldsFail(s: string)
    requires |s| >= 19
    requires FixedFields(s).Some? && !ValidFields(FixedFields(s).value)
    ensures TryParseDateTimeOffsetIso8601(s) == None && TryParseDateTime(s) == None
  {
  }

  /** A template-conforming, calendar-valid input of exactly 19
      characters is accepted as an unspecified clock time. */
  lemma PlainDateTimeAccepted(s: string, f: Fields)
    requires |s| == 19 && FixedFields(s) == Some(f) && CanCreateDateTime(f, 0)
    ensures TryParseDateTimeOffsetIso8601(s) == Some(Outcome(DateValue(f, 0, NoZone), 19, Unspecified))
  {
  }

  // ---------------------------------------------------------------------
  // Examples from the parser's documentation

  const Clock: Fields := Fields(2017, 6, 12, 5, 30, 45)
  const ClockText: string := "2017-06-12T05:30:45"

  lemma DecimalOfAppend(ds: string, c: char)
    requires AllDigits(ds) && IsDigitChar(c)
    ensures AllDigits(ds + [c]) && DecimalOf(ds + [c]) == DecimalOf(ds) * 10 + Val(c)
  {
    assert (ds + [c])[..|ds|] == ds;
  }

  /** Any input that starts with ClockText has Clock as its fixed part. */
  lemma ClockPrefix(s: string)
    requires |s| >= 19 && s[..19] == ClockText
    ensures FixedFields(s) == Some(Clock)
  {
    forall i | 0 <= i < 19 ensures s[i] == ClockText[i] {
      assert s[..19][i] == s[i];
    }
  }

  lemma ClockTicksValue()
    ensures ValidFields(Clock) && ClockTicks(Clock) == 636_328_422_450_000_000
  {
    assert DaysToYear(2017) == 736329;
    assert DaysToMonth(2017, 6) == 151;
  }

  /** The example clock time is far from both ends of the range. */
  lemma ClockCreatable(fraction: nat, offset: int)
    requires fraction < 100_000_000 && -(MaxOffsetMinutes as int) <= offset <= MaxOffsetMinutes
    ensures CanCreateDateTime(Clock, fraction) && CanCreateDateTimeOffset(Clock, fraction, offset)
  {
    ClockTicksValue();
  }

  /** The converse of FractionSpec: a run of one to eight digits after a
      `.` at 19, ended by the input, the limit or a non-digit, is read. */
  lemma FractionOf(s: string, n: nat)
    requires 1 <= n <= 8 && 20 + n <= |s| && s[19] == '.'
    requires AllDigits(s[20..20 + n])
    requires 20 + n == |s| || n == 8 || !IsDigitChar(s[20 + n])
    ensures ReadFraction(s) == Some(Fraction(DecimalOf(s[20..20 + n]), n, 20 + n))
  {
    forall j | 21 <= j < 20 + n ensures IsDigitChar(s[j]) {
      assert s[20..20 + n][j - 20] == s[j];
    }
    assert s[20..20 + n][0] == s[20];
    DigitRunOf(s, 21, Min(7, |s| - 21), n - 1);
  }

  lemma {:induction false} DigitRunOf(s: string, i: nat, max: nat, k: nat)
    requires k <= max && i + k <= |s|
    requires forall j :: i <= j < i + k ==> IsDigitChar(s[j])
    requires k == max || i + k == |s| || !IsDigitChar(s[i + k])
    ensures DigitRun(s, i, max) == k
    decreases k
  {
    if k > 0 {
      DigitRunOf(s, i + 1, max - 1, k - 1);
    }
  }

  lemma Decimal768()
    ensures AllDigits("768") && DecimalOf("768") == 768
  {
    assert [] + ['7'] == "7" && "7" + ['6'] == "76" && "76" + ['8'] == "768";
    DecimalOfAppend([], '7');
    DecimalOfAppend("7", '6');
    DecimalOfAppend("76", '8');
  }

  lemma Decimal7680000()
    ensures AllDigits("7680000") && DecimalOf("7680000") == 7680000
  {
    Decimal768();
    assert "768" + ['0'] == "7680" && "7680" + ['0'] == "76800";
    assert "76800" + ['0'] == "768000" && "768000" + ['0'] == "7680000";
    DecimalOfAppend("768", '0');
    DecimalOfAppend("7680", '0');
    DecimalOfAppend("76800", '0');
    DecimalOfAppend("768000", '0');
  }

  const UtcExample: string := "2017-06-12T05:30:45.768Z"

  lemma UtcExampleParts()
    ensures ReadFraction(UtcExample) == Some(Fraction(768, 3, 23))
    ensures ReadZone(UtcExample, 23) == Some(ZoneRead(Zulu, 24))
  {
    var s := UtcExample;
    assert s[20..23] == "768";
    Decimal768();
    FractionOf(s, 3);
  }

  lemma UtcWithFraction()
    ensures TryParseDateTimeOffsetIso8601(UtcExample) == Some(Outcome(DateValue(Clock, 768, Zulu), 24, Utc))
  {
    assert UtcExample[..19] == ClockText;
    ClockPrefix(UtcExample);
    UtcExampleParts();
    ClockCreatable(768, 0);
  }

  lemma WithoutDesignator()
    ensures TryParseDateTimeOffsetIso8601(ClockText) == Some(Outcome(DateValue(Clock, 0, NoZone), 19, Unspecified))
  {
    assert ClockText[..19] == ClockText;
    ClockPrefix(ClockText);
    ClockCreatable(0, 0);
  }

  const NegativeOffsetExample: string := "2017-06-12T05:30:45.7680000-07:00"

  lemma NegativeOffsetParts()
    ensures ReadFraction(NegativeOffsetExample) == Some(Fraction(7680000, 7, 27))
    ensures ReadZone(NegativeOffsetExample, 27) == Some(ZoneRead(Offset(true, 7, 0), 33))
  {
    var s := NegativeOffsetExample;
    assert s[20..27] == "7680000";
    Decimal7680000();
    FractionOf(s, 7);
  }

  /** Seven fraction digits and a negative whole-hour offset. */
  lemma WithNegativeOffset()
    ensures TryParseDateTimeOffsetIso8601(NegativeOffsetExample)
      == Some(Outcome(DateValue(Clock, 7680000, Offset(true, 7, 0)), 33, Local))
    ensures OffsetMinutes(Offset(true, 7, 0)) == -420
  {
    assert NegativeOffsetExample[..19] == ClockText;
    ClockPrefix(NegativeOffsetExample);
    NegativeOffsetParts();
    ClockCreatable(7680000, -420);
  }

  /** Month 13 fails the DateTime constructor: the parse answers false. */
  lemma MonthThirteenFails()
    ensures TryParseDateTimeOffsetIso8601("2017-13-12T05:30:45") == None
  {
    assert FixedFields("2017-13-12T05:30:45") == Some(Fields(2017, 13, 12, 5, 30, 45));
  }

  // ---------------------------------------------------------------------
  // The sign of a negative offset

  /** The offset a `-hh:mm` designator evidently means: minus the whole
      span, minutes included. */
  function IntendedOffsetMinutes(z: Zone): (r: int)
    ensures z.Offset? ==> (if z.negative then -r else r) == z.hours * 60 + z.minutes
    ensures !z.Offset? ==> r == 0
  {
    match z
    case Offset(negative, h, m) => if negative then -((h * 60 + m) as int) else (h * 60 + m) as int
    case _ => 0
  }

  /** As written, `-` only flips the hours: both readings agree for `+`
      and for whole hours, and otherwise differ by twice the minutes. */
  lemma OffsetSignAsWritten(h: nat, m: nat)
    ensures OffsetMinutes(Offset(false, h, m)) == IntendedOffsetMinutes(Offset(false, h, m))
    ensures OffsetMinutes(Offset(true, h, 0)) == IntendedOffsetMinutes(Offset(true, h, 0))
    ensures OffsetMinutes(Offset(true, h, m)) == IntendedOffsetMinutes(Offset(true, h, m)) + 2 * m
  {
  }

  const HalfHourExample: string := "2017-06-12T05:30:45-07:30"

  /** `-07:30` is read as seven hours west plus thirty minutes east. */
  lemma MinusSevenThirty()
    ensures TryParseDateTimeOffsetIso8601(HalfHourExample)
      == Some(Outcome(DateValue(Clock, 0, Offset(true, 7, 30)), 25, Local))
    ensures OffsetMinutes(Offset(true, 7, 30)) == -390
    ensures IntendedOffsetMinutes(Offset(true, 7, 30)) == -450
  {
    assert HalfHourExample[..19] == ClockText;
    ClockPrefix(HalfHourExample);
    assert ReadZone(HalfHourExample, 19) == Some(ZoneRead(Offset(true, 7, 30), 25));
    ClockCreatable(0, -390);
  }

  /** The intended reading is symmetric in the sign. */
  lemma IntendedOffsetSymmetric(h: nat, m: nat)
    ensures IntendedOffsetMinutes(Offset(true, h, m)) == -IntendedOffsetMinutes(Offset(false, h, m))
  {
  }

  /** The constructor check with the intended offset in place of the one
      the source builds. */
  predicate IntendedCreatable(p: Parsed) {
    match p.zone
    case Offset(_, _, _) => CanCreateDateTimeOffset(p.fields, p.fraction, IntendedOffsetMinutes(p.zone))
    case _ => Creatable(p)
  }

  const FourteenThirtyExample: string := "2017-06-12T05:30:45-14:30"

  /** `-14:30` is accepted as written (as -13:30), although the offset it
      means lies beyond the 14-hour bound. */
  lemma MinusFourteenThirty()
    ensures Iso8601(FourteenThirtyExample) == Some(Parsed(Clock, 0, Offset(true, 14, 30), 25))
    ensures TryParseDateTimeOffsetIso8601(FourteenThirtyExample)
      == Some(Outcome(DateValue(Clock, 0, Offset(true, 14, 30)), 25, Local))
    ensures !IntendedCreatable(Parsed(Clock, 0, Offset(true, 14, 30), 25))
  {
    assert FourteenThirtyExample[..19] == ClockText;
    ClockPrefix(FourteenThirtyExample);
    assert ReadZone(FourteenThirtyExample, 19) == Some(ZoneRead(Offset(true, 14, 30), 25));
    ClockCreatable(0, -810);
  }

  const FirstInstantExample: string := "0001-01-01T00:00:00-00:30"

  /** `-00:30` on the first representable instant is rejected as written
      (read as +00:30, it falls before the first tick), although the
      offset it means is accepted. */
  lemma MinusZeroThirtyAtFirstInstant()
    ensures Iso8601(FirstInstantExample) == Some(Parsed(Fields(1, 1, 1, 0, 0, 0), 0, Offset(true, 0, 30), 25))
    ensures TryParseDateTimeOffsetIso8601(FirstInstantExample) == None
    ensures IntendedCreatable(Parsed(Fields(1, 1, 1, 0, 0, 0), 0, Offset(true, 0, 30), 25))
  {
    assert FixedFields(FirstInstantExample) == Some(Fields(1, 1, 1, 0, 0, 0));
    assert ReadZone(FirstInstantExample, 19) == Some(ZoneRead(Offset(true, 0, 30), 25));
    assert ClockTicks(Fields(1, 1, 1, 0, 0, 0)) == 0;
  }

  // ---------------------------------------------------------------------
  // The parser as it runs: a cursor advanced character by character

  /** The fraction step: a `.` at 19 with a character after it moves the
      cursor to 20, requires one digit, then takes at most seven more. */
  method ScanFraction(s: string) returns (ok: bool, fraction: nat, currentOffset: nat)
    requires |s| >= 19
    ensures ok <==> ReadFraction(s).Some?
    ensures ok ==> ReadFraction(s).value.value == fraction && ReadFraction(s).value.end == currentOffset
  {
    ok, fraction, currentOffset := true, 0, 19;
    if |s| > currentOffset + 1 && s[currentOffset] == '.' {
      currentOffset := currentOffset + 1;
      if !IsDigitChar(s[currentOffset]) {
        return false, 0, 0;
      }
      var temp := Val(s[currentOffset]);
      currentOffset := currentOffset + 1;
      DecimalOfAppend([], s[20]);
      assert [] + [s[20]] == s[20..currentOffset];
      var maxDigits := Min(7, |s| - currentOffset);
      var i := 0;
      while i < maxDigits
        invariant 0 <= i <= maxDigits && currentOffset == 21 + i
        invariant AllDigits(s[20..currentOffset]) && temp == DecimalOf(s[20..currentOffset])
        invariant DigitRun(s, 21, maxDigits) == i + DigitRun(s, currentOffset, maxDigits - i)
      {
        if !IsDigitChar(s[currentOffset]) {
          break;
        }
        DecimalOfAppend(s[20..currentOffset], s[currentOffset]);
        assert s[20..currentOffset] + [s[currentOffset]] == s[20..currentOffset + 1];
        temp := temp * 10 + Val(s[currentOffset]);
        currentOffset := currentOffset + 1;
        i := i + 1;
      }
      assert DigitRun(s, currentOffset, maxDigits - i) == 0;
      fraction := temp;
    }
  }

  /** The designator step from the cursor c: the character there, if
      any, is taken; `+`/`-` go on to `hh:mm`, each read unchecked. */
  method ScanZone(s: string, c: nat) returns (ok: bool, zone: Zone, currentOffset: nat)
    requires c <= |s|
    ensures ReadZone(s, c) == if ok then Some(ZoneRead(zone, currentOffset)) else None
  {
    currentOffset := c;
    var offsetChar: char;
    if |s| <= currentOffset {
      offsetChar := '\0';
    } else {
      offsetChar := s[currentOffset];
      currentOffset := currentOffset + 1;
    }
    if offsetChar != 'Z' && offsetChar != '+' && offsetChar != '-' {
      return true, NoZone, currentOffset;
    }
    if offsetChar == 'Z' {
      return true, Zulu, currentOffset;
    }
    ok, zone := false, NoZone;
    if currentOffset + 2 > |s| {
      return;
    }
    var hours := Two(s, currentOffset);
    currentOffset := currentOffset + 2;
    if hours.None? {
      return;
    }
    if currentOffset >= |s| || s[currentOffset] != ':' {
      return;
    }
    currentOffset := currentOffset + 1;
    if currentOffset + 2 > |s| {
      return;
    }
    var minutes := Two(s, currentOffset);
    currentOffset := currentOffset + 2;
    if minutes.None? {
      return;
    }
    return true, Offset(offsetChar == '-', hours.value, minutes.value), currentOffset;
  }

  /** TryParseDateTimeOffsetIso8601: every failure leaves the defaults. */
  method TryParseIso8601(s: string) returns (success: bool, value: DateValue, charsConsumed: nat, kind: Kind)
    ensures success <==> TryParseDateTimeOffsetIso8601(s).Some?
    ensures success ==> TryParseDateTimeOffsetIso8601(s) == Some(Outcome(value, charsConsumed, kind))
    ensures !success ==> value == DefaultValue && charsConsumed == 0 && kind == Unspecified
  {
    success, value, charsConsumed, kind := false, DefaultValue, 0, Unspecified;
    if |s| < 19 {
      return;
    }
    var fixed := FixedFields(s);
    if fixed.None? {
      return;
    }
    var f := fixed.value;
    var ok, fraction, currentOffset := ScanFraction(s);
    if !ok {
      return;
    }
    var zone;
    ok, zone, currentOffset := ScanZone(s, currentOffset);
    if !ok {
      return;
    }
    match zone {
      case NoZone =>
        if CanCreateDateTime(f, fraction) {
          success, value, charsConsumed, kind := true, DateValue(f, fraction, zone), currentOffset, Unspecified;
        }
      case Zulu =>
        if CanCreateDateTimeOffset(f, fraction, 0) {
          success, value, charsConsumed, kind := true, DateValue(f, fraction, zone), currentOffset, Utc;
        }
      case Offset(negative, hours, minutes) =>
        var offsetHours: int := if negative then -1 * (hours as int) else hours;
        // new TimeSpan(offsetHours, offsetMinutes, 0)
        var offset := offsetHours * 60 + minutes;
        if CanCreateDateTimeOffset(f, fraction, offset) {
          success, value, charsConsumed, kind := true, DateValue(f, fraction, zone), currentOffset, Local;
        }
    }
  }

  /** default(DateTime). */
  const DefaultDateTime: DateTimeValue := ClockTime(Fields(1, 1, 1, 0, 0, 0), 0, Unspecified)

  /** TryParseDateTime: the kind selects the representation; a failure
      resets charsConsumed to 0. */
  method TryParseDateTimeMethod(s: string) returns (success: bool, value: DateTimeValue, charsConsumed: nat)
    ensures success <==> TryParseDateTime(s).Some?
    ensures success ==> TryParseDateTime(s) == Some((value, charsConsumed))
    ensures !success ==> value == DefaultDateTime && charsConsumed == 0
  {
    var dto, kind;
    success, dto, charsConsumed, kind := TryParseIso8601(s);
    if success {
      match kind {
        case Local => value := InLocalZone(dto.fields, dto.ticks, OffsetMinutes(dto.zone));
        case Utc => value := ClockTime(dto.fields, dto.ticks, Utc);
        case Unspecified => value := ClockTime(dto.fields, dto.ticks, Unspecified);
      }
      return;
    }
    value := DefaultDateTime;
    charsConsumed := 0;
  }
}
