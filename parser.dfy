/**
 * The parser of iso8601/parser.py: the duration grammar (`duration_parts`, `parse_duration`)
 * and the recursive dispatcher `parse` with its midnight-24 and decimal-fraction rules, plus
 * the projections `parse_date` and `parse_time`.
 *
 * `datetime.strptime` is not modelled: `parse` receives it as a matcher `m`, where
 * `m(format, text)` is the datetime `strptime(text, format)` returns, or `None` when it
 * raises `ValueError`. Every lemma holds for every matcher unless it says otherwise.
 */
module Parser {
  import opened Wrappers
  import opened Strings
  import opened Digits
  import opened Calendar
  import opened DurationGrammar

  /** What a call of `parse` can raise. */
  datatype ParseError =
    | UnpackMismatch          // ValueError: `a, b = text.split(c)` without exactly one `c`
    | MidnightOnly            // "hour=24 is only permitted at midnight"
    | FractionNotLast         // "fractional time may only apply to last component"
    | DurationMismatch(fragment: string)  // "'P<fragment>' does not match ISO8601 format"
    | YearMonthUnsupported    // "Year and month values are not supported in python timedelta"
    | EmptyDurationIndex      // IndexError: `duration[-1]` on the empty string
    | TypeMismatch            // TypeError: an addition or membership test on the wrong types
    | Overflow                // OverflowError: a date or timedelta out of Python's range

  /** The message text a `ValueError` of the parser carries. */
  function Message(e: ParseError): string {
    match e
    case MidnightOnly => "hour=24 is only permitted at midnight"
    case FractionNotLast => "fractional time may only apply to last component"
    case DurationMismatch(f) => "'P" + f + "' does not match ISO8601 format"
    case YearMonthUnsupported => "Year and month values are not supported in python timedelta"
    case _ => ""
  }

  /** An argument of `parse`: text, or a value that is already a Python date/time object. */
  datatype ParseInput = Text(text: string) | Given(value: Value)

  /** What `parse` returns: one value, `None` (it fell off the end), or a (start, duration) pair. */
  datatype Parsed = Single(value: Value) | NoneResult | Pair(start: Parsed, duration: TimeDelta)

  /** `strptime` as a parameter: the datetime parsed from the text by the format, if any. */
  type Matcher = (string, string) -> Option<DateTime>

  /** The `FORMATS` list, tried in this order. */
  const FORMATS: seq<string> := [
    "%Y-%m-%dT%H:%M:%S%z",
    "%Y-%m-%dT%H:%M:%S%Z",
    "%Y-%m-%dT%H:%M:%S",
    "%Y-%m-%dT%H:%M",
    "%Y-%m-%dT%H",
    "%Y-%m-%d",
    "%Y%m%d",
    "%Y%m%dT%H%M%S%z",
    "%Y%m%dT%H%M%S%Z",
    "%Y%m%dT%H%M%S"
  ]

  /** `strptime` only ever returns real datetimes; true of the library, assumed of no matcher. */
  ghost predicate ValidMatcher(m: Matcher) {
    forall f, s :: m(f, s).Some? ==> m(f, s).value.Valid()
  }

  // ----- the duration grammar -----

  datatype DurationUnit = Years | Months | Weeks | Days | Hours | Minutes | Seconds

  const ALL_UNITS: set<DurationUnit> := {Years, Months, Weeks, Days, Hours, Minutes, Seconds}

  /** The digits of the named group `u` of the match, if that group took part. */
  function Field(syn: DurationSyntax, u: DurationUnit): (g: Option<string>)
    requires WellFormed(syn)
    ensures GroupOk(g)
  {
    match u
    case Years => syn.years
    case Months => syn.months
    case Weeks => syn.weeks
    case Days => syn.days
    case Hours => if syn.time.Some? then syn.time.value.hours else None
    case Minutes => if syn.time.Some? then syn.time.value.minutes else None
    case Seconds => if syn.time.Some? then syn.time.value.seconds else None
  }

  /** The integer value of group `u` (zero when it did not take part). */
  function FieldValue(syn: DurationSyntax, u: DurationUnit): nat
    requires WellFormed(syn)
  {
    match Field(syn, u)
    case None => 0
    case Some(ds) => DigitsToNat(ds)
  }

  /** `dict((k, int(v)) for k, v in groupdict().items() if v and int(v))`. */
  function Parts(syn: DurationSyntax): (p: map<DurationUnit, nat>)
    requires WellFormed(syn)
    ensures forall u :: u in p <==> FieldValue(syn, u) != 0
    ensures forall u :: u in p ==> p[u] == FieldValue(syn, u)
  {
    map u | u in ALL_UNITS && FieldValue(syn, u) != 0 :: FieldValue(syn, u)
  }

  /**
   * `duration_parts(s)`: the non-zero groups of the match of `s`. It fails with the format
   * message when `s` does not match or ends in `T`, and with `IndexError` on the empty string,
   * which the regular expression matches.
   */
  function DurationParts(s: string): (r: Result<map<DurationUnit, nat>, ParseError>)
    ensures r.Ok? <==> s != "" && MatchesDurationRegex(s) && s[|s| - 1] != 'T'
    ensures s == "" ==> r == Err(EmptyDurationIndex)
    ensures s != "" && r.Err? ==> r.error == DurationMismatch(s)
    ensures r.Ok? ==> forall syn :: WellFormed(syn) && Render(syn) == s ==> r.value == Parts(syn)
  {
    if s == "" then
      // every group is optional, so the empty text matches and `duration[-1]` raises
      assert Render(DurationSyntax(false, None, None, None, None, None, false)) == "";
      Err(EmptyDurationIndex)
    else
      RecognizeDecides(s);
      match Recognize(s)
      case None => Err(DurationMismatch(s))
      case Some(syn) =>
        UniquePath(s);
        if s[|s| - 1] == 'T' then Err(DurationMismatch(s)) else Ok(Parts(syn))
  }

  /** The path the recognizer finds is the only path through the grammar for that text. */
  lemma UniquePath(s: string)
    requires Recognize(s).Some?
    ensures WellFormed(Recognize(s).value)
    ensures forall other :: WellFormed(other) && Render(other) == s ==> other == Recognize(s).value
  {
    RecognizeSound(s);
    forall other | WellFormed(other) && Render(other) == s ensures other == Recognize(s).value {
      RenderInjective(other, Recognize(s).value);
    }
  }

  /** The value of a field, zero when absent: `timedelta`'s keyword defaults. */
  function Get(p: map<DurationUnit, nat>, u: DurationUnit): nat {
    if u in p then p[u] else 0
  }

  /** Seconds in `timedelta(weeks=.., days=.., hours=.., minutes=.., seconds=..)`. */
  function PartsSeconds(p: map<DurationUnit, nat>): nat {
    (7 * Get(p, Weeks) + Get(p, Days)) * 86_400
      + Get(p, Hours) * 3600 + Get(p, Minutes) * 60 + Get(p, Seconds)
  }

  /** The elapsed seconds a path through the grammar denotes, every present group counted. */
  function SyntaxSeconds(syn: DurationSyntax): nat
    requires WellFormed(syn)
  {
    (7 * FieldValue(syn, Weeks) + FieldValue(syn, Days)) * 86_400
      + FieldValue(syn, Hours) * 3600 + FieldValue(syn, Minutes) * 60 + FieldValue(syn, Seconds)
  }

  /** `parse_duration(s)`: year and month groups are refused unless zero. */
  function ParseDuration(s: string): (r: Result<TimeDelta, ParseError>)
    ensures r.Ok? ==> r.value.Valid() && r.value.micros >= 0 && r.value.Microseconds() == 0
    ensures r.Err? ==> r.error in {EmptyDurationIndex, DurationMismatch(s), YearMonthUnsupported, Overflow}
  {
    match DurationParts(s)
    case Err(e) => Err(e)
    case Ok(p) =>
      if Years in p || Months in p then Err(YearMonthUnsupported)
      else
        var td := TimeDelta(PartsSeconds(p) * SECOND_US);
        WholeSeconds(PartsSeconds(p));
        if td.Valid() then Ok(td) else Err(Overflow)
  }

  /** A timedelta built from whole seconds has no microseconds. */
  lemma WholeSeconds(k: int)
    ensures TimeDelta(k * SECOND_US).Microseconds() == 0
  {
    var x := k * SECOND_US;
    assert x == (x / SECOND_US) * SECOND_US + x % SECOND_US;
    assert (k - x / SECOND_US) * SECOND_US == x % SECOND_US;
  }

  // ----- the dispatcher -----

  /** The first format in `formats` that `m` accepts for `data`, as the `for` loop returns it. */
  function FirstMatch(m: Matcher, formats: seq<string>, data: string): (r: Option<DateTime>)
    ensures r.None? <==> forall i :: 0 <= i < |formats| ==> m(formats[i], data).None?
    ensures r.Some? ==> exists i :: 0 <= i < |formats| && m(formats[i], data) == r
                                    && forall j :: 0 <= j < i ==> m(formats[j], data).None?
  {
    if formats == [] then None
    else if m(formats[0], data).Some? then
      m(formats[0], data)
    else
      var r := FirstMatch(m, formats[1..], data);
      assert forall i :: 1 <= i < |formats| ==> formats[i] == formats[1..][i - 1];
      if r.Some? then
        var i :| 0 <= i < |formats[1..]| && m(formats[1..][i], data) == r
                 && forall j :: 0 <= j < i ==> m(formats[1..][j], data).None?;
        assert m(formats[i + 1], data) == r;
        assert forall j :: 0 <= j < i + 1 ==> m(formats[j], data).None? by {
          forall j | 0 <= j < i + 1 ensures m(formats[j], data).None? {
            if j > 0 { assert formats[j] == formats[1..][j - 1]; }
          }
        }
        r
      else
        r
  }

  /** `if 'T' not in data: data = data.replace(' ', 'T')`. */
  function SpaceToT(s: string): (d: string)
    ensures |d| == |s|
    ensures 'T' in s ==> d == s
    ensures 'T' !in s ==> ' ' !in d && ('T' in d <==> ' ' in s)
    ensures 'T' !in s ==> forall i :: 0 <= i < |s| ==> d[i] == (if s[i] == ' ' then 'T' else s[i])
    ensures 'P' in d <==> 'P' in s
  {
    if 'T' !in s then
      var d := ReplaceChar(s, ' ', 'T');
      assert ' ' in s ==> 'T' in d by {
        if ' ' in s { var i :| 0 <= i < |s| && s[i] == ' '; assert d[i] == 'T'; }
      }
      assert 'P' in s ==> 'P' in d by {
        if 'P' in s { var i :| 0 <= i < |s| && s[i] == 'P'; assert d[i] == 'P'; }
      }
      d
    else s
  }

  /** The text after the only `T` starts with `24`: the midnight-24 branch applies. */
  predicate MidnightShape(d: string) {
    Count(d, 'T') == 1 && StartsWith(d[IndexOf(d, 'T') + 1..], "24")
  }

  /** Termination order of the dispatcher: the midnight-24 rewrite keeps the length but leaves this shape. */
  function Rank(s: string): nat {
    DataRank(SpaceToT(s))
  }

  function DataRank(d: string): nat {
    if MidnightShape(d) then 1 else 0
  }

  /**
   * What lines 117-143 find in a text no format reads: not exactly one `T` (the unpacking
   * at 117 fails), hour 24 (119), a dot that is not in the last component (131, 133-136),
   * a fraction of the last component (137-143), or no dot at all (the code falls off its end).
   */
  datatype TimeShape =
    | NotOneT
    | Hour24(next: string)
    | BadFraction
    | Fraction(head: string, digits: string, colons: nat)
    | NoFraction

  /** The tests of lines 117-136 in their order; `next` and `head` are what is parsed again. */
  function Classify(data: string): (t: TimeShape)
    ensures t.NotOneT? <==> Count(data, 'T') != 1
    ensures t.Hour24? <==> MidnightShape(data)
    ensures t.Hour24? ==> |t.next| == |data| && Rank(t.next) < DataRank(data)
    ensures t.Fraction? ==> |t.head| < |data| && AllDigits(t.digits)
    ensures t.NoFraction? ==>
      Count(data, 'T') == 1 && !StartsWith(data[IndexOf(data, 'T') + 1..], "24") && '.' !in data[IndexOf(data, 'T') + 1..]
  {
    if Count(data, 'T') != 1 then NotOneT
    else
      var i := IndexOf(data, 'T');
      var timePart := data[i + 1..];
      if StartsWith(timePart, "24") then
        MidnightRewrite(data);
        Hour24(ReplaceAll(data, "T24", "T00"))
      else if Count(timePart, '.') > 1 then BadFraction
      else if Count(timePart, '.') == 1 then
        var fraction := timePart[IndexOf(timePart, '.') + 1..];
        if !AllDigits(fraction) then BadFraction
        else
          DotInTimePart(data, i);
          Fraction(data[..IndexOf(data, '.')], fraction, Count(timePart, ':'))
      else NoFraction
  }

  /** Microseconds in one hour, minute or second: the unit a fraction applies to, by colon count. */
  function FractionUnit(colons: nat): nat
    requires colons <= 2
  {
    if colons == 0 then HOUR_US else if colons == 1 then MINUTE_US else SECOND_US
  }

  /**
   * `a / b` rounded to the nearest integer, ties to the even neighbour: how `timedelta`
   * turns a fractional number of microseconds into a whole one.
   */
  function RoundHalfEven(a: nat, b: nat): (r: nat)
    requires b > 0
    ensures 2 * a <= (2 * r + 1) * b && (2 * r - 1) * b <= 2 * a
    ensures (2 * r + 1) * b == 2 * a || (2 * r - 1) * b == 2 * a ==> r % 2 == 0
  {
    var q, rem := a / b, a % b;
    var qb := q * b;
    assert a == qb + rem;
    assert (2 * q + 1) * b == 2 * qb + b && (2 * q - 1) * b == 2 * qb - b;
    assert (2 * (q + 1) + 1) * b == 2 * qb + 3 * b && (2 * (q + 1) - 1) * b == 2 * qb + b;
    if 2 * rem > b then q + 1
    else if 2 * rem < b then q
    else if q % 2 == 0 then q
    else q + 1
  }

  /**
   * `timedelta(<unit>=float("0." + digits))`, with the fraction taken exactly: the nearest
   * whole number of microseconds to `0.digits` of an hour, minute or second, ties to even.
   * It reaches a whole unit when the fraction rounds up to it (`.9999999` of a second).
   */
  function FractionDelta(digits: string, colons: nat): (td: TimeDelta)
    requires AllDigits(digits) && colons <= 2
    ensures var n, p, u := DigitsToNat(digits), Pow10(|digits|), FractionUnit(colons);
      && 0 <= td.micros <= u
    ensures var n, p, u := DigitsToNat(digits), Pow10(|digits|), FractionUnit(colons);
      && 2 * (n * u) <= (2 * td.micros + 1) * p
      && (2 * td.micros - 1) * p <= 2 * (n * u)
      && ((2 * td.micros + 1) * p == 2 * (n * u) || (2 * td.micros - 1) * p == 2 * (n * u) ==> td.micros % 2 == 0)
  {
    var n, p, u := DigitsToNat(digits), Pow10(|digits|), FractionUnit(colons);
    var r := RoundHalfEven(n * u, p);
    RoundedAtMostUnit(n, p, u, r);
    TimeDelta(r)
  }

  /** A fraction below one, rounded, is at most one whole unit. */
  lemma RoundedAtMostUnit(n: nat, p: nat, u: nat, r: nat)
    requires n < p && (2 * r - 1) * p <= 2 * (n * u)
    ensures r <= u
  {
    calc {
      (2 * r - 1) * p;
    <= 2 * (n * u);
    <= { MulAtMost(n, p, u); }
      2 * (p * u);
    <  2 * (p * u) + p;
    == { assert (2 * u + 1) * p == 2 * (u * p) + p; }
      (2 * u + 1) * p;
    }
    FactorBelow(2 * r - 1, 2 * u + 1, p);
  }

  lemma MulAtMost(a: nat, b: nat, c: nat)
    requires a <= b
    ensures a * c <= b * c
  {
  }

  lemma FactorBelow(a: int, b: int, c: int)
    requires c > 0 && a * c < b * c
    ensures a < b
  {
  }

  /**
   * Lines 110-143 of `parse`, reached for every text without `P`. The recursive calls at
   * 120 and 143 pass text that still has no `P`, so they are calls of this same function.
   * `Ok(None)` is the `None` returned when the code falls off its end.
   */
  function ParseDateTime(m: Matcher, s: string): (r: Result<Option<DateTime>, ParseError>)
    ensures ValidMatcher(m) && r.Ok? && r.value.Some? ==> r.value.value.Valid()
    ensures r.Err? ==> r.error in {UnpackMismatch, MidnightOnly, FractionNotLast, TypeMismatch, Overflow}
    decreases |s|, Rank(s), 1
  {
    ParseData(m, SpaceToT(s))
  }

  /** No format reads `data`, it has one `T`, and the time part has neither hour 24 nor a `.`. */
  predicate FallsOffEnd(m: Matcher, data: string) {
    && FirstMatch(m, FORMATS, data).None? && Count(data, 'T') == 1
    && !StartsWith(data[IndexOf(data, 'T') + 1..], "24") && '.' !in data[IndexOf(data, 'T') + 1..]
  }

  /** The dispatcher once spaces have been rewritten: everything from line 113 on. */
  function ParseData(m: Matcher, data: string): (r: Result<Option<DateTime>, ParseError>)
    ensures ValidMatcher(m) && r.Ok? && r.value.Some? ==> r.value.value.Valid()
    ensures FirstMatch(m, FORMATS, data).Some? ==> r == Ok(FirstMatch(m, FORMATS, data))
    ensures r.Err? ==> r.error in {UnpackMismatch, MidnightOnly, FractionNotLast, TypeMismatch, Overflow}
    ensures r == Ok(None) ==> FallsOffEnd(m, data)
    decreases |data|, DataRank(data), 0
  {
    match FirstMatch(m, FORMATS, data)
    case Some(dt) => Ok(Some(dt))
    case None =>
      match Classify(data)
      case NotOneT => Err(UnpackMismatch)
      case Hour24(next) =>
        (match ParseDateTime(m, next)
         case Err(e) => Err(e)
         case Ok(None) => Err(TypeMismatch)
         case Ok(Some(dt)) => AddMidnightDay(dt))
      case BadFraction => Err(FractionNotLast)
      case Fraction(head, digits, colons) =>
        (match ParseDateTime(m, head)
         case Err(e) => Err(e)
         case Ok(None) => Err(TypeMismatch)
         case Ok(Some(dt)) => AddFraction(dt, digits, colons))
      case NoFraction => Ok(None)
  }

  /** Lines 121-123: one day is added, and anything but midnight is refused afterwards. */
  function AddMidnightDay(dt: DateTime): (r: Result<Option<DateTime>, ParseError>)
    ensures r.Ok? ==> r.value.Some?
    ensures dt.Valid() && r.Ok? ==> r.value.value.Valid()
    ensures r.Err? ==> r.error in {MidnightOnly, Overflow}
  {
    match AddDelta(dt, DaysDelta(1))
    case None => Err(Overflow)
    case Some(result) =>
      if result.minute != 0 || result.second != 0 || result.microsecond != 0 then Err(MidnightOnly)
      else Ok(Some(result))
  }

  /**
   * Line 141: the fraction is added as hours, minutes or seconds by the number of colons;
   * with more than two colons it stays a `float`, and `datetime + float` is a `TypeError`.
   */
  function AddFraction(dt: DateTime, fraction: string, colons: nat): (r: Result<Option<DateTime>, ParseError>)
    requires AllDigits(fraction)
    ensures r.Ok? ==> r.value.Some?
    ensures dt.Valid() && r.Ok? ==> r.value.value.Valid()
    ensures r.Err? ==> r.error in {TypeMismatch, Overflow}
  {
    if colons > 2 then Err(TypeMismatch)
    else
      match AddDelta(dt, FractionDelta(fraction, colons))
      case None => Err(Overflow)
      case Some(result) => Ok(Some(result))
  }

  /** A result of `parse` on text without `P`: a datetime, or `None` from falling off the end. */
  predicate DateTimeOrNone(p: Parsed) {
    p.NoneResult? || (p.Single? && p.value.DateTimeVal?)
  }

  /**
   * `parse` on text: a `P` splits off a duration, anything else goes to `ParseDateTime`.
   * Text without `P` never gives a bare date; text with one `P` gives a timedelta, or a pair
   * whose start is a datetime or `None` (pairs never nest); two `P`s fail to unpack.
   */
  function ParseText(m: Matcher, s: string): (r: Result<Parsed, ParseError>)
    ensures Count(s, 'P') > 1 ==> r == Err(UnpackMismatch)
    ensures 'P' !in s && r.Ok? ==> DateTimeOrNone(r.value)
    ensures 'P' in s && r.Ok? ==>
      (r.value.Single? && r.value.value.DeltaVal?) || (r.value.Pair? && DateTimeOrNone(r.value.start))
    ensures 'P' !in s && r.Err? ==> r.error in {UnpackMismatch, MidnightOnly, FractionNotLast, TypeMismatch, Overflow}
    decreases |s|
  {
    if 'P' in s then
      if Count(s, 'P') != 1 then Err(UnpackMismatch)
      else
        var k := IndexOf(s, 'P');
        var start, duration := s[..k], s[k + 1..];
        if start != "" then
          match ParseText(m, start)
          case Err(e) => Err(e)
          case Ok(first) =>
            match ParseDuration(duration)
            case Err(e) => Err(e)
            case Ok(td) => Ok(Pair(first, td))
        else
          match ParseDuration(duration)
          case Err(e) => Err(e)
          case Ok(td) => Ok(Single(DeltaVal(td)))
    else
      match ParseDateTime(m, s)
      case Err(e) => Err(e)
      case Ok(None) => Ok(NoneResult)
      case Ok(Some(dt)) => Ok(Single(DateTimeVal(dt)))
  }

  /**
   * `parse(data)`: dates, datetimes and timedeltas (`PARSED_CLASSES`; a datetime is a date)
   * are returned as they are; a `time` is not, and `'P' in data` raises `TypeError` on it.
   */
  function Parse(m: Matcher, input: ParseInput): (r: Result<Parsed, ParseError>)
    ensures input.Given? && !input.value.TimeVal? ==> r == Ok(Single(input.value))
    ensures input.Given? && input.value.TimeVal? ==> r == Err(TypeMismatch)
  {
    match input
    case Given(v) => if v.TimeVal? then Err(TypeMismatch) else Ok(Single(v))
    case Text(s) => ParseText(m, s)
  }

  /** `parse_date`: a datetime result is cut down to its date; anything else is returned unchanged. */
  function ParseDate(m: Matcher, input: ParseInput): (r: Result<Parsed, ParseError>)
    ensures (Parse(m, input).Ok? && Parse(m, input).value.Single? && Parse(m, input).value.value.DateTimeVal?)
            ==> r == Ok(Single(DateVal(Parse(m, input).value.value.dt.date)))
    ensures !(Parse(m, input).Ok? && Parse(m, input).value.Single? && Parse(m, input).value.value.DateTimeVal?)
            ==> r == Parse(m, input)
  {
    match Parse(m, input)
    case Ok(Single(DateTimeVal(dt))) => Ok(Single(DateVal(dt.date)))
    case other => other
  }

  /** `parse_time`: a datetime result is cut down to its time of day; anything else is returned unchanged. */
  function ParseTime(m: Matcher, input: ParseInput): (r: Result<Parsed, ParseError>)
    ensures (Parse(m, input).Ok? && Parse(m, input).value.Single? && Parse(m, input).value.value.DateTimeVal?)
            ==> r == Ok(Single(TimeVal(Parse(m, input).value.value.dt.TimeOfDay())))
    ensures !(Parse(m, input).Ok? && Parse(m, input).value.Single? && Parse(m, input).value.value.DateTimeVal?)
            ==> r == Parse(m, input)
  {
    match Parse(m, input)
    case Ok(Single(DateTimeVal(dt))) => Ok(Single(TimeVal(dt.TimeOfDay())))
    case other => other
  }

  // ----- facts the dispatcher relies on -----

  /** With exactly one `T`, `replace('T24', 'T00')` rewrites just the hour after it. */
  lemma MidnightRewrite(data: string)
    requires MidnightShape(data)
    ensures var i := IndexOf(data, 'T');
      && ReplaceAll(data, "T24", "T00") == data[..i] + ("T00" + data[i + 3..])
      && SpaceToT(ReplaceAll(data, "T24", "T00")) == ReplaceAll(data, "T24", "T00")
      && !MidnightShape(ReplaceAll(data, "T24", "T00"))
      && |ReplaceAll(data, "T24", "T00")| == |data|
  {
    var i := IndexOf(data, 'T');
    var pre, tail := data[..i], data[i + 3..];
    assert data == pre + ("T24" + tail);
    SingleT(pre, "T24", tail);
    ReplaceAllSkip(pre, "T24" + tail, "T24", "T00");
    assert ("T24" + tail)[..3] == "T24";
    assert ("T24" + tail)[3..] == tail;
    ReplaceAllAbsent(tail, "T24", "T00");
    var next := pre + ("T00" + tail);
    assert ReplaceAll(data, "T24", "T00") == next;
    RebuiltSingleT(pre, tail);
  }

  /** In `pre + mid + tail` with one `T`, all of it in `mid`, the other two parts have none. */
  lemma SingleT(pre: string, mid: string, tail: string)
    requires Count(pre + (mid + tail), 'T') == 1 && Count(mid, 'T') == 1 && 'T' !in pre
    ensures 'T' !in tail
  {
    CountAppend(pre, mid + tail, 'T');
    CountAppend(mid, tail, 'T');
  }

  /** After the rewrite the hour after the only `T` reads `00`. */
  lemma RebuiltSingleT(pre: string, tail: string)
    requires 'T' !in pre && 'T' !in tail
    ensures var next := pre + ("T00" + tail);
      && Count(next, 'T') == 1 && IndexOf(next, 'T') == |pre|
      && 'T' in next && !StartsWith(next[|pre| + 1..], "24")
  {
    var next := pre + ("T00" + tail);
    CountAppend(pre, "T00" + tail, 'T');
    CountAppend("T00", tail, 'T');
    assert Count("T00", 'T') == 1;
    assert next[..|pre|] == pre;
    NoEarlierIndex(next, 'T', |pre|);
    assert next[|pre| + 1..][..2] == "00";
  }

  lemma {:induction false} NoEarlierIndex(s: string, c: char, i: nat)
    requires i < |s| && s[i] == c && c !in s[..i]
    ensures IndexOf(s, c) == i
  {
    if i > 0 {
      assert s[0] == s[..i][0];
      assert s[1..][i - 1] == s[i];
      assert s[1..][..i - 1] == s[..i][1..];
      NoEarlierIndex(s[1..], c, i - 1);
    }
  }

  /** A `.` in the time part is a `.` of the whole text. */
  lemma DotInTimePart(data: string, i: nat)
    requires i < |data| && Count(data[i + 1..], '.') >= 1
    ensures '.' in data
  {
    var k := IndexOf(data[i + 1..], '.');
    assert data[i + 1 + k] == '.';
  }
}
