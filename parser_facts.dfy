/** Properties of the parser model: what `parse`, `parse_duration` and friends promise. */
module ParserFacts {
  import opened Wrappers
  import opened Strings
  import opened Digits
  import opened Calendar
  import opened DurationGrammar
  import opened Parser

  // ----- durations -----

  /** A group present with value zero counts the same as an absent one. */
  lemma PartsGet(syn: DurationSyntax, u: DurationUnit)
    requires WellFormed(syn)
    ensures Get(Parts(syn), u) == FieldValue(syn, u)
  {
  }

  /**
   * `parse_duration` on any text the grammar matches and that does not end in `T`: a non-zero
   * year or month group is refused, zero ones are dropped, and the result is the timedelta of
   * 604800 W + 86400 D + 3600 H + 60 M + S seconds (unless it is beyond `timedelta.max`).
   */
  lemma ParseDurationOfPath(syn: DurationSyntax)
    requires WellFormed(syn) && Render(syn) != "" && Render(syn)[|Render(syn)| - 1] != 'T'
    ensures ParseDuration(Render(syn)) ==
      if FieldValue(syn, Years) != 0 || FieldValue(syn, Months) != 0 then Err(YearMonthUnsupported)
      else if !TimeDelta(SyntaxSeconds(syn) * SECOND_US).Valid() then Err(Overflow)
      else Ok(TimeDelta(SyntaxSeconds(syn) * SECOND_US))
  {
    var p := Parts(syn);
    assert DurationParts(Render(syn)) == Ok(p) by {
      RecognizeComplete(syn);
      RecognizeDecides(Render(syn));
    }
    assert PartsSeconds(p) == SyntaxSeconds(syn) by {
      PartsGet(syn, Weeks);
      PartsGet(syn, Days);
      PartsGet(syn, Hours);
      PartsGet(syn, Minutes);
      PartsGet(syn, Seconds);
    }
    assert (Years in p || Months in p) == (FieldValue(syn, Years) != 0 || FieldValue(syn, Months) != 0);
  }

  /** Text the grammar does not match, or that ends in `T`, is refused quoting the text after `P`. */
  lemma DurationMismatchCases(s: string)
    requires s != ""
    requires !MatchesDurationRegex(s) || s[|s| - 1] == 'T'
    ensures ParseDuration(s) == Err(DurationMismatch(s))
    ensures Message(ParseDuration(s).error) == "'P" + s + "' does not match ISO8601 format"
  {
  }

  // ----- splitting on P -----

  /** `P` with nothing after it: `duration[-1]` raises `IndexError`, not the format error. */
  lemma BareP(m: Matcher)
    ensures Parse(m, Text("P")) == Err(EmptyDurationIndex)
  {
    assert Count("P", 'P') == 1;
    assert IndexOf("P", 'P') == 0;
    assert "P"[1..] == "";
  }


  /**
   * Text with exactly one `P` is split there: an empty start gives the bare duration, a
   * non-empty one the pair of the parsed start and the duration, start first.
   */
  lemma SplitOnP(m: Matcher, start: string, duration: string)
    requires 'P' !in start && 'P' !in duration
    ensures var s := start + "P" + duration;
      Parse(m, Text(s)) ==
        if start == "" then
          match ParseDuration(duration)
          case Err(e) => Err(e)
          case Ok(td) => Ok(Single(DeltaVal(td)))
        else
          match ParseText(m, start)
          case Err(e) => Err(e)
          case Ok(first) =>
            match ParseDuration(duration)
            case Err(e) => Err(e)
            case Ok(td) => Ok(Pair(first, td))
  {
    OnlyP(start, duration);
  }

  /** Where the only `P` of the text is, and what lies on either side of it. */
  lemma OnlyP(start: string, duration: string)
    requires 'P' !in start && 'P' !in duration
    ensures var s := start + "P" + duration;
      && 'P' in s && Count(s, 'P') == 1 && IndexOf(s, 'P') == |start|
      && s[..|start|] == start && s[|start| + 1..] == duration
  {
    var s := start + "P" + duration;
    assert s == start + ("P" + duration);
    CountAppend(start, "P" + duration, 'P');
    CountAppend("P", duration, 'P');
    assert Count("P", 'P') == 1;
    assert Count(start, 'P') == 0 && Count(duration, 'P') == 0;
    assert s[|start|] == 'P' && s[..|start|] == start;
    NoEarlierIndex(s, 'P', |start|);
    assert s[|start| + 1..] == duration;
  }

  // ----- the date and time dispatcher -----

  /** Without a `T`, spaces read as `T`: '2010-01-01 00:00:00' parses as '2010-01-01T00:00:00'. */
  lemma SpaceIsT(m: Matcher, s: string)
    requires 'P' !in s && 'T' !in s
    ensures Parse(m, Text(s)) == Parse(m, Text(ReplaceChar(s, ' ', 'T')))
  {
    var t := ReplaceChar(s, ' ', 'T');
    assert 'P' !in t && ' ' !in t by {
      forall i | 0 <= i < |t| ensures t[i] != 'P' && t[i] != ' ' {
        assert t[i] == (if s[i] == ' ' then 'T' else s[i]);
      }
    }
    assert ReplaceChar(t, ' ', 'T') == t;
    assert SpaceToT(t) == SpaceToT(s);
  }


  /** The first format that matches decides the result, whatever the text looks like. */
  lemma FormatMatched(m: Matcher, s: string, i: nat)
    requires 'P' !in s && i < |FORMATS|
    requires m(FORMATS[i], SpaceToT(s)).Some?
    requires forall j :: 0 <= j < i ==> m(FORMATS[j], SpaceToT(s)).None?
    ensures Parse(m, Text(s)) == Ok(Single(DateTimeVal(m(FORMATS[i], SpaceToT(s)).value)))
  {
    var d := SpaceToT(s);
    var r := FirstMatch(m, FORMATS, d);
    assert r.Some?;
    var k :| 0 <= k < |FORMATS| && m(FORMATS[k], d) == r && forall j :: 0 <= j < k ==> m(FORMATS[j], d).None?;
    assert k == i;
    assert ParseData(m, d) == Ok(Some(r.value));
    assert ParseDateTime(m, s) == ParseData(m, d);
  }

  /** Lines 119-123: hour 24 is read as hour 00 of the next day, and only at midnight. */
  lemma MidnightHour(m: Matcher, s: string)
    requires ValidMatcher(m) && 'P' !in s
    requires FirstMatch(m, FORMATS, SpaceToT(s)).None? && MidnightShape(SpaceToT(s))
    ensures var next := ReplaceAll(SpaceToT(s), "T24", "T00");
      Parse(m, Text(s)) ==
        match ParseDateTime(m, next)
        case Err(e) => Err(e)
        case Ok(None) => Err(TypeMismatch)
        case Ok(Some(dt)) =>
          if dt.date == MAX_DATE then Err(Overflow)
          else if dt.minute != 0 || dt.second != 0 || dt.microsecond != 0 then Err(MidnightOnly)
          else Ok(Single(DateTimeVal(dt.(date := NextDay(dt.date).value))))
  {
    var d := SpaceToT(s);
    var next := ReplaceAll(d, "T24", "T00");
    assert ParseDateTime(m, s) == ParseData(m, d);
    match ParseDateTime(m, next)
    case Err(e) =>
    case Ok(None) =>
    case Ok(Some(dt)) => AddOneDay(dt);
  }

  /** A text no format reads and without exactly one `T` fails to unpack at line 117. */
  lemma NotOneT(m: Matcher, s: string)
    requires 'P' !in s && FirstMatch(m, FORMATS, SpaceToT(s)).None? && Count(SpaceToT(s), 'T') != 1
    ensures Parse(m, Text(s)) == Err(UnpackMismatch)
  {
    assert ParseDateTime(m, s) == ParseData(m, SpaceToT(s));
  }

  /** The time part after the only `T`. */
  function TimePart(d: string): string
    requires Count(d, 'T') == 1
  {
    d[IndexOf(d, 'T') + 1..]
  }

  /** The shape lines 125-143 are about: one `T`, no format matched, no hour 24. */
  predicate FractionBranch(m: Matcher, d: string) {
    FirstMatch(m, FORMATS, d).None? && Count(d, 'T') == 1 && !StartsWith(TimePart(d), "24")
  }

  /**
   * In that shape: two or more dots, or a fraction `float` refuses, are "fractional time may
   * only apply to last component"; no dot at all falls off the end of `parse`, giving `None`.
   */
  lemma FractionErrors(m: Matcher, s: string)
    requires 'P' !in s && FractionBranch(m, SpaceToT(s))
    ensures var tp := TimePart(SpaceToT(s));
      && (Count(tp, '.') > 1 ==> Parse(m, Text(s)) == Err(FractionNotLast))
      && (Count(tp, '.') == 1 && !AllDigits(tp[IndexOf(tp, '.') + 1..]) ==> Parse(m, Text(s)) == Err(FractionNotLast))
      && (Count(tp, '.') == 0 ==> Parse(m, Text(s)) == Ok(NoneResult))
  {
    assert ParseDateTime(m, s) == ParseData(m, SpaceToT(s));
  }

  /**
   * A fraction of the last component is added to what the text before the dot parses to:
   * hours with no colon, minutes with one, seconds with two; the shift is at most one such
   * unit, the timezone is kept, and a third colon is `TypeError` (datetime plus float).
   */
  lemma FractionShift(m: Matcher, s: string, dt: DateTime, fraction: string, colons: nat)
    requires ValidMatcher(m) && 'P' !in s && FractionBranch(m, SpaceToT(s))
    requires FractionOf(TimePart(SpaceToT(s)), fraction, colons)
    requires var d := SpaceToT(s); ParseDateTime(m, d[..IndexOf(d, '.')]) == Ok(Some(dt))
    ensures colons > 2 ==> Parse(m, Text(s)) == Err(TypeMismatch)
    ensures colons <= 2 ==>
      var shifted := dt.Instant() + FractionDelta(fraction, colons).micros;
      var res := Parse(m, Text(s));
      && dt.Instant() <= shifted <= dt.Instant() + FractionUnit(colons)
      && (res.Ok? <==> InstantInRange(shifted))
      && (res.Err? ==> res.error == Overflow)
      && (res.Ok? ==> res.value.Single? && res.value.value.DateTimeVal?
                      && var r := res.value.value.dt; r.Valid() && r.Instant() == shifted && r.tz == dt.tz)
  {
    FractionAdded(m, s, dt, fraction, colons);
    var d := SpaceToT(s);
    assert dt.Valid() by { assert ParseDateTime(m, d[..IndexOf(d, '.')]) == Ok(Some(dt)); }
    if colons <= 2 {
      ShiftFacts(Parse(m, Text(s)), dt, FractionDelta(fraction, colons), FractionUnit(colons));
    }
  }

  /** `tp` has one dot, digits after it, and `colons` colons. */
  predicate FractionOf(tp: string, fraction: string, colons: nat) {
    Count(tp, '.') == 1 && fraction == tp[IndexOf(tp, '.') + 1..] && AllDigits(fraction) && colons == Count(tp, ':')
  }

  lemma ShiftFacts(res: Result<Parsed, ParseError>, dt: DateTime, td: TimeDelta, unit: int)
    requires dt.Valid() && 0 <= td.micros <= unit
    requires res == match AddDelta(dt, td) case None => Err(Overflow) case Some(r) => Ok(Single(DateTimeVal(r)))
    ensures var shifted := dt.Instant() + td.micros;
      && dt.Instant() <= shifted <= dt.Instant() + unit
      && (res.Ok? <==> InstantInRange(shifted))
      && (res.Err? ==> res.error == Overflow)
      && (res.Ok? ==> res.value.Single? && res.value.value.DateTimeVal?
                      && var r := res.value.value.dt; r.Valid() && r.Instant() == shifted && r.tz == dt.tz)
  {
  }

  /** Lines 125-143 with the text before the dot parsed: the fraction goes through `AddDelta`. */
  lemma FractionAdded(m: Matcher, s: string, dt: DateTime, fraction: string, colons: nat)
    requires 'P' !in s && FractionBranch(m, SpaceToT(s))
    requires FractionOf(TimePart(SpaceToT(s)), fraction, colons)
    requires var d := SpaceToT(s); ParseDateTime(m, d[..IndexOf(d, '.')]) == Ok(Some(dt))
    ensures Parse(m, Text(s)) ==
        if colons > 2 then Err(TypeMismatch)
        else match AddDelta(dt, FractionDelta(fraction, colons))
             case None => Err(Overflow)
             case Some(r) => Ok(Single(DateTimeVal(r)))
  {
    assert ParseDateTime(m, s) == ParseData(m, SpaceToT(s));
    FractionData(m, SpaceToT(s), dt, fraction, colons);
  }

  /** The same step on the text after the space rewrite, as `ParseData` takes it. */
  lemma FractionData(m: Matcher, d: string, dt: DateTime, fraction: string, colons: nat)
    requires FractionBranch(m, d) && FractionOf(TimePart(d), fraction, colons)
    requires ParseDateTime(m, d[..IndexOf(d, '.')]) == Ok(Some(dt))
    ensures ParseData(m, d) == AddFraction(dt, fraction, colons)
  {
    FractionShape(d, fraction, colons);
  }

  /** Lines 117-136 let a fraction of the last component through, with the text before the dot. */
  lemma FractionShape(d: string, fraction: string, colons: nat)
    requires Count(d, 'T') == 1 && !StartsWith(TimePart(d), "24") && FractionOf(TimePart(d), fraction, colons)
    ensures '.' in d && Classify(d) == Fraction(d[..IndexOf(d, '.')], fraction, colons)
  {
    var i := IndexOf(d, 'T');
    var tp := d[i + 1..];
    assert tp == TimePart(d);
    DotInTimePart(d, i);
    assert Count(tp, '.') == 1 && Count(tp, ':') == colons;
    assert AllDigits(tp[IndexOf(tp, '.') + 1..]) && tp[IndexOf(tp, '.') + 1..] == fraction;
    var t := Classify(d);
    assert t.Fraction?;
    assert t.head == d[..IndexOf(d, '.')] && t.digits == fraction && t.colons == colons;
  }

  /** `float("0.5")`: half of the unit the fraction applies to. */
  lemma HalfUnit(colons: nat)
    requires colons <= 2
    ensures FractionDelta("5", colons).micros == FractionUnit(colons) / 2
  {
    assert "5"[..0] == "";
    assert DigitsToNat("5") == 5;
    assert Pow10(1) == 10;
  }

  /** Trailing zeros of a fraction change nothing: `float("0.50") == float("0.5")`. */
  lemma FractionTrailingZeros(ds: string, k: nat, colons: nat)
    requires AllDigits(ds) && colons <= 2
    ensures AllDigits(ds + Zeros(k))
    ensures FractionDelta(ds + Zeros(k), colons) == FractionDelta(ds, colons)
  {
    DigitsToNatAppend(ds, Zeros(k));
    ZerosValue(k);
    Pow10Add(|ds|, k);
    var n, p, z, u := DigitsToNat(ds), Pow10(|ds|), Pow10(k), FractionUnit(colons);
    var ds' := ds + Zeros(k);
    assert DigitsToNat(ds') == n * z && Pow10(|ds'|) == p * z by {
      assert |ds'| == |ds| + k;
    }
    ScaledFraction(n, u, p, z);
    FractionDeltaValue(ds', colons);
    FractionDeltaValue(ds, colons);
  }

  /** The microseconds of a fraction are its exact value in microseconds, rounded. */
  lemma FractionDeltaValue(ds: string, colons: nat)
    requires AllDigits(ds) && colons <= 2
    ensures FractionDelta(ds, colons).micros == RoundHalfEven(DigitsToNat(ds) * FractionUnit(colons), Pow10(|ds|))
  {
  }

  /** A fraction `n / p` of a unit `u`, written with its numerator and denominator scaled by `z`. */
  lemma ScaledFraction(n: nat, u: nat, p: nat, z: nat)
    requires p > 0 && z > 0
    ensures RoundHalfEven((n * z) * u, p * z) == RoundHalfEven(n * u, p)
  {
    assert (n * z) * u == (n * u) * z;
    RoundScale(n * u, p, z);
  }

  /** Scaling numerator and denominator alike does not change the rounded quotient. */
  lemma RoundScale(a: nat, b: nat, z: nat)
    requires b > 0 && z > 0
    ensures RoundHalfEven(a * z, b * z) == RoundHalfEven(a, b)
  {
    var q, rem := a / b, a % b;
    assert a * z == q * (b * z) + rem * z;
    assert 0 <= rem * z < b * z;
    DivModUnique(a * z, b * z, q, rem * z);
    assert 2 * (rem * z) - b * z == (2 * rem - b) * z;
    SignOfProduct(2 * rem - b, z);
  }

  /** A product with a positive factor has the sign of the other factor. */
  lemma SignOfProduct(x: int, z: int)
    requires z > 0
    ensures (x * z > 0 <==> x > 0) && (x * z < 0 <==> x < 0)
  {
  }

  /** `.9999999` of a second is rounded up to a whole second, as `timedelta` rounds it. */
  lemma FractionRoundsToWholeSecond()
    ensures AllDigits(NatToDigits(9_999_999))
    ensures FractionDelta(NatToDigits(9_999_999), 2).micros == SECOND_US
  {
    SevenDigits(9_999_999);
  }

  /** `.1234567` of a second is 123457 microseconds: the seventh digit rounds up. */
  lemma FractionRoundsToNearest()
    ensures AllDigits(NatToDigits(1_234_567))
    ensures FractionDelta(NatToDigits(1_234_567), 2).micros == 123_457
  {
    SevenDigits(1_234_567);
  }

  lemma SevenDigits(n: nat)
    requires 1_000_000 <= n < 10_000_000
    ensures DigitsToNat(NatToDigits(n)) == n && Pow10(|NatToDigits(n)|) == 10_000_000
  {
    NatToDigitsRoundTrip(n);
    NatToDigitsLength(n, 7);
    NatToDigitsLength(n, 6);
    assert Pow10(6) == 1_000_000;
    assert Pow10(7) == 10_000_000;
  }

  /** Every datetime and timedelta inside a parse result is a legal value. */
  predicate ParsedValid(p: Parsed) {
    match p
    case Single(v) => (v.DateTimeVal? ==> v.dt.Valid()) && (v.DeltaVal? ==> v.delta.Valid())
    case NoneResult => true
    case Pair(start, td) => ParsedValid(start) && td.Valid()
  }

  /** Whatever strptime returns being legal, so is everything `parse` builds from text. */
  lemma {:induction false} TextResultsValid(m: Matcher, s: string)
    requires ValidMatcher(m)
    ensures ParseText(m, s).Ok? ==> ParsedValid(ParseText(m, s).value)
    decreases |s|
  {
    if 'P' in s && Count(s, 'P') == 1 {
      var k := IndexOf(s, 'P');
      if s[..k] != "" {
        TextResultsValid(m, s[..k]);
      }
    }
  }

  // ----- the duration examples of the `parse` docstring, for any numbers -----

  /** The syntax of a duration with only a days group. */
  function DaysOnly(ds: string): DurationSyntax {
    DurationSyntax(false, None, None, None, Some(ds), None, false)
  }

  /** Decimal digits are never a `P`. */
  lemma NumeralNoP(ds: string)
    requires AllDigits(ds)
    ensures 'P' !in ds
  {
    forall i | 0 <= i < |ds| ensures ds[i] != 'P' {
      assert IsDigit(ds[i]);
    }
  }

  /** `parse('P<n>D')`, as in `P7D` and `P14D`: `timedelta(days=n)`, or `OverflowError` past its range. */
  lemma DaysDuration(m: Matcher, n: nat)
    ensures Parse(m, Text("P" + NatToDigits(n) + "D")) ==
      if n <= MAX_DELTA_DAYS then Ok(Single(DeltaVal(DaysDelta(n)))) else Err(Overflow)
  {
    var ds := NatToDigits(n);
    var syn := DaysOnly(ds);
    PrefixP(ds + "D");
    assert "P" + ds + "D" == "P" + (ds + "D");
    DaysOnlyValue(n);
    NumeralNoP(ds);
    SplitOnP(m, "", ds + "D");
    ParseDurationOfPath(syn);
  }

  /** A text that starts with its only `P` splits with an empty start. */
  lemma PrefixP(rest: string)
    ensures "P" + rest == "" + "P" + rest
  {
  }

  lemma DaysOnlyValue(n: nat)
    ensures var syn := DaysOnly(NatToDigits(n));
      && WellFormed(syn) && Render(syn) == NatToDigits(n) + "D"
      && FieldValue(syn, Years) == 0 && FieldValue(syn, Months) == 0
      && TimeDelta(SyntaxSeconds(syn) * SECOND_US) == DaysDelta(n)
  {
    NatToDigitsRoundTrip(n);
  }

  /** The syntax of `<d>DT<h>H`. */
  function DaysHours(ds: string, hs: string): DurationSyntax {
    DurationSyntax(false, None, None, None, Some(ds), Some(TimeSection(Some(hs), None, None)), false)
  }

  /**
   * `parse('P<d>DT<h>H')`, as in `P1DT2H`: `d` days and `h` hours; below 24 hours these are
   * the `days` and `seconds` fields of the timedelta.
   */
  lemma DaysHoursDuration(m: Matcher, d: nat, h: nat)
    ensures var td := TimeDelta((d * 86_400 + h * 3600) * SECOND_US);
      && Parse(m, Text("P" + NatToDigits(d) + "DT" + NatToDigits(h) + "H")) ==
           (if td.Valid() then Ok(Single(DeltaVal(td))) else Err(Overflow))
      && (h < 24 ==> td.Days() == d && td.Seconds() == h * 3600 && td.Microseconds() == 0)
  {
    var ds, hs := NatToDigits(d), NatToDigits(h);
    var text := ds + "DT" + hs + "H";
    LeadingP(ds, "DT", hs, "H");
    PrefixP(text);
    NumeralNoP(ds);
    NumeralNoP(hs);
    assert 'P' !in text;
    DaysHoursValue(d, h);
    SplitOnP(m, "", text);
    ParseDurationOfPath(DaysHours(ds, hs));
    if h < 24 {
      DaysHoursFields(d, h);
    }
  }

  lemma LeadingP(a: string, b: string, c: string, e: string)
    ensures "P" + a + b + c + e == "P" + (a + b + c + e)
  {
  }

  lemma DaysHoursFields(d: nat, h: nat)
    requires h < 24
    ensures var td := TimeDelta((d * 86_400 + h * 3600) * SECOND_US);
      td.Days() == d && td.Seconds() == h * 3600 && td.Microseconds() == 0
  {
    var r := h * 3600 * SECOND_US;
    assert (d * 86_400 + h * 3600) * SECOND_US == d * DAY_US + r;
    DaySplit(d, r);
    assert r % SECOND_US == 0 && r / SECOND_US == h * 3600;
    assert (d * DAY_US + r) % SECOND_US == 0 by {
      assert d * DAY_US + r == (d * 86_400 + h * 3600) * SECOND_US;
    }
  }

  lemma DaysHoursValue(d: nat, h: nat)
    ensures var syn := DaysHours(NatToDigits(d), NatToDigits(h));
      && WellFormed(syn) && Render(syn) == NatToDigits(d) + "DT" + NatToDigits(h) + "H"
      && FieldValue(syn, Years) == 0 && FieldValue(syn, Months) == 0
      && SyntaxSeconds(syn) * SECOND_US == (d * 86_400 + h * 3600) * SECOND_US
  {
    DaysHoursRender(NatToDigits(d), NatToDigits(h));
    DaysHoursSeconds(d, h);
  }

  lemma DaysHoursRender(ds: string, hs: string)
    ensures Render(DaysHours(ds, hs)) == ds + "DT" + hs + "H"
  {
    assert Render(DaysHours(ds, hs)) == ds + ("D" + ("T" + (hs + "H")));
  }

  lemma DaysHoursSeconds(d: nat, h: nat)
    ensures var syn := DaysHours(NatToDigits(d), NatToDigits(h));
      && WellFormed(syn) && FieldValue(syn, Years) == 0 && FieldValue(syn, Months) == 0
      && SyntaxSeconds(syn) == d * 86_400 + h * 3600
  {
    NatToDigitsRoundTrip(d);
    NatToDigitsRoundTrip(h);
  }

  lemma DaySplit(d: nat, r: nat)
    requires r < DAY_US
    ensures (d * DAY_US + r) / DAY_US == d && (d * DAY_US + r) % DAY_US == r
  {
  }

  /** `parse('P<d>DT')`, as in `P1DT`: a `T` with no time group after it does not match. */
  lemma DanglingT(m: Matcher, d: nat)
    ensures Parse(m, Text("P" + NatToDigits(d) + "DT")) == Err(DurationMismatch(NatToDigits(d) + "DT"))
  {
    var text := NatToDigits(d) + "DT";
    assert "P" + NatToDigits(d) + "DT" == "P" + text;
    PrefixP(text);
    NumeralNoP(NatToDigits(d));
    assert 'P' !in text;
    SplitOnP(m, "", text);
    DurationMismatchCases(text);
  }

  /** `parse('P<d>D<h>H')`, as in `P1D2H`: an hour group needs the `T` before it. */
  lemma HoursWithoutT(m: Matcher, d: nat, h: nat)
    ensures Parse(m, Text("P" + NatToDigits(d) + "D" + NatToDigits(h) + "H")) ==
      Err(DurationMismatch(NatToDigits(d) + "D" + NatToDigits(h) + "H"))
  {
    var ds, hs := NatToDigits(d), NatToDigits(h);
    var text := ds + "D" + hs + "H";
    LeadingP(ds, "D", hs, "H");
    PrefixP(text);
    NumeralNoP(ds);
    NumeralNoP(hs);
    assert 'P' !in text;
    SplitOnP(m, "", text);
    HoursWithoutTBody(ds, hs);
  }

  lemma HoursWithoutTBody(ds: string, hs: string)
    requires IsNumeral(ds) && IsNumeral(hs)
    ensures ParseDuration(ds + "D" + hs + "H") == Err(DurationMismatch(ds + "D" + hs + "H"))
  {
    var text := ds + "D" + hs + "H";
    assert text == ds + "D" + (hs + "H");
    DigitsAfterDays(ds, hs + "H");
    DurationMismatchCases(text);
  }

  /** `parse('P<y>Y')`, as in `P1Y`: a year count is refused, but zero years is an empty timedelta. */
  lemma YearsDuration(m: Matcher, y: nat)
    ensures Parse(m, Text("P" + NatToDigits(y) + "Y")) ==
      if y == 0 then Ok(Single(DeltaVal(TimeDelta(0)))) else Err(YearMonthUnsupported)
  {
    var ys := NatToDigits(y);
    assert "P" + ys + "Y" == "P" + (ys + "Y");
    PrefixP(ys + "Y");
    NumeralNoP(ys);
    YearsValue(y);
    SplitOnP(m, "", ys + "Y");
    ParseDurationOfPath(YearsOnly(ys));
  }

  function YearsOnly(ys: string): DurationSyntax {
    DurationSyntax(false, Some(ys), None, None, None, None, false)
  }

  lemma YearsValue(y: nat)
    ensures var syn := YearsOnly(NatToDigits(y));
      && WellFormed(syn) && Render(syn) == NatToDigits(y) + "Y"
      && FieldValue(syn, Years) == y && FieldValue(syn, Months) == 0 && SyntaxSeconds(syn) == 0
  {
    NatToDigitsRoundTrip(y);
  }

  /** A zero year group is dropped like an absent one: `P0Y<n>D` is `P<n>D`. */
  lemma ZeroYearsDropped(m: Matcher, n: nat)
    ensures Parse(m, Text("P0Y" + NatToDigits(n) + "D")) == Parse(m, Text("P" + NatToDigits(n) + "D"))
  {
    ZeroYearsDuration(m, n);
    DaysDuration(m, n);
  }

  lemma ZeroYearsDuration(m: Matcher, n: nat)
    ensures Parse(m, Text("P0Y" + NatToDigits(n) + "D")) ==
      if n <= MAX_DELTA_DAYS then Ok(Single(DeltaVal(DaysDelta(n)))) else Err(Overflow)
  {
    var ds := NatToDigits(n);
    var text := "0Y" + ds + "D";
    assert "P0Y" + ds + "D" == "P" + text;
    PrefixP(text);
    NumeralNoP(ds);
    assert 'P' !in text;
    SplitOnP(m, "", text);
    ZeroYearsBody(n);
  }

  lemma ZeroYearsBody(n: nat)
    ensures ParseDuration("0Y" + NatToDigits(n) + "D") ==
      if n <= MAX_DELTA_DAYS then Ok(DaysDelta(n)) else Err(Overflow)
  {
    ZeroYearsValue(n);
    ParseDurationOfPath(ZeroYearsDays(NatToDigits(n)));
  }

  function ZeroYearsDays(ds: string): DurationSyntax {
    DurationSyntax(false, Some("0"), None, None, Some(ds), None, false)
  }

  lemma ZeroYearsValue(n: nat)
    ensures var syn := ZeroYearsDays(NatToDigits(n));
      && WellFormed(syn) && Render(syn) == "0Y" + NatToDigits(n) + "D"
      && FieldValue(syn, Years) == 0 && FieldValue(syn, Months) == 0
      && TimeDelta(SyntaxSeconds(syn) * SECOND_US) == DaysDelta(n)
  {
    NatToDigitsRoundTrip(n);
    assert DigitsToNat("0") == 0;
  }
}
