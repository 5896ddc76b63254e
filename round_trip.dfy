/**
 * The formatter and the parser together: a duration written by `format_timedelta` reads
 * back through `parse` as the same timedelta, for every positive whole-second timedelta.
 */
module RoundTrip {
  import opened Wrappers
  import opened Strings
  import opened Digits
  import opened Calendar
  import opened DurationGrammar
  import opened Parser
  import opened ParserFacts
  import opened Formatter

  /** The group of a written amount: its digits when it is not zero, absent otherwise. */
  function Written(n: int): Option<string> {
    if n > 0 then Some(NatToDigits(n)) else None
  }

  /** The path through the duration grammar that the text of a non-negative timedelta takes. */
  function DesignatedPath(td: TimeDelta): DurationSyntax
    requires td.micros >= 0
  {
    var s := td.Seconds();
    DurationSyntax(false, None, None, Written(WholeWeeks(td)), Written(SpareDays(td)),
      if s == 0 then None else Some(TimeSection(Written(s / 3600), Written(s % 3600 / 60), Written(s % 60))),
      false)
  }

  lemma GroupSegment(n: nat, c: char, rest: string)
    ensures Group(Written(n), c, rest) == Segment(n, c) + rest
  {
    if n > 0 {
      var ds := NatToDigits(n);
      assert Segment(n, c) == ds + [c];
      assert Group(Written(n), c, rest) == ds + ([c] + rest);
      AppendAssoc(ds, [c], rest);
    } else {
      assert Segment(n, c) == "";
      assert "" + rest == rest;
    }
  }

  lemma WrittenValue(n: nat)
    ensures Written(n).Some? ==> IsNumeral(Written(n).value) && DigitsToNat(Written(n).value) == n
  {
    if n > 0 {
      NatToDigitsRoundTrip(n);
    }
  }

  /**
   * The text of a non-negative timedelta is `P` followed by the grammar's rendering of its
   * designated path: the formatter writes only what the duration grammar reads.
   */
  lemma TextIsRender(td: TimeDelta)
    requires td.micros >= 0
    ensures WellFormed(DesignatedPath(td))
    ensures TimedeltaText(td) == "P" + Render(DesignatedPath(td))
  {
    var syn := DesignatedPath(td);
    var w, d := WholeWeeks(td), SpareDays(td);
    WrittenValue(w);
    WrittenValue(d);
    var clock := TimeText(syn.time, "");
    ClockRender(td.Seconds());
    GroupSegment(d, 'D', clock);
    GroupSegment(w, 'W', Segment(d, 'D') + clock);
    assert Render(syn) == Segment(w, 'W') + (Segment(d, 'D') + clock);
    AppendAssoc4("P", Segment(w, 'W'), Segment(d, 'D'), clock);
  }

  /** The clock part of the path renders as the `T` section the formatter writes. */
  lemma ClockRender(s: int)
    requires 0 <= s
    ensures var t := if s == 0 then None else Some(TimeSection(Written(s / 3600), Written(s % 3600 / 60), Written(s % 60)));
      && (t.Some? ==> GroupOk(t.value.hours) && GroupOk(t.value.minutes) && GroupOk(t.value.seconds))
      && TimeText(t, "") == ClockText(s)
  {
    WrittenValue(s / 3600);
    WrittenValue(s % 3600 / 60);
    WrittenValue(s % 60);
    if s != 0 {
      var sh, sm, ss := Segment(s / 3600, 'H'), Segment(s % 3600 / 60, 'M'), Segment(s % 60, 'S');
      GroupSegment(s % 60, 'S', "");
      assert ss + "" == ss;
      GroupSegment(s % 3600 / 60, 'M', ss);
      GroupSegment(s / 3600, 'H', sm + ss);
      AppendAssoc4("T", sh, sm, ss);
    }
  }

  lemma AppendAssoc4(a: string, b: string, c: string, e: string)
    ensures a + (b + (c + e)) == a + b + c + e
  {
  }

  /** The last letter of a text is the last letter of its last non-empty piece. */
  lemma LastOf(a: string, b: string)
    requires b != ""
    ensures (a + b)[|a + b| - 1] == b[|b| - 1]
  {
  }

  /** `format_timedelta` never ends its text with `T`: the time designator is only written with an amount. */
  lemma TextNotEndingInT(td: TimeDelta)
    ensures var text := TimedeltaText(td); text[|text| - 1] != 'T'
  {
    var s := td.Seconds();
    var w, d := Segment(WholeWeeks(td), 'W'), Segment(SpareDays(td), 'D');
    var text := TimedeltaText(td);
    if s != 0 {
      var sh, sm, ss := Segment(s / 3600, 'H'), Segment(s % 3600 / 60, 'M'), Segment(s % 60, 'S');
      assert s == 3600 * (s / 3600) + 60 * (s % 3600 / 60) + s % 60;
      var clock := ClockText(s);
      assert text == "P" + w + d + clock;
      LastOf("P" + w + d, clock);
      if ss != "" {
        LastOf("T" + sh + sm, ss);
      } else if sm != "" {
        assert clock == "T" + sh + sm;
        LastOf("T" + sh, sm);
      } else {
        assert clock == "T" + sh;
        LastOf("T", sh);
      }
    } else {
      assert text == "P" + w + d;
      if d != "" {
        LastOf("P" + w, d);
      } else if w != "" {
        assert text == "P" + w;
        LastOf("P", w);
      }
    }
  }

  /** The seconds the designated path denotes are the seconds of the timedelta. */
  lemma PathSeconds(td: TimeDelta)
    requires td.micros >= 0 && td.Microseconds() == 0
    ensures WellFormed(DesignatedPath(td))
    ensures FieldValue(DesignatedPath(td), Years) == 0 && FieldValue(DesignatedPath(td), Months) == 0
    ensures TimeDelta(SyntaxSeconds(DesignatedPath(td)) * SECOND_US) == td
  {
    var syn := DesignatedPath(td);
    TextIsRender(td);
    assert SyntaxSeconds(syn) == td.Days() * 86_400 + td.Seconds() by {
      DateSeconds(td);
      ClockSeconds(td);
    }
    Decompose(td);
  }

  lemma DateSeconds(td: TimeDelta)
    requires td.micros >= 0
    ensures WellFormed(DesignatedPath(td))
    ensures var syn := DesignatedPath(td); 7 * FieldValue(syn, Weeks) + FieldValue(syn, Days) == td.Days()
  {
    TextIsRender(td);
    WrittenValue(WholeWeeks(td));
    WrittenValue(SpareDays(td));
  }

  lemma ClockSeconds(td: TimeDelta)
    requires td.micros >= 0
    ensures WellFormed(DesignatedPath(td))
    ensures var syn := DesignatedPath(td);
      FieldValue(syn, Hours) * 3600 + FieldValue(syn, Minutes) * 60 + FieldValue(syn, Seconds) == td.Seconds()
  {
    var syn := DesignatedPath(td);
    var s := td.Seconds();
    TextIsRender(td);
    if s != 0 {
      assert FieldValue(syn, Hours) == s / 3600 by { WrittenValue(s / 3600); }
      assert FieldValue(syn, Minutes) == s % 3600 / 60 by { WrittenValue(s % 3600 / 60); }
      assert FieldValue(syn, Seconds) == s % 60 by { WrittenValue(s % 60); }
      ClockSplit(s);
    }
  }

  /** Hours, minutes and seconds put back together. */
  lemma ClockSplit(s: int)
    requires 0 <= s
    ensures s / 3600 * 3600 + s % 3600 / 60 * 60 + s % 60 == s
  {
    var r := s % 3600;
    assert s == s / 3600 * 3600 + r;
    assert r == r / 60 * 60 + r % 60;
    assert r % 60 == s % 60 by {
      DivModUnique(s, 60, s / 3600 * 60 + r / 60, r % 60);
    }
  }

  /**
   * The round trip of the formatter and the duration parser: every positive whole-second
   * timedelta in range is read back from the text after `P` as itself.
   */
  lemma DurationRoundTrip(td: TimeDelta)
    requires td.Valid() && td.micros > 0 && td.Microseconds() == 0
    ensures ParseDuration(TimedeltaText(td)[1..]) == Ok(td)
  {
    var syn := DesignatedPath(td);
    var text := TimedeltaText(td);
    TextIsRender(td);
    EmptyDurationText(td);
    Decompose(td);
    assert text != "P";
    assert text[1..] == Render(syn);
    TextNotEndingInT(td);
    LastOf("P", Render(syn));
    PathSeconds(td);
    ParseDurationOfPath(syn);
  }

  /** The same through `parse`: `parse(format(td)) == td`. */
  lemma FormatParseRoundTrip(m: Matcher, td: TimeDelta)
    requires td.Valid() && td.micros > 0 && td.Microseconds() == 0
    ensures Format(Temporal(DeltaVal(td))) == Ok(Some(TimedeltaText(td)))
    ensures Parse(m, Text(TimedeltaText(td))) == Ok(Single(DeltaVal(td)))
  {
    LeadingDuration(m, TimedeltaText(td));
    DurationRoundTrip(td);
  }

  /** A text whose only `P` is its first letter is parsed as the duration after it. */
  lemma LeadingDuration(m: Matcher, text: string)
    requires text != "" && text[0] == 'P' && 'P' !in text[1..]
    ensures Parse(m, Text(text)) ==
      match ParseDuration(text[1..])
      case Err(e) => Err(e)
      case Ok(td) => Ok(Single(DeltaVal(td)))
  {
    HeadTail(text, 'P');
    PrefixP(text[1..]);
    SplitOnP(m, "", text[1..]);
  }

  /** A timedelta of less than a second is written `P`, which `parse` refuses with `IndexError`. */
  lemma ZeroNotReadBack(m: Matcher, td: TimeDelta)
    requires td.Days() == 0 && td.Seconds() == 0
    ensures TimedeltaText(td) == "P"
    ensures Parse(m, Text(TimedeltaText(td))) == Err(EmptyDurationIndex)
  {
    EmptyDurationText(td);
    BareP(m);
  }

  /**
   * A negative timedelta is never read back: from `days` of `-999999995` down, `format`
   * raises `OverflowError` at line 26; otherwise it is written with a leading `-`, which the
   * duration grammar refuses.
   */
  lemma NegativeNotReadBack(m: Matcher, td: TimeDelta)
    requires td.micros < 0
    ensures td.Valid() ==>
      Format(Temporal(DeltaVal(td))) ==
        if td.Days() <= -999_999_995 then Err(DaysOutOfRange) else Ok(Some(TimedeltaText(td)))
    ensures var body := TimedeltaText(td)[1..];
      && body != "" && body[0] == '-'
      && Parse(m, Text(TimedeltaText(td))) == Err(DurationMismatch(body))
  {
    if td.Valid() {
      WeeksOutOfRangeDays(td);
    }
    NegativeBody(td);
    LeadingDuration(m, TimedeltaText(td));
    NegativeMismatch(td);
  }

  lemma NegativeMismatch(td: TimeDelta)
    requires td.micros < 0
    ensures var body := TimedeltaText(td)[1..]; ParseDuration(body) == Err(DurationMismatch(body))
  {
    var body := TimedeltaText(td)[1..];
    NegativeBody(td);
    BadStart(body);
    DurationMismatchCases(body);
  }

  lemma NegativeBody(td: TimeDelta)
    requires td.micros < 0
    ensures var body := TimedeltaText(td)[1..]; body != "" && body[0] == '-'
  {
    var text := TimedeltaText(td);
    var w := WholeWeeks(td);
    assert td.Days() < 0;
    assert w < 0;
    var sw := Segment(w, 'W');
    assert sw == "-" + NatToDigits(-w) + "W";
    assert sw[0] == '-';
    var head := "P" + sw;
    assert head[1] == '-';
    assert text == head + Segment(SpareDays(td), 'D') + ClockText(td.Seconds());
    assert text[1] == '-';
  }

  /**
   * Under Python 3's true division `format_timedelta(timedelta(weeks=k))` writes `P<k>.0W`,
   * which `parse` refuses for every `k` other than zero.
   */
  lemma TrueDivisionNotReadBack(m: Matcher, k: int)
    requires k != 0 && -MAX_DELTA_DAYS <= 7 * k <= MAX_DELTA_DAYS
    ensures var text := WholeWeeksAsWritten(k);
      Parse(m, Text(text)) == Err(DurationMismatch(text[1..]))
  {
    var text := WholeWeeksAsWritten(k);
    var body := IntToString(k) + ".0W";
    assert text == "P" + body;
    TailOfCons('P', body);
    assert 'P' !in body by {
      IntToStringChars(k, 'P');
    }
    LeadingDuration(m, text);
    FloatWeeksMismatch(k);
  }

  /** `<k>.0W` is not a duration the grammar reads. */
  lemma FloatWeeksMismatch(k: int)
    requires k != 0
    ensures ParseDuration(IntToString(k) + ".0W") == Err(DurationMismatch(IntToString(k) + ".0W"))
  {
    var body := IntToString(k) + ".0W";
    if k > 0 {
      var ds := NatToDigits(k);
      assert body == ds + ['.'] + "0W";
      StrayAfterDigits(ds, '.', "0W");
    } else {
      assert body == "-" + NatToDigits(-k) + ".0W";
      assert body[0] == '-';
      BadStart(body);
    }
    DurationMismatchCases(body);
  }

  /** With floor division the same whole weeks read back as themselves. */
  lemma WholeWeeksReadBack(m: Matcher, k: int)
    requires 0 < k && 7 * k <= MAX_DELTA_DAYS
    ensures TimedeltaText(DaysDelta(7 * k)) == "P" + IntToString(k) + "W"
    ensures Parse(m, Text(TimedeltaText(DaysDelta(7 * k)))) == Ok(Single(DeltaVal(DaysDelta(7 * k))))
  {
    var td := DaysDelta(7 * k);
    DivModUnique(td.micros, DAY_US, 7 * k, 0);
    DivModUnique(td.micros, SECOND_US, 7 * k * 86_400, 0);
    assert td.Days() == 7 * k && td.Seconds() == 0 && td.Microseconds() == 0;
    assert WholeWeeks(td) == k && SpareDays(td) == 0;
    FormatParseRoundTrip(m, td);
  }

  /**
   * `parse(format(dt))` for a datetime: the text has no `P` and one `T`, so neither the
   * duration split nor the space rewrite applies, and the first format that reads it
   * decides the result. With `strptime` refusing the two zone formats and reading the
   * third as the wall-clock time, the datetime comes back without microseconds or zone,
   * and formatting it again gives the same text.
   */
  lemma DateTimeReadBack(m: Matcher, dt: DateTime)
    requires dt.Valid()
    requires var text := FormatDateTime(dt);
      && m(FORMATS[0], text).None? && m(FORMATS[1], text).None?
      && m(FORMATS[2], text) == Some(dt.(microsecond := 0, tz := None))
    ensures Parse(m, Text(FormatDateTime(dt))) == Ok(Single(DateTimeVal(dt.(microsecond := 0, tz := None))))
    ensures FormatDateTime(dt.(microsecond := 0, tz := None)) == FormatDateTime(dt)
  {
    var text := FormatDateTime(dt);
    assert 'T' in text && 'P' !in text by {
      assert text[10] == 'T';
    }
    ThirdFormatReads(m, text, dt.(microsecond := 0, tz := None));
  }

  lemma ThirdFormatReads(m: Matcher, text: string, v: DateTime)
    requires 'P' !in text && 'T' in text
    requires m(FORMATS[0], text).None? && m(FORMATS[1], text).None? && m(FORMATS[2], text) == Some(v)
    ensures Parse(m, Text(text)) == Ok(Single(DateTimeVal(v)))
  {
    assert SpaceToT(text) == text;
    FormatMatched(m, text, 2);
  }
}
