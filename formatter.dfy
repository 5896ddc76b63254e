/**
 * The formatter of iso8601/formatter.py: dates, times and datetimes through `strftime`, and
 * timedeltas as ISO 8601 durations with designators (`P<w>W<d>DT<h>H<m>M<s>S`).
 */
module Formatter {
  import opened Wrappers
  import opened Strings
  import opened Digits
  import opened Calendar

  /** An argument of `format`: one of the four temporal types, or any other Python object. */
  datatype FormatArg = Temporal(value: Value) | Other

  /** Python only ever builds legal values, so these are the only ones `format` can be given. */
  predicate Legal(v: Value) {
    match v
    case DateVal(d) => d.Valid()
    case DateTimeVal(dt) => dt.Valid()
    case TimeVal(t) => t.Valid()
    case DeltaVal(td) => td.Valid()
  }

  /** `obj.strftime("%Y-%m-%d")`: each field zero-padded, and each reads back as its value. */
  function FormatDate(d: Date): (s: string)
    requires d.Valid()
    ensures |s| == 10 && s[4] == '-' && s[7] == '-'
    ensures AllDigits(s[..4]) && AllDigits(s[5..7]) && AllDigits(s[8..])
    ensures DigitsToNat(s[..4]) == d.year && DigitsToNat(s[5..7]) == d.month && DigitsToNat(s[8..]) == d.day
  {
    PadRoundTrip(d.year, 4);
    PadRoundTrip(d.month, 2);
    PadRoundTrip(d.day, 2);
    var s := Pad(d.year, 4) + "-" + Pad(d.month, 2) + "-" + Pad(d.day, 2);
    assert s[..4] == Pad(d.year, 4) && s[5..7] == Pad(d.month, 2) && s[8..] == Pad(d.day, 2);
    s
  }

  /** `obj.strftime("%H:%M:%S")`: hours, minutes and seconds; the microseconds are dropped. */
  function FormatTime(t: Time): (s: string)
    requires t.Valid()
    ensures |s| == 8 && s[2] == ':' && s[5] == ':'
    ensures AllDigits(s[..2]) && AllDigits(s[3..5]) && AllDigits(s[6..])
    ensures DigitsToNat(s[..2]) == t.hour && DigitsToNat(s[3..5]) == t.minute && DigitsToNat(s[6..]) == t.second
  {
    PadRoundTrip(t.hour, 2);
    PadRoundTrip(t.minute, 2);
    PadRoundTrip(t.second, 2);
    var s := Pad(t.hour, 2) + ":" + Pad(t.minute, 2) + ":" + Pad(t.second, 2);
    assert s[..2] == Pad(t.hour, 2) && s[3..5] == Pad(t.minute, 2) && s[6..] == Pad(t.second, 2);
    s
  }

  /** `format_datetime`: the date, a `T`, and the wall-clock time; the timezone is not written. */
  function FormatDateTime(dt: DateTime): (s: string)
    requires dt.Valid()
    ensures |s| == 19 && s[10] == 'T'
    ensures s[..10] == FormatDate(dt.date) && s[11..] == FormatTime(dt.TimeOfDay())
    ensures Count(s, 'T') == 1 && 'P' !in s && ' ' !in s
  {
    var s := FormatDate(dt.date) + "T" + FormatTime(dt.TimeOfDay());
    assert s[..10] == FormatDate(dt.date) && s[11..] == FormatTime(dt.TimeOfDay());
    DateTimeLetters(FormatDate(dt.date), FormatTime(dt.TimeOfDay()));
    s
  }

  /** Digits and separators only: no `T`, `P` or space apart from the one `T` in the middle. */
  lemma DateTimeLetters(date: string, time: string)
    requires |date| == 10 && AllDigits(date[..4]) && AllDigits(date[5..7]) && AllDigits(date[8..])
    requires date[4] == '-' && date[7] == '-'
    requires |time| == 8 && AllDigits(time[..2]) && AllDigits(time[3..5]) && AllDigits(time[6..])
    requires time[2] == ':' && time[5] == ':'
    ensures var s := date + "T" + time; Count(s, 'T') == 1 && 'P' !in s && ' ' !in s
  {
    NoLetter(date, 4, 7);
    NoLetter(time, 2, 5);
    CountAppend(date, "T" + time, 'T');
    CountAppend("T", time, 'T');
    assert date + "T" + time == date + ("T" + time);
  }

  /** Three runs of digits split by the characters at `a` and `b`: no letter and no space. */
  lemma NoLetter(s: string, a: nat, b: nat)
    requires a < b < |s| && AllDigits(s[..a]) && AllDigits(s[a + 1..b]) && AllDigits(s[b + 1..])
    requires !IsDigit(s[a]) && !IsDigit(s[b]) && s[a] in "-:" && s[b] in "-:"
    ensures 'T' !in s && 'P' !in s && ' ' !in s
  {
    forall i | 0 <= i < |s| ensures s[i] != 'T' && s[i] != 'P' && s[i] != ' ' {
      if i < a { assert s[i] == s[..a][i]; }
      else if a < i < b { assert s[i] == s[a + 1..b][i - a - 1]; }
      else if b < i { assert s[i] == s[b + 1..][i - b - 1]; }
    }
  }

  // ----- timedeltas -----

  /** `str(n) + designator` when `n` is not zero, nothing otherwise. */
  function Segment(n: int, designator: char): string {
    if n != 0 then IntToString(n) + [designator] else ""
  }

  /** The number of whole weeks `format_timedelta` writes, `days // 7` (floor division). */
  function WholeWeeks(td: TimeDelta): int { td.Days() / 7 }

  /** Python's `OverflowError` from building a `timedelta` of more than `MAX_DELTA_DAYS` days. */
  datatype FormatError = DaysOutOfRange

  /**
   * Line 26 builds `timedelta(days=7 * (days // 7))`; for the most negative `days` that is
   * below `-MAX_DELTA_DAYS`, and the constructor raises.
   */
  predicate WeeksOutOfRange(td: TimeDelta) {
    7 * WholeWeeks(td) < -MAX_DELTA_DAYS
  }

  /** For a legal timedelta the weeks overflow exactly when `days` is `-999999995` or below. */
  lemma WeeksOutOfRangeDays(td: TimeDelta)
    requires td.Valid()
    ensures WeeksOutOfRange(td) <==> td.Days() <= -999_999_995
  {
    var d := td.Days();
    assert d == 7 * (d / 7) + d % 7 && 0 <= d % 7 < 7;
    if d <= -999_999_995 {
      assert d / 7 <= -142_857_143;
    } else {
      assert d / 7 >= -142_857_142;
    }
  }

  /** The days left over after the weeks, `days % 7`: never negative. */
  function SpareDays(td: TimeDelta): (d: int)
    ensures 0 <= d < 7
  {
    td.Days() % 7
  }

  /** The `T` section: hours, minutes and seconds of `seconds`, present only if that is not zero. */
  function ClockText(seconds: int): string {
    if seconds == 0 then ""
    else "T" + Segment(seconds / 3600, 'H') + Segment(seconds % 3600 / 60, 'M') + Segment(seconds % 60, 'S')
  }

  /** What `format_timedelta` returns: the designators in the order the duration grammar reads them. */
  function TimedeltaText(td: TimeDelta): (s: string)
    ensures |s| > 0 && s[0] == 'P'
    ensures 'P' !in s[1..]
  {
    NoPAfterFirst(td);
    "P" + Segment(WholeWeeks(td), 'W') + Segment(SpareDays(td), 'D') + ClockText(td.Seconds())
  }

  lemma NoPAfterFirst(td: TimeDelta)
    ensures var text := "P" + Segment(WholeWeeks(td), 'W') + Segment(SpareDays(td), 'D') + ClockText(td.Seconds());
      'P' !in text[1..]
  {
    var w, d, clock := Segment(WholeWeeks(td), 'W'), Segment(SpareDays(td), 'D'), ClockText(td.Seconds());
    SegmentLetters(WholeWeeks(td), 'W', 'P');
    SegmentLetters(SpareDays(td), 'D', 'P');
    ClockLetters(td.Seconds(), 'P');
    var body := w + d + clock;
    assert 'P' !in body;
    assert "P" + w + d + clock == "P" + body;
    assert ("P" + body)[1..] == body;
  }

  /** `"".join(parts)`. */
  function Join(parts: seq<string>): string {
    if parts == [] then "" else Join(parts[..|parts| - 1]) + parts[|parts| - 1]
  }

  lemma JoinSnoc(parts: seq<string>, x: string)
    ensures Join(parts + [x]) == Join(parts) + x
  {
    assert (parts + [x])[..|parts|] == parts;
  }

  /**
   * `format_timedelta(obj)`: appends segments to `parts` and takes each written amount off
   * the remaining duration `rem`, as lines 23-41 do with `obj -= ...`.
   */
  method FormatTimedelta(td: TimeDelta) returns (r: Result<string, FormatError>)
    ensures WeeksOutOfRange(td) ==> r == Err(DaysOutOfRange)
    ensures !WeeksOutOfRange(td) ==> r == Ok(TimedeltaText(td))
  {
    var parts := ["P"];
    var rem := td;
    ghost var expected := "P";
    if rem.Days() / 7 != 0 {
      var w := rem.Days() / 7;
      JoinSnoc(parts, IntToString(w) + "W");
      parts := parts + [IntToString(w) + "W"];
      if 7 * w < -MAX_DELTA_DAYS {
        return Err(DaysOutOfRange);
      }
      ShiftDays(rem, 7 * w);
      rem := TimeDelta(rem.micros - 7 * w * DAY_US);
    }
    expected := expected + Segment(WholeWeeks(td), 'W');
    assert Join(parts) == expected;
    assert rem.Days() == SpareDays(td) && rem.Seconds() == td.Seconds();
    if rem.Days() != 0 {
      var d := rem.Days();
      JoinSnoc(parts, IntToString(d) + "D");
      parts := parts + [IntToString(d) + "D"];
      ShiftDays(rem, d);
      rem := TimeDelta(rem.micros - d * DAY_US);
    }
    expected := expected + Segment(SpareDays(td), 'D');
    assert Join(parts) == expected;
    assert rem.Days() == 0 && rem.Seconds() == td.Seconds();
    parts := ClockParts(parts, rem);
    r := Ok(Join(parts));
  }

  /** Lines 30-39: the `T` section, taken off `rem` hours first, once the days are gone. */
  method ClockParts(parts: seq<string>, rem: TimeDelta) returns (out: seq<string>)
    requires rem.Days() == 0
    ensures Join(out) == Join(parts) + ClockText(rem.Seconds())
  {
    out := parts;
    var left := rem;
    if left.Seconds() != 0 {
      var s := left.Seconds();
      ghost var clock := "T";
      JoinSnoc(out, "T");
      out := out + ["T"];
      if s / 3600 != 0 {
        var seg := IntToString(s / 3600) + "H";
        JoinSnoc(out, seg);
        AppendAssoc(Join(parts), clock, seg);
        out := out + [seg];
        TakeSeconds(left, 3600 * (s / 3600));
        left := TimeDelta(left.micros - 3600 * (s / 3600) * SECOND_US);
      }
      clock := clock + Segment(s / 3600, 'H');
      assert Join(out) == Join(parts) + clock;
      var r1 := left.Seconds();
      assert left.Days() == 0 && r1 == s % 3600;
      if r1 / 60 != 0 {
        var seg := IntToString(r1 / 60) + "M";
        JoinSnoc(out, seg);
        AppendAssoc(Join(parts), clock, seg);
        out := out + [seg];
        TakeSeconds(left, 60 * (r1 / 60));
        left := TimeDelta(left.micros - 60 * (r1 / 60) * SECOND_US);
      }
      clock := clock + Segment(r1 / 60, 'M');
      assert Join(out) == Join(parts) + clock;
      var r2 := left.Seconds();
      assert r2 == s % 60 by { ModOfMod(s); }
      if r2 != 0 {
        var seg := IntToString(r2) + "S";
        JoinSnoc(out, seg);
        AppendAssoc(Join(parts), clock, seg);
        out := out + [seg];
      }
      clock := clock + Segment(r2, 'S');
      assert Join(out) == Join(parts) + clock;
    } else {
      assert Join(out) == Join(parts) + "";
    }
  }

  lemma AppendAssoc(a: string, b: string, c: string)
    ensures (a + b) + c == a + (b + c)
  {
  }

  /** Within the first day, taking off `k` of the seconds lowers `seconds` by `k`. */
  lemma TakeSeconds(rem: TimeDelta, k: int)
    requires rem.Days() == 0 && 0 <= k <= rem.Seconds()
    ensures TimeDelta(rem.micros - k * SECOND_US).Days() == 0
    ensures TimeDelta(rem.micros - k * SECOND_US).Seconds() == rem.Seconds() - k
  {
    Decompose(rem);
    var us := rem.Microseconds();
    var x := rem.micros - k * SECOND_US;
    assert x == (rem.Seconds() - k) * SECOND_US + us;
    DivModUnique(x, DAY_US, 0, x);
    DivModUnique(x, SECOND_US, rem.Seconds() - k, us);
  }

  lemma ModOfMod(s: int)
    requires 0 <= s
    ensures (s % 3600) % 60 == s % 60 && (s % 3600) - 60 * ((s % 3600) / 60) == s % 60
  {
    var q, r := s / 3600, s % 3600;
    assert s == (q * 60 + r / 60) * 60 + r % 60;
    DivModUnique(s, 60, q * 60 + r / 60, r % 60);
  }

  /**
   * `format(obj)`: the first of datetime, timedelta, time and date that `obj` is; `None`
   * otherwise. A timedelta whose weeks cannot be taken off raises instead.
   */
  function Format(arg: FormatArg): (r: Result<Option<string>, FormatError>)
    requires arg.Temporal? ==> Legal(arg.value)
    ensures r == Ok(None) <==> arg.Other?
    ensures r.Err? <==> arg.Temporal? && arg.value.DeltaVal? && WeeksOutOfRange(arg.value.delta)
    ensures r.Err? ==> r.error == DaysOutOfRange
    ensures arg.Temporal? && arg.value.DateTimeVal? ==> r == Ok(Some(FormatDateTime(arg.value.dt)))
    ensures arg.Temporal? && arg.value.DeltaVal? && !WeeksOutOfRange(arg.value.delta) ==>
      r == Ok(Some(TimedeltaText(arg.value.delta)))
    ensures arg.Temporal? && arg.value.TimeVal? ==> r == Ok(Some(FormatTime(arg.value.time)))
    ensures arg.Temporal? && arg.value.DateVal? ==> r == Ok(Some(FormatDate(arg.value.date)))
    ensures arg.Temporal? && arg.value.DateTimeVal? ==>
      var text := r.value.value;
      |text| == 19 && text[10] == 'T'
      && text[..10] == FormatDate(arg.value.dt.date) && text[11..] == FormatTime(arg.value.dt.TimeOfDay())
    ensures r.Ok? && arg.Temporal? && arg.value.DeltaVal? ==> |r.value.value| > 0 && r.value.value[0] == 'P'
    ensures arg.Temporal? && arg.value.DateVal? ==> |r.value.value| == 10 && 'T' !in r.value.value
    ensures arg.Temporal? && arg.value.TimeVal? ==> |r.value.value| == 8 && r.value.value[2] == ':'
  {
    match arg
    case Other => Ok(None)
    case Temporal(v) =>
      match v
      case DateTimeVal(dt) => Ok(Some(FormatDateTime(dt)))
      case DeltaVal(td) => if WeeksOutOfRange(td) then Err(DaysOutOfRange) else Ok(Some(TimedeltaText(td)))
      case TimeVal(t) => Ok(Some(FormatTime(t)))
      case DateVal(d) =>
        var s := FormatDate(d);
        NoLetter(s, 4, 7);
        Ok(Some(s))
  }

  // ----- what the duration text says -----

  /** A segment holds its designator exactly when its count is not zero, and no other letter. */
  lemma SegmentLetters(n: int, designator: char, c: char)
    requires !IsDigit(c) && c != '-'
    ensures c in Segment(n, designator) <==> n != 0 && c == designator
  {
    IntToStringChars(n, c);
    if n != 0 {
      assert Segment(n, designator) == IntToString(n) + [designator];
    }
  }

  /** Which designators `format_timedelta` writes: each one exactly when its amount is not zero. */
  lemma TimedeltaDesignators(td: TimeDelta)
    ensures var text := TimedeltaText(td); var s := td.Seconds();
      && ('W' in text <==> WholeWeeks(td) != 0)
      && ('D' in text <==> SpareDays(td) != 0)
      && ('T' in text <==> s != 0)
      && ('H' in text <==> s / 3600 != 0)
      && ('M' in text <==> s != 0 && s % 3600 / 60 != 0)
      && ('S' in text <==> s != 0 && s % 60 != 0)
  {
    TextLetters(td, 'W');
    TextLetters(td, 'D');
    TextLetters(td, 'T');
    TextLetters(td, 'H');
    TextLetters(td, 'M');
    TextLetters(td, 'S');
  }

  /** The letters of the text, one by one: `P`, then each designator whose amount is not zero. */
  lemma TextLetters(td: TimeDelta, c: char)
    requires !IsDigit(c) && c != '-'
    ensures var s := td.Seconds();
      c in TimedeltaText(td) <==>
        || c == 'P'
        || (c == 'W' && WholeWeeks(td) != 0)
        || (c == 'D' && SpareDays(td) != 0)
        || (s != 0 && (|| c == 'T'
                       || (c == 'H' && s / 3600 != 0)
                       || (c == 'M' && s % 3600 / 60 != 0)
                       || (c == 'S' && s % 60 != 0)))
  {
    var s := td.Seconds();
    SegmentLetters(WholeWeeks(td), 'W', c);
    SegmentLetters(SpareDays(td), 'D', c);
    ClockLetters(s, c);
  }

  lemma ClockLetters(s: int, c: char)
    requires !IsDigit(c) && c != '-'
    ensures c in ClockText(s) <==>
      s != 0 && (|| c == 'T'
                 || (c == 'H' && s / 3600 != 0)
                 || (c == 'M' && s % 3600 / 60 != 0)
                 || (c == 'S' && s % 60 != 0))
  {
    SegmentLetters(s / 3600, 'H', c);
    SegmentLetters(s % 3600 / 60, 'M', c);
    SegmentLetters(s % 60, 'S', c);
  }

  /** A zero timedelta, or one of less than a second, is written as the bare `"P"`, and only those. */
  lemma EmptyDurationText(td: TimeDelta)
    ensures TimedeltaText(td) == "P" <==> td.Days() == 0 && td.Seconds() == 0
  {
    TimedeltaDesignators(td);
    if TimedeltaText(td) == "P" {
      assert td.Days() == 7 * WholeWeeks(td) + SpareDays(td);
    }
  }

  /** The sub-second part is never written: it can be dropped without changing the text. */
  lemma SubSecondDropped(td: TimeDelta)
    ensures TimedeltaText(TimeDelta(td.micros - td.Microseconds())) == TimedeltaText(td)
  {
    var whole := TimeDelta(td.micros - td.Microseconds());
    Decompose(td);
    assert whole.micros == td.Days() * DAY_US + td.Seconds() * SECOND_US;
    assert whole.micros == (td.Days() * 86_400 + td.Seconds()) * SECOND_US;
    DivModUnique(whole.micros, DAY_US, td.Days(), td.Seconds() * SECOND_US);
    DivModUnique(td.Seconds() * SECOND_US, SECOND_US, td.Seconds(), 0);
  }

  /**
   * `format_timedelta` of `timedelta(weeks=k)` as the code is written under Python 3, where
   * `obj.days / 7` is true division: the float `k / 1` prints as `k.0`, so `"P<k>.0W"`.
   */
  function WholeWeeksAsWritten(k: int): (s: string)
    requires -MAX_DELTA_DAYS <= 7 * k <= MAX_DELTA_DAYS
    ensures k == 0 <==> s == "P"
    ensures k != 0 ==> '.' in s
  {
    if k == 0 then "P"
    else
      var s := "P" + IntToString(k) + ".0W";
      assert s[|s| - 3] == '.';
      s
  }
}
