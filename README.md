# iso8601 — a Dafny model of the parser and the formatter

This project models the two modules of the Python package `iso8601`:

- `iso8601/parser.py` turns ISO 8601 text into Python values. The date and time formats go to
  `strptime`. A text holding a `P` is split there, and the part after it is read as a
  duration by a regular expression. A text without a `T` has its spaces read as `T`. An
  hour of `24` means midnight of the next day. A decimal fraction of the last component is
  added to the datetime parsed from the text before the dot.
- `iso8601/formatter.py` writes dates, times and datetimes through `strftime`. It writes
  timedeltas as designator durations such as `P1W2DT3H4M5S`.

The model is in Dafny modules that follow those two files:

- `Wrappers`: `Option` and `Result`.
- `Strings`: `count`, `index`, `startswith` and `replace` on strings; `split` is written
  in `Parser` as an index followed by slicing.
- `Digits`: `int()` and `str()` on ASCII numerals, and zero padding.
- `Calendar`: the parts of Python's `datetime` that the code leans on. This covers the
  proleptic Gregorian calendar over years 1..9999, timedelta normalisation into
  days/seconds/microseconds, and `datetime + timedelta` with its `OverflowError`.
- `DurationGrammar`: the duration regular expression as a rendering function over the paths
  through it. A hand-written recognizer is proved to decide it exactly.
- `Parser` / `ParserFacts`: `parse`, `parse_date`, `parse_time`, `duration_parts` and
  `parse_duration`, and the properties they promise.
- `Formatter`: `format`, `format_datetime`, `format_date` and `format_time`, plus
  `format_timedelta`. The last is an imperative method: it appends to a list of parts and
  takes each written amount off the remaining duration.
- `RoundTrip`: a duration written by the formatter reads back through the parser as the
  same timedelta.

`strptime` is not modelled itself. It is a parameter `m: (format, text) -> Option<datetime>`
of every parsing function, and every lemma holds for all such `m`. Where a lemma needs that
`strptime` only returns legal datetimes, it says so with `ValidMatcher(m)`.

## Behaviour of note

- Offsets other than UTC are accepted wherever `strptime`'s `%z` reads them, as in
  `parse('2023-11-28T06:15:00-06:00')` (parser.py lines 97-98). The parser has no error of its
  own for them.
- Only `.` starts a fraction; a `,` is an ordinary character, so `'2010-01-01T01,5'` reaches the
  end of `parse` and gives `None` unless a format reads it.
- `parse('2010-01-01')` returns a `datetime` at midnight, never a `date`, because `strptime`
  always builds a datetime.
- A fraction is converted to whole microseconds the way `timedelta` does it: rounded to the
  nearest, ties to even. So `.9999999` of a second becomes a whole second.
- Duration formatting does not round-trip for every timedelta. Even with floor division,
  negative ones and ones under a second are written in forms `parse` refuses, and `days` of
  `-999999995` or below make formatter.py line 26 build a timedelta out of range, which raises
  `OverflowError`.
- As written, under Python 3's true division, no timedelta is read back at all (see Findings).
  Any non-zero `days` gives a `W` segment with a fraction, e.g. the text of `timedelta(days=1)`
  begins `'P0.14285714285714285W'`. With `days` zero, any non-zero `seconds` gives an `H` segment
  with a fraction, e.g. the text of `timedelta(seconds=30)` begins `'PT0.008333333333333333H'`. All
  that remains is `'P'`, which `parse` refuses.

## Model

| member | source | states |
|---|---|---|
| Parser.FirstMatch | iso8601/parser.py:113-115 | `None` exactly when every format fails; otherwise the value of some format with every earlier format failing |
| Parser.SpaceToT | iso8601/parser.py:110-111 | with a `T` present the text is unchanged; without one every space becomes `T` and every other character stays, so no space is left; `P`s are untouched |
| Parser.FractionDelta | iso8601/parser.py:129-141 | the fraction `0.<digits>` of an hour, minute or second (by colon count) in microseconds, rounded to the nearest, ties to even: within half a microsecond of the exact value, and at most one whole unit |
| Parser.RoundHalfEven | iso8601/parser.py:137-141 | the integer nearest to `a / b`, the even one on a tie, as `timedelta` rounds leftover microseconds |
| Parser.ParseDateTime | iso8601/parser.py:110-143 | with a legal `strptime`, every datetime the date/time branch returns is a legal datetime; its only errors are unpacking, midnight-only, fraction, `TypeError` and overflow |
| Parser.ParseData | iso8601/parser.py:113-143 | the first format that reads the text decides the result; `None` comes only from falling off the end (no format, one `T`, no hour 24 and no `.` in the time part); errors are never duration errors |
| Parser.Classify | iso8601/parser.py:117-136 | which branch a text no format reads takes: not exactly one `T` exactly when the unpacking fails; hour 24 exactly on the midnight shape, with a rewritten text of the same length that leaves that shape; a fraction only with all-digit fraction text and a shorter text before the dot; no dot at all only with one `T` and no hour 24 |
| Parser.AddMidnightDay | iso8601/parser.py:119-123 | a day is added to the hour-00 reading; the result is a datetime, legal when the input is, and the only errors are midnight-only and overflow (the value is stated by `ParserFacts.MidnightHour`) |
| Parser.AddFraction | iso8601/parser.py:137-143 | the fraction is added by colon count; the result is a datetime, legal when the input is, and the only errors are `TypeError` (more than two colons) and overflow (the value is stated by `ParserFacts.FractionShift`) |
| Parser.ParseText | iso8601/parser.py:104-143 | two or more `P` fail to unpack; without `P` the result is a datetime or `None`, never a bare date; with one `P` it is a timedelta or a pair whose start is a datetime or `None` |
| Parser.Parse | iso8601/parser.py:101-104 | a date, datetime or timedelta argument is returned unchanged; a `time` argument is a `TypeError` at `'P' in data` |
| Parser.ParseDate | iso8601/parser.py:149-159 | a datetime result is cut down to its date; every other result or error passes through unchanged |
| Parser.ParseTime | iso8601/parser.py:162-166 | a datetime result is cut down to its time of day; every other result or error passes through unchanged |
| Parser.Parts | iso8601/parser.py:188 | a unit is in the dictionary exactly when its group is present and non-zero, with that group's integer value |
| Parser.DurationParts | iso8601/parser.py:184-188 | succeeds exactly when the text is non-empty, matches the regex and does not end in `T`; the empty text is `IndexError`; the other failures quote the text; a success is the groups of the only path through the regex |
| Parser.UniquePath | iso8601/parser.py:170-181 | the path the recognizer finds is the only path through the regex for that text |
| Parser.ParseDuration | iso8601/parser.py:191-195 | a result is a legal, non-negative, whole-second timedelta; the only errors are `IndexError`, the format mismatch, years/months, and overflow |
| Parser.MidnightRewrite | iso8601/parser.py:119-120 | with one `T` followed by `24`, `replace('T24', 'T00')` rewrites just that hour, and the new text no longer has hour 24 |
| DurationGrammar.RecognizeSound | iso8601/parser.py:170-181 | whatever the recognizer accepts is the rendering of a well-formed path through the regex |
| DurationGrammar.RecognizeComplete | iso8601/parser.py:170-181 | every well-formed path through the regex is found again from its rendering |
| DurationGrammar.RecognizeDecides | iso8601/parser.py:170-181 | the recognizer accepts a text exactly when the regex matches it |
| DurationGrammar.RenderInjective | iso8601/parser.py:170-181 | two paths with the same text are the same path, so the named groups are determined by the text |
| DurationGrammar.DigitsAfterDays | iso8601/parser.py:175-179 | digits straight after the day group (no `T`) are never matched |
| DurationGrammar.BadStart | iso8601/parser.py:171-176 | a text starting with anything but a digit, `P`, `T` or the final newline is never matched (a leading `-` included) |
| DurationGrammar.StrayAfterDigits | iso8601/parser.py:172-175 | digits followed by anything but a digit or `Y`/`M`/`W`/`D` are never matched (a `.` included) |
| ParserFacts.ParseDurationOfPath | iso8601/parser.py:184-195 | on any matched text not ending in `T`: non-zero years or months are refused, otherwise the timedelta of 604800 W + 86400 D + 3600 H + 60 M + S seconds, or overflow past `timedelta.max` |
| ParserFacts.DurationMismatchCases | iso8601/parser.py:186-187 | an unmatched text, or one ending in `T`, fails with `'P<text>' does not match ISO8601 format` |
| ParserFacts.BareP | iso8601/parser.py:104-108 | `parse('P')` is the `IndexError` of `duration[-1]` |
| ParserFacts.SplitOnP | iso8601/parser.py:104-108 | with one `P`: an empty start gives the bare duration, otherwise the pair (parse of the start, the duration), start first, errors propagated |
| ParserFacts.SpaceIsT | iso8601/parser.py:110-111 | without a `T` or `P`, parsing a text equals parsing it with spaces replaced by `T` |
| ParserFacts.FormatMatched | iso8601/parser.py:113-115 | the first format `strptime` accepts decides the result, whatever follows |
| ParserFacts.MidnightHour | iso8601/parser.py:119-123 | hour 24 is hour 00 of the next day; minutes, seconds or microseconds make it "hour=24 is only permitted at midnight"; `date.max` overflows; `None` is a `TypeError` |
| ParserFacts.NotOneT | iso8601/parser.py:117 | a text no format reads and without exactly one `T` fails to unpack |
| ParserFacts.FractionErrors | iso8601/parser.py:125-134 | two dots, or a fraction `float` refuses, give "fractional time may only apply to last component"; no dot falls off the end and gives `None` |
| ParserFacts.FractionShift | iso8601/parser.py:127-143 | the fraction moves the instant forward by at most one unit, keeps the timezone, and fails exactly when leaving the supported range; a third colon is a `TypeError` |
| ParserFacts.HalfUnit | iso8601/parser.py:56-61 | `.5` is half the unit: 30 minutes after an hour, 30 seconds after a minute, 500000 µs after a second |
| ParserFacts.FractionTrailingZeros | iso8601/parser.py:129 | trailing zeros of a fraction do not change it |
| ParserFacts.FractionRoundsToWholeSecond | iso8601/parser.py:141 | `.9999999` of a second rounds to a whole second |
| ParserFacts.FractionRoundsToNearest | iso8601/parser.py:141 | `.1234567` of a second is 123457 microseconds |
| ParserFacts.TextResultsValid | iso8601/parser.py:36-143 | with a legal `strptime`, every datetime and timedelta that `parse` builds from text is legal |
| ParserFacts.DaysDuration | iso8601/parser.py:75-78 | `parse('P<n>D')` is `timedelta(days=n)`, or overflow beyond `timedelta.max` |
| ParserFacts.DaysHoursDuration | iso8601/parser.py:87-88 | `parse('P<d>DT<h>H')` is `d` days and `h` hours; below 24 hours these are the `days` and `seconds` fields |
| ParserFacts.DanglingT | iso8601/parser.py:79-82 | `parse('P<d>DT')` fails with the format message quoting `<d>DT` |
| ParserFacts.HoursWithoutT | iso8601/parser.py:83-86 | `parse('P<d>D<h>H')` fails with the format message |
| ParserFacts.YearsDuration | iso8601/parser.py:89-92 | `parse('P<y>Y')` is refused for every non-zero `y`; zero years is the empty timedelta |
| ParserFacts.ZeroYearsDropped | iso8601/parser.py:188-195 | a zero group is dropped like an absent one: `P0Y<n>D` parses as `P<n>D` |
| Calendar.AddDelta | iso8601/parser.py:120-143 | `datetime + timedelta` moves the wall clock by exactly the delta, keeps the timezone, and is `OverflowError` exactly outside years 1..9999 |
| Calendar.AddOneDay | iso8601/parser.py:120 | adding `timedelta(1)` keeps the time of day and moves to the next calendar day, failing only at `date.max` |
| Digits.NatToDigitsRoundTrip | iso8601/parser.py:188 | `int(str(n)) == n` |
| Digits.PadRoundTrip | iso8601/formatter.py:17-20 | a zero-padded field has its width, is all digits and reads back as its value |
| Formatter.FormatDate | iso8601/formatter.py:16-17 | ten characters, dashes at 4 and 7, and the three fields read back as year, month and day |
| Formatter.FormatTime | iso8601/formatter.py:19-20 | eight characters, colons at 2 and 5, and the fields read back as hour, minute and second |
| Formatter.FormatDateTime | iso8601/formatter.py:13-14 | the date text, one `T`, the time text; no `P` and no space |
| Formatter.TimedeltaText | iso8601/formatter.py:22-41 | the duration text starts with its only `P`; which designators it holds is stated by `TimedeltaDesignators` |
| Formatter.Format | iso8601/formatter.py:3-11 | `None` exactly for a non-temporal argument; a datetime gets `format_datetime` (date, `T`, time), a timedelta `format_timedelta`, a time `format_time` and a date `format_date`; the only error is the `OverflowError` of a timedelta whose weeks are out of range |
| Formatter.FormatTimedelta | iso8601/formatter.py:22-41 | `OverflowError` exactly when line 26 builds more than `MAX_DELTA_DAYS` negative days; otherwise the appended parts, joined, are the duration text of the timedelta |
| Formatter.WeeksOutOfRangeDays | iso8601/formatter.py:24-26 | for a legal timedelta, line 26 overflows exactly when `days` is `-999999995` or below |
| Formatter.ClockParts | iso8601/formatter.py:30-39 | once the days are gone, the parts gain `T` and the hours, minutes and seconds of what is left, or nothing when no seconds are left |
| Formatter.TimedeltaDesignators | iso8601/formatter.py:22-41 | each designator W, D, T, H, M, S is written exactly when its amount is not zero |
| Formatter.EmptyDurationText | iso8601/formatter.py:23-41 | the text is the bare `P` exactly when `days` and `seconds` are both zero |
| Formatter.SubSecondDropped | iso8601/formatter.py:30-39 | microseconds are never written |
| Formatter.WholeWeeksAsWritten | iso8601/formatter.py:24-26 | under true division `timedelta(weeks=k)` is written `P<k>.0W`, with a `.` whenever `k` is not zero |
| RoundTrip.TextIsRender | iso8601/formatter.py:22-41 | the text of a non-negative timedelta is `P` and a well-formed path through the duration regex |
| RoundTrip.TextNotEndingInT | iso8601/formatter.py:30-39 | the duration text never ends in `T` |
| RoundTrip.DurationRoundTrip | iso8601/parser.py:191-195 | `parse_duration` of the text after its `P` is the timedelta again, for every positive whole-second timedelta |
| RoundTrip.FormatParseRoundTrip | iso8601/formatter.py:22-41 | `format` writes every positive whole-second timedelta in range without error, and `parse` of that text is the timedelta again |
| RoundTrip.ZeroNotReadBack | iso8601/formatter.py:23 | a timedelta under a second is written `P`, and `parse` refuses that with `IndexError` |
| RoundTrip.NegativeNotReadBack | iso8601/formatter.py:24-29 | a negative timedelta is never read back: `format` raises `OverflowError` for `days` of `-999999995` or below, and otherwise writes a text with a `-` after the `P`, which `parse` refuses with the format message |
| RoundTrip.TrueDivisionNotReadBack | iso8601/formatter.py:24-26 | the true-division text `P<k>.0W` is refused by `parse` for every non-zero `k` |
| RoundTrip.WholeWeeksReadBack | iso8601/formatter.py:24-26 | with floor division, `k` weeks are written `P<k>W` and parse back as themselves |
| RoundTrip.DateTimeReadBack | iso8601/formatter.py:13-20 | a formatted datetime avoids the duration split and the space rewrite, so the format that reads it decides `parse`; formatting the result again gives the same text |

## Left out

- `strptime` is a parameter, not a model: which of the ten formats accepts which text, `%Z` names and the `%z` offset syntax are not modelled (the recursive calls at parser.py lines 120 and 143 go through the same parameter).
- `float("0.<digits>")` is idealised: the digits are ASCII and the value is the exact decimal, rounded to the nearest microsecond with ties to even as `timedelta` rounds. The binary floating-point error of `float` (which can move a value lying almost exactly halfway between two microseconds) is not modelled. Suffixes that `float` also reads, such as an exponent (`01.5e1`), digit underscores (`01.5_0`) or trailing whitespace, are treated as a malformed fraction ("fractional time may only apply to last component") rather than as the number `float` would make of them.
- The re-raise of a non-`ValueError`-message at parser.py line 134: `float` of `"0."` plus digits only raises for non-digits, which the model refuses first.
- `\d` matches only the ASCII digits; Python's Unicode digits are not modelled.
- `strftime("%Y")` pads years below 1000 to four digits; platforms that do not are not modelled.
- `format_datetime` and `format_time` drop the timezone and microseconds, as `strftime` with those formats does. The timezone offset objects of `pytz` and `datetime.timezone` are modelled as a fixed offset only.
- The `freezegun.FakeDate` extension of `PARSED_CLASSES` (parser.py lines 9-14) and the unused `DATE_REGEX` (line 146).
- The doctest runner (lines 198-200) and setup.py.
- The datetime doctests of `parse` (lines 41-73) are covered by the general lemmas above, instantiated with whatever `strptime` returns; their concrete dates are not restated.
- Formatter.FormatTimedelta: models `obj.days // 7` and `obj.seconds // 3600` (floor division, the evidently intended reading). The code as written under Python 3 divides truly; see Findings.
- Python's limit on the digits `int()` converts (4300 by default since Python 3.11) is not modelled. Past it `int(v)` at parser.py line 188 raises `ValueError`, even for a long run of zeros. `ParserFacts.ParseDurationOfPath` and `ParserFacts.ZeroYearsDropped` read groups of any length, so zero groups that long are dropped instead.
- RoundTrip.DateTimeReadBack: takes as a hypothesis what `strptime` does with the text, since `strptime` is a parameter.
- Parser.ParseDateTime: states that results are legal and which errors can arise; what each branch computes is stated by `ParseData` and the ParserFacts lemmas.

## Findings

| source | as written | input that shows it | evidently intended | confidence | as-written member | corrected member |
|---|---|---|---|---|---|---|
| iso8601/formatter.py:24-33 | `obj.days / 7` is true division under Python 3 (the package uses `contextlib.suppress` and `datetime.timezone`, so it targets Python 3), so `days / 7` and `seconds / 3600` are floats: any non-zero `days` is written as a fractional `W` segment and, with zero `days`, any non-zero `seconds` as a fractional `H` segment; with the bare `P` for the rest, no timedelta's text is read back by `parse` | `format(timedelta(days=7))` gives `'P1.0W'`, `format(timedelta(days=1))` begins `'P0.14285714285714285W'` and `format(timedelta(seconds=30))` begins `'PT0.008333333333333333H'`; `parse` refuses each at the `.` | floor division `obj.days // 7` and `obj.seconds // 3600` (and `// 60`), giving `'P1W'`, `'P1D'` and `'PT30S'` | high, not executed | Formatter.WholeWeeksAsWritten, RoundTrip.TrueDivisionNotReadBack | Formatter.FormatTimedelta, RoundTrip.WholeWeeksReadBack |
