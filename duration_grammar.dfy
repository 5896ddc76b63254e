/**
 * The duration grammar of `duration_regex` (iso8601/parser.py):
 *
 *     ^P?(nY)?(nM)?(nW)?(nD)?(T(nH)?(nM)?(nS)?)?$
 *
 * where each `n` is `\d+`. `Render` spells out, group by group, which strings the regular
 * expression matches: exactly the renderings of well-formed syntax records. `Recognize` is
 * a hand-written left-to-right recognizer, proved sound and complete against `Render`.
 * Python's `$` also matches just before a final newline, so a match may end in "\n".
 */
module DurationGrammar {
  import opened Wrappers
  import opened Digits

  /** The `T(nH)?(nM)?(nS)?` section; each field is the digit text of its group, if present. */
  datatype TimeSection = TimeSection(hours: Option<string>, minutes: Option<string>, seconds: Option<string>)

  /** One way through the regular expression: which optional groups matched, and their digits. */
  datatype DurationSyntax = DurationSyntax(
    leadingP: bool,
    years: Option<string>,
    months: Option<string>,
    weeks: Option<string>,
    days: Option<string>,
    time: Option<TimeSection>,
    newline: bool)

  predicate GroupOk(g: Option<string>) {
    g.Some? ==> IsNumeral(g.value)
  }

  predicate WellFormed(syn: DurationSyntax) {
    && GroupOk(syn.years) && GroupOk(syn.months) && GroupOk(syn.weeks) && GroupOk(syn.days)
    && (syn.time.Some? ==>
          GroupOk(syn.time.value.hours) && GroupOk(syn.time.value.minutes) && GroupOk(syn.time.value.seconds))
  }

  /** `((?P<name>\d+)U)?` followed by `rest`: the digits and the unit letter, or nothing. */
  function Group(g: Option<string>, unit: char, rest: string): string {
    match g
    case None => rest
    case Some(ds) => ds + ([unit] + rest)
  }

  /** `(T((?P<hours>\d+)H)?((?P<minutes>\d+)M)?((?P<seconds>\d+)S)?)?` followed by `rest`. */
  function TimeText(t: Option<TimeSection>, rest: string): string {
    match t
    case None => rest
    case Some(ts) => "T" + Group(ts.hours, 'H', Group(ts.minutes, 'M', Group(ts.seconds, 'S', rest)))
  }

  /** The text after the optional leading `P`, along the path `syn`. */
  function Body(syn: DurationSyntax): string {
    Group(syn.years, 'Y',
    Group(syn.months, 'M',
    Group(syn.weeks, 'W',
    Group(syn.days, 'D',
    TimeText(syn.time, if syn.newline then "\n" else "")))))
  }

  /** The text the regular expression matches along the path `syn`. */
  function Render(syn: DurationSyntax): string {
    (if syn.leadingP then "P" else "") + Body(syn)
  }

  /** `duration_regex.match(s)` succeeds. */
  ghost predicate MatchesDurationRegex(s: string) {
    exists syn :: WellFormed(syn) && Render(syn) == s
  }

  // ----- the recognizer -----

  /** Length of the longest run of digits at the start of `s`. */
  function LeadingDigits(s: string): (k: nat)
    ensures k <= |s| && AllDigits(s[..k])
    ensures k < |s| ==> !IsDigit(s[k])
  {
    if s == [] || !IsDigit(s[0]) then 0
    else
      var k := 1 + LeadingDigits(s[1..]);
      assert s[..k] == [s[0]] + s[1..][..k - 1];
      k
  }

  /** Match the optional group `(\d+U)?` at the start of `s`; returns the digits and the rest. */
  function ReadGroup(s: string, unit: char): (r: (Option<string>, string))
    ensures GroupOk(r.0) && s == Group(r.0, unit, r.1)
  {
    var k := LeadingDigits(s);
    if 0 < k < |s| && s[k] == unit then
      assert s == s[..k] + ([unit] + s[k + 1..]);
      (Some(s[..k]), s[k + 1..])
    else (None, s)
  }

  /** Match the optional section `(T(\d+H)?(\d+M)?(\d+S)?)?`. */
  function ReadTime(s: string): (r: (Option<TimeSection>, string))
    ensures r.0.Some? ==> GroupOk(r.0.value.hours) && GroupOk(r.0.value.minutes) && GroupOk(r.0.value.seconds)
    ensures s == TimeText(r.0, r.1)
  {
    if |s| > 0 && s[0] == 'T' then
      var h := ReadGroup(s[1..], 'H');
      var m := ReadGroup(h.1, 'M');
      var sec := ReadGroup(m.1, 'S');
      assert s == "T" + s[1..];
      (Some(TimeSection(h.0, m.0, sec.0)), sec.1)
    else (None, s)
  }

  /** The whole regular expression, anchored at both ends. */
  function Recognize(s: string): Option<DurationSyntax> {
    var p := |s| > 0 && s[0] == 'P';
    ReadPath(if p then s[1..] else s, p)
  }

  /** Everything after the optional `P`: the groups in order, then the end or the final newline. */
  function ReadPath(rest: string, p: bool): Option<DurationSyntax> {
    var y := ReadGroup(rest, 'Y');
    var mo := ReadGroup(y.1, 'M');
    var w := ReadGroup(mo.1, 'W');
    var d := ReadGroup(w.1, 'D');
    var t := ReadTime(d.1);
    if t.1 == "" then Some(DurationSyntax(p, y.0, mo.0, w.0, d.0, t.0, false))
    else if t.1 == "\n" then Some(DurationSyntax(p, y.0, mo.0, w.0, d.0, t.0, true))
    else None
  }

  // ----- soundness and completeness -----

  /** Whatever the recognizer accepts is the rendering of a well-formed path through the grammar. */
  lemma RecognizeSound(s: string)
    requires Recognize(s).Some?
    ensures WellFormed(Recognize(s).value) && Render(Recognize(s).value) == s
  {
    var p := |s| > 0 && s[0] == 'P';
    var rest := if p then s[1..] else s;
    var syn := Recognize(s).value;
    assert syn == ReadPath(rest, p).value;
    ReadPathSound(rest, p);
    assert Render(syn) == s by {
      if p {
        HeadTail(s, 'P');
      }
    }
  }

  lemma HeadTail(s: string, c: char)
    requires |s| > 0 && s[0] == c
    ensures [c] + s[1..] == s
  {
  }

  lemma ReadPathSound(rest: string, p: bool)
    requires ReadPath(rest, p).Some?
    ensures var syn := ReadPath(rest, p).value; WellFormed(syn) && syn.leadingP == p && Body(syn) == rest
  {
    var y := ReadGroup(rest, 'Y');
    var mo := ReadGroup(y.1, 'M');
    var w := ReadGroup(mo.1, 'W');
    var d := ReadGroup(w.1, 'D');
    var t := ReadTime(d.1);
    var syn := ReadPath(rest, p).value;
    assert syn == DurationSyntax(p, y.0, mo.0, w.0, d.0, t.0, t.1 == "\n");
    assert (if syn.newline then "\n" else "") == t.1;
  }

  /** `rest` does not start with a group for `unit`: no digits followed by that letter. */
  predicate NoGroupAhead(rest: string, unit: char) {
    var k := LeadingDigits(rest);
    !(0 < k < |rest| && rest[k] == unit)
  }

  lemma {:induction false} LeadingDigitsStop(ds: string, c: char, rest: string)
    requires AllDigits(ds) && !IsDigit(c)
    ensures LeadingDigits(ds + [c] + rest) == |ds|
    decreases |ds|
  {
    var s := ds + [c] + rest;
    if ds != [] {
      assert s[1..] == ds[1..] + [c] + rest;
      LeadingDigitsStop(ds[1..], c, rest);
    }
  }

  lemma ReadGroupRender(g: Option<string>, unit: char, rest: string)
    requires GroupOk(g) && !IsDigit(unit) && NoGroupAhead(rest, unit)
    ensures ReadGroup(Group(g, unit, rest), unit) == (g, rest)
  {
    if g.Some? {
      var s := Group(g, unit, rest);
      assert s == g.value + [unit] + rest;
      LeadingDigitsStop(g.value, unit, rest);
      assert s[..|g.value|] == g.value;
      assert s[|g.value| + 1..] == rest;
    }
  }

  /** A group for a different unit letter never looks like a group for `unit`. */
  lemma NoGroupAheadCons(g: Option<string>, other: char, more: string, unit: char)
    requires GroupOk(g) && !IsDigit(other) && other != unit && NoGroupAhead(more, unit)
    ensures NoGroupAhead(Group(g, other, more), unit)
  {
    if g.Some? {
      assert Group(g, other, more) == g.value + [other] + more;
      LeadingDigitsStop(g.value, other, more);
      assert Group(g, other, more)[|g.value|] == other;
    }
  }

  lemma NoGroupAheadNonDigit(rest: string, unit: char)
    requires rest == [] || !IsDigit(rest[0])
    ensures NoGroupAhead(rest, unit)
  {
  }

  lemma ReadTimeRender(t: Option<TimeSection>, nl: string)
    requires t.Some? ==> GroupOk(t.value.hours) && GroupOk(t.value.minutes) && GroupOk(t.value.seconds)
    requires nl == "" || nl == "\n"
    ensures ReadTime(TimeText(t, nl)) == (t, nl)
  {
    if t.Some? {
      var ts := t.value;
      var a := Group(ts.seconds, 'S', nl);
      var b := Group(ts.minutes, 'M', a);
      var c := Group(ts.hours, 'H', b);
      assert TimeText(t, nl) == "T" + c;
      assert TimeText(t, nl)[1..] == c;
      NoGroupAheadNonDigit(nl, 'S');
      ReadGroupRender(ts.seconds, 'S', nl);
      NoGroupAheadNonDigit(nl, 'M');
      NoGroupAheadCons(ts.seconds, 'S', nl, 'M');
      ReadGroupRender(ts.minutes, 'M', a);
      NoGroupAheadNonDigit(nl, 'H');
      NoGroupAheadCons(ts.seconds, 'S', nl, 'H');
      NoGroupAheadCons(ts.minutes, 'M', a, 'H');
      ReadGroupRender(ts.hours, 'H', b);
    }
  }

  /** Reading the groups of `Body(syn)` in order gives back each group of `syn`. */
  lemma ReadBody(syn: DurationSyntax)
    requires WellFormed(syn)
    ensures var y := ReadGroup(Body(syn), 'Y');
            var mo := ReadGroup(y.1, 'M');
            var w := ReadGroup(mo.1, 'W');
            var d := ReadGroup(w.1, 'D');
            var nl := if syn.newline then "\n" else "";
            && y.0 == syn.years && mo.0 == syn.months && w.0 == syn.weeks && d.0 == syn.days
            && ReadTime(d.1) == (syn.time, nl)
  {
    var nl := if syn.newline then "\n" else "";
    var e := TimeText(syn.time, nl);
    var dd := Group(syn.days, 'D', e);
    var ww := Group(syn.weeks, 'W', dd);
    var mm := Group(syn.months, 'M', ww);
    assert Body(syn) == Group(syn.years, 'Y', mm);
    // after the day group comes a T, a newline or nothing
    assert e == [] || !IsDigit(e[0]);
    NoGroupAheadNonDigit(e, 'D');
    NoGroupAheadNonDigit(e, 'W');
    NoGroupAheadNonDigit(e, 'M');
    NoGroupAheadNonDigit(e, 'Y');
    ReadTimeRender(syn.time, nl);
    ReadGroupRender(syn.days, 'D', e);
    NoGroupAheadCons(syn.days, 'D', e, 'W');
    ReadGroupRender(syn.weeks, 'W', dd);
    NoGroupAheadCons(syn.days, 'D', e, 'M');
    NoGroupAheadCons(syn.weeks, 'W', dd, 'M');
    ReadGroupRender(syn.months, 'M', ww);
    NoGroupAheadCons(syn.days, 'D', e, 'Y');
    NoGroupAheadCons(syn.weeks, 'W', dd, 'Y');
    NoGroupAheadCons(syn.months, 'M', ww, 'Y');
    ReadGroupRender(syn.years, 'Y', mm);
  }

  /** Without the optional `P` the text starts with a digit, a `T`, a newline, or is empty. */
  lemma BodyNotP(syn: DurationSyntax)
    requires WellFormed(syn)
    ensures Body(syn) == [] || Body(syn)[0] != 'P'
  {
    var yy := Body(syn);
    if syn.years.Some? { assert yy[0] == syn.years.value[0]; }
    else if syn.months.Some? { assert yy[0] == syn.months.value[0]; }
    else if syn.weeks.Some? { assert yy[0] == syn.weeks.value[0]; }
    else if syn.days.Some? { assert yy[0] == syn.days.value[0]; }
  }

  /** Every well-formed path through the grammar is found again by the recognizer. */
  lemma RecognizeComplete(syn: DurationSyntax)
    requires WellFormed(syn)
    ensures Recognize(Render(syn)) == Some(syn)
  {
    var s := Render(syn);
    var p := |s| > 0 && s[0] == 'P';
    assert p == syn.leadingP && (if p then s[1..] else s) == Body(syn) by {
      BodyNotP(syn);
      if syn.leadingP {
        TailOfCons('P', Body(syn));
      }
    }
    assert Recognize(s) == ReadPath(Body(syn), syn.leadingP);
    ReadPathComplete(syn);
  }

  lemma TailOfCons(c: char, b: string)
    ensures ([c] + b)[0] == c && ([c] + b)[1..] == b
  {
  }

  lemma ReadPathComplete(syn: DurationSyntax)
    requires WellFormed(syn)
    ensures ReadPath(Body(syn), syn.leadingP) == Some(syn)
  {
    ReadBody(syn);
  }

  /** The recognizer decides the regular expression exactly. */
  lemma RecognizeDecides(s: string)
    ensures Recognize(s).Some? <==> MatchesDurationRegex(s)
  {
    if Recognize(s).Some? {
      RecognizeSound(s);
    }
    if MatchesDurationRegex(s) {
      var syn :| WellFormed(syn) && Render(syn) == s;
      RecognizeComplete(syn);
    }
  }

  /** A path through the grammar is determined by its text. */
  lemma RenderInjective(a: DurationSyntax, b: DurationSyntax)
    requires WellFormed(a) && WellFormed(b) && Render(a) == Render(b)
    ensures a == b
  {
    RecognizeComplete(a);
    RecognizeComplete(b);
  }

  /** Digits straight after the day group, with no `T` before them, are never matched. */
  lemma DigitsAfterDays(ds: string, rest: string)
    requires IsNumeral(ds) && rest != [] && IsDigit(rest[0])
    ensures !MatchesDurationRegex(ds + "D" + rest)
  {
    var s := ds + "D" + rest;
    assert s == ds + ['D'] + rest;
    LeadingDigitsStop(ds, 'D', rest);
    assert s[|ds|] == 'D' && s[..|ds|] == ds && s[|ds| + 1..] == rest;
    assert ReadGroup(s, 'Y') == (None, s);
    assert ReadGroup(s, 'M') == (None, s);
    assert ReadGroup(s, 'W') == (None, s);
    assert ReadGroup(s, 'D') == (Some(ds), rest);
    assert ReadTime(rest) == (None, rest);
    assert Recognize(s) == None;
    RecognizeDecides(s);
  }

  /** Text that starts with anything but a digit, `P`, `T` or the final newline is never matched. */
  lemma BadStart(s: string)
    requires s != [] && !IsDigit(s[0]) && s[0] != 'P' && s[0] != 'T' && s != "\n"
    ensures !MatchesDurationRegex(s)
  {
    assert LeadingDigits(s) == 0;
    assert ReadGroup(s, 'Y') == (None, s);
    assert ReadTime(s) == (None, s);
    assert Recognize(s) == None;
    RecognizeDecides(s);
  }

  /** Digits followed by anything but a digit or a unit letter of the date part are never matched. */
  lemma StrayAfterDigits(ds: string, c: char, rest: string)
    requires IsNumeral(ds) && !IsDigit(c) && c != 'Y' && c != 'M' && c != 'W' && c != 'D'
    ensures !MatchesDurationRegex(ds + [c] + rest)
  {
    var s := ds + [c] + rest;
    LeadingDigitsStop(ds, c, rest);
    assert s[|ds|] == c;
    assert ReadGroup(s, 'Y') == (None, s);
    assert ReadGroup(s, 'M') == (None, s);
    assert ReadGroup(s, 'W') == (None, s);
    assert ReadGroup(s, 'D') == (None, s);
    assert s[0] == ds[0];
    assert ReadTime(s) == (None, s);
    assert Recognize(s) == None;
    RecognizeDecides(s);
  }
}
