/**
 * The value model: Python's `datetime.date`, `datetime.time`, `datetime.datetime` and
 * `datetime.timedelta` as integer records, with the two pieces of calendar arithmetic the
 * parser needs (adding days to a date, adding a timedelta to a datetime) and the range
 * checks behind Python's `OverflowError`.
 */
module Calendar {
  import opened Wrappers

  const MIN_YEAR := 1
  const MAX_YEAR := 9999
  /** `timedelta.max.days`: a timedelta's day count lies within plus or minus this. */
  const MAX_DELTA_DAYS := 999_999_999

  const SECOND_US := 1_000_000
  const MINUTE_US := 60_000_000
  const HOUR_US := 3_600_000_000
  const DAY_US := 86_400_000_000

  predicate IsLeap(y: int) {
    y % 4 == 0 && (y % 100 != 0 || y % 400 == 0)
  }

  function DaysInYear(y: int): int {
    if IsLeap(y) then 366 else 365
  }

  function DaysInMonth(y: int, m: int): (n: int)
    ensures 28 <= n <= 31
  {
    if m == 2 then (if IsLeap(y) then 29 else 28)
    else if m == 4 || m == 6 || m == 9 || m == 11 then 30
    else 31
  }

  /** Days in the months of year `y` before month `m`. */
  function DaysBeforeMonth(y: int, m: int): int
    requires 1 <= m <= 12
  {
    [0, 31, 59, 90, 120, 151, 181, 212, 243, 273, 304, 334][m - 1]
      + (if m > 2 && IsLeap(y) then 1 else 0)
  }

  /** Days in the years before year `y`, counted from year 1 of the proleptic Gregorian calendar. */
  function DaysBeforeYear(y: int): int
    requires y >= 1
  {
    var p := y - 1;
    365 * p + p / 4 - p / 100 + p / 400
  }

  datatype Date = Date(year: int, month: int, day: int) {
    /** A real calendar day in the years Python supports. */
    predicate Valid() {
      MIN_YEAR <= year <= MAX_YEAR && 1 <= month <= 12 && 1 <= day <= DaysInMonth(year, month)
    }

    /** `date.toordinal()`: day 1 is 0001-01-01. */
    function Ordinal(): int
      requires Valid()
    {
      DaysBeforeYear(year) + DaysBeforeMonth(year, month) + day
    }
  }

  const MIN_DATE := Date(MIN_YEAR, 1, 1)
  const MAX_DATE := Date(MAX_YEAR, 12, 31)
  /** `date.max.toordinal()`. */
  const MAX_ORDINAL := 3_652_059

  /** The following calendar day, or `None` past `date.max`. */
  function NextDay(d: Date): Option<Date> {
    if d.day < DaysInMonth(d.year, d.month) then Some(Date(d.year, d.month, d.day + 1))
    else if d.month < 12 then Some(Date(d.year, d.month + 1, 1))
    else if d.year < MAX_YEAR then Some(Date(d.year + 1, 1, 1))
    else None
  }

  /** The preceding calendar day, or `None` before `date.min`. */
  function PrevDay(d: Date): Option<Date> {
    if d.day > 1 then Some(Date(d.year, d.month, d.day - 1))
    else if d.month > 1 then Some(Date(d.year, d.month - 1, DaysInMonth(d.year, d.month - 1)))
    else if d.year > MIN_YEAR then Some(Date(d.year - 1, 12, 31))
    else None
  }

  /** `d + timedelta(days=n)`, one day at a time; `None` is Python's `OverflowError`. */
  function AddDays(d: Date, n: int): Option<Date>
    decreases if n >= 0 then n else -n
  {
    if n == 0 then Some(d)
    else if n > 0 then
      match NextDay(d)
      case None => None
      case Some(e) => AddDays(e, n - 1)
    else
      match PrevDay(d)
      case None => None
      case Some(e) => AddDays(e, n + 1)
  }

  /** `datetime.time`: a time of day without a timezone. */
  datatype Time = Time(hour: int, minute: int, second: int, microsecond: int) {
    predicate Valid() {
      0 <= hour < 24 && 0 <= minute < 60 && 0 <= second < 60 && 0 <= microsecond < SECOND_US
    }
  }

  /**
   * `datetime.timedelta`, held as its total number of microseconds. Python's normalised
   * fields are derived from it: `days` may be negative, while `seconds` and `microseconds`
   * never are.
   */
  datatype TimeDelta = TimeDelta(micros: int) {
    function Days(): int { micros / DAY_US }

    function Seconds(): (s: int)
      ensures 0 <= s < 86_400
    {
      (micros % DAY_US) / SECOND_US
    }

    function Microseconds(): (us: int)
      ensures 0 <= us < SECOND_US
    {
      micros % SECOND_US
    }

    /** Python refuses to build a timedelta beyond `timedelta.max` or below `timedelta.min`. */
    predicate Valid() { -MAX_DELTA_DAYS <= Days() <= MAX_DELTA_DAYS }
  }

  /** `timedelta(days=n)`. */
  function DaysDelta(n: int): TimeDelta {
    TimeDelta(n * DAY_US)
  }

  /**
   * `datetime.datetime`; `tz` is the fixed UTC offset of an aware datetime (`None` for a
   * naive one). Python requires an offset strictly within one day.
   */
  datatype DateTime = DateTime(date: Date, hour: int, minute: int, second: int, microsecond: int,
                               tz: Option<TimeDelta>) {
    predicate Valid() {
      && date.Valid()
      && TimeOfDay().Valid()
      && (tz.Some? ==> -DAY_US < tz.value.micros < DAY_US)
    }

    /** `datetime.time()`: the wall-clock time, without the timezone. */
    function TimeOfDay(): Time {
      Time(hour, minute, second, microsecond)
    }

    function MicrosOfDay(): int {
      hour * HOUR_US + minute * MINUTE_US + second * SECOND_US + microsecond
    }

    /** Microseconds since 0001-01-01T00:00 minus one day, on the wall clock. */
    function Instant(): int
      requires date.Valid()
    {
      date.Ordinal() * DAY_US + MicrosOfDay()
    }
  }

  /** The four temporal types: what the parser returns and what the formatter renders. */
  datatype Value =
    | DateVal(date: Date)
    | DateTimeVal(dt: DateTime)
    | TimeVal(time: Time)
    | DeltaVal(delta: TimeDelta)

  /** The wall-clock instants that Python's datetime can represent. */
  predicate InstantInRange(t: int) {
    DAY_US <= t < (MAX_ORDINAL + 1) * DAY_US
  }

  /**
   * `dt + td`: the wall clock moves by exactly `td`, the timezone is kept, and the result is
   * `None` (Python's `OverflowError`) exactly when it would leave the supported years.
   */
  function AddDelta(dt: DateTime, td: TimeDelta): (r: Option<DateTime>)
    ensures dt.Valid() ==> (r.Some? <==> InstantInRange(dt.Instant() + td.micros))
    ensures dt.Valid() && r.Some? ==>
      && r.value.Valid()
      && r.value.Instant() == dt.Instant() + td.micros
      && r.value.tz == dt.tz
  {
    var total := dt.MicrosOfDay() + td.micros;
    var carry := total / DAY_US;
    var rem := total % DAY_US;
    var r := match AddDays(dt.date, carry)
      case None => None
      case Some(d) => Some(FromDayAndMicros(d, rem, dt.tz));
    SplitMicrosOfDay(rem);
    if dt.Valid() then
      AddDaysOrdinal(dt.date, carry);
      InstantRangeByDay(dt.Instant() + td.micros, dt.date.Ordinal() + carry, rem);
      r
    else
      r
  }

  /** The datetime `rem` microseconds into day `d`. */
  function FromDayAndMicros(d: Date, rem: int, tz: Option<TimeDelta>): DateTime {
    DateTime(d, rem / HOUR_US, (rem / MINUTE_US) % 60, (rem / SECOND_US) % 60, rem % SECOND_US, tz)
  }

  // ----- lemmas about the calendar -----

  lemma DaysBeforeYearStep(y: int)
    requires y >= 1
    ensures DaysBeforeYear(y + 1) == DaysBeforeYear(y) + DaysInYear(y)
  {
    var p := y - 1;
    var a, b, c := y / 4 - p / 4, y / 100 - p / 100, y / 400 - p / 400;
    DivStep(y, 4);
    DivStep(y, 100);
    DivStep(y, 400);
    if y % 100 == 0 {
      DivModUnique(y, 4, 25 * (y / 100), 0);
    }
    if y % 400 == 0 {
      DivModUnique(y, 100, 4 * (y / 400), 0);
    }
    assert DaysInYear(y) == 365 + a - b + c;
    assert DaysBeforeYear(y + 1) == 365 * p + 365 + y / 4 - y / 100 + y / 400;
  }

  /** Going back one from `y` lowers the quotient by `k` exactly when `k` divides `y`. */
  lemma DivStep(y: int, k: int)
    requires k > 0
    ensures y / k - (y - 1) / k == if y % k == 0 then 1 else 0
  {
    var q, r := y / k, y % k;
    if r > 0 {
      DivModUnique(y - 1, k, q, r - 1);
    } else {
      DivModUnique(y - 1, k, q - 1, k - 1);
    }
  }

  lemma {:induction false} DaysBeforeYearGrows(a: int, b: int)
    requires 1 <= a <= b
    ensures DaysBeforeYear(a) + 365 * (b - a) <= DaysBeforeYear(b)
    decreases b - a
  {
    if a < b {
      DaysBeforeYearStep(a);
      DaysBeforeYearGrows(a + 1, b);
    }
  }

  lemma MonthStep(y: int, m: int)
    requires 1 <= m < 12
    ensures DaysBeforeMonth(y, m + 1) == DaysBeforeMonth(y, m) + DaysInMonth(y, m)
  {
  }

  lemma LastMonth(y: int)
    ensures DaysBeforeMonth(y, 12) + DaysInMonth(y, 12) == DaysInYear(y)
  {
  }

  lemma {:induction false} DaysBeforeMonthGrows(y: int, a: int, b: int)
    requires 1 <= a <= b <= 12
    ensures DaysBeforeMonth(y, a) + 28 * (b - a) <= DaysBeforeMonth(y, b)
    decreases b - a
  {
    if a < b {
      MonthStep(y, a);
      DaysBeforeMonthGrows(y, a + 1, b);
    }
  }

  /** Ordinals of valid dates lie in `1..MAX_ORDINAL`, and only the two end dates reach the ends. */
  lemma OrdinalBounds(d: Date)
    requires d.Valid()
    ensures 1 <= d.Ordinal() <= MAX_ORDINAL
    ensures d.Ordinal() == 1 ==> d == MIN_DATE
    ensures d.Ordinal() == MAX_ORDINAL ==> d == MAX_DATE
  {
    DaysBeforeYearGrows(1, d.year);
    DaysBeforeMonthGrows(d.year, 1, d.month);
    // the date lies within its year
    assert d.Ordinal() <= DaysBeforeYear(d.year) + DaysInYear(d.year) by {
      DaysBeforeMonthGrows(d.year, d.month, 12);
      LastMonth(d.year);
      if d.month < 12 {
        MonthStep(d.year, d.month);
        DaysBeforeMonthGrows(d.year, d.month + 1, 12);
      }
    }
    DaysBeforeYearStep(d.year);
    DaysBeforeYearGrows(d.year + 1, MAX_YEAR + 1);
    if d.Ordinal() == MAX_ORDINAL {
      if d.year < MAX_YEAR {
        DaysBeforeYearGrows(d.year + 1, MAX_YEAR);
        DaysBeforeYearStep(MAX_YEAR);
        assert false;
      }
      if d.month < 12 {
        MonthStep(d.year, d.month);
        DaysBeforeMonthGrows(d.year, d.month + 1, 12);
        LastMonth(d.year);
        assert false;
      }
    }
    if d.Ordinal() == 1 && d.year > 1 {
      DaysBeforeYearGrows(1, d.year);
      assert false;
    }
    if d.Ordinal() == 1 && d.month > 1 {
      DaysBeforeMonthGrows(d.year, 1, d.month);
      assert false;
    }
  }

  /** The next day exists except at `date.max`, is valid, and is one ordinal later. */
  lemma NextDayOrdinal(d: Date)
    requires d.Valid()
    ensures NextDay(d).Some? <==> d != MAX_DATE
    ensures NextDay(d).Some? ==> NextDay(d).value.Valid() && NextDay(d).value.Ordinal() == d.Ordinal() + 1
  {
    if d.day == DaysInMonth(d.year, d.month) {
      if d.month < 12 {
        MonthStep(d.year, d.month);
      } else {
        LastMonth(d.year);
        DaysBeforeYearStep(d.year);
      }
    }
  }

  /** The previous day exists except at `date.min`, is valid, and is one ordinal earlier. */
  lemma PrevDayOrdinal(d: Date)
    requires d.Valid()
    ensures PrevDay(d).Some? <==> d != MIN_DATE
    ensures PrevDay(d).Some? ==> PrevDay(d).value.Valid() && PrevDay(d).value.Ordinal() == d.Ordinal() - 1
  {
    if d.day == 1 && d.month > 1 {
      PrevAcrossMonth(d);
    } else if d.day == 1 && d.year > MIN_YEAR {
      PrevAcrossYear(d);
    }
  }

  lemma PrevAcrossMonth(d: Date)
    requires d.Valid() && d.day == 1 && d.month > 1
    ensures var e := Date(d.year, d.month - 1, DaysInMonth(d.year, d.month - 1));
      PrevDay(d) == Some(e) && e.Valid() && e.Ordinal() == d.Ordinal() - 1
  {
    MonthStep(d.year, d.month - 1);
  }

  lemma PrevAcrossYear(d: Date)
    requires d.Valid() && d.day == 1 && d.month == 1 && d.year > MIN_YEAR
    ensures var e := Date(d.year - 1, 12, 31);
      PrevDay(d) == Some(e) && e.Valid() && e.Ordinal() == d.Ordinal() - 1
  {
    var e := Date(d.year - 1, 12, 31);
    LastMonth(d.year - 1);
    DaysBeforeYearStep(d.year - 1);
    assert d.Ordinal() == DaysBeforeYear(d.year) + 1;
    assert e.Ordinal() == DaysBeforeYear(d.year - 1) + DaysInYear(d.year - 1);
  }

  /** Adding `n` days moves the ordinal by `n`, and fails exactly when it leaves `1..MAX_ORDINAL`. */
  lemma {:induction false} AddDaysOrdinal(d: Date, n: int)
    requires d.Valid()
    ensures AddDays(d, n).Some? <==> 1 <= d.Ordinal() + n <= MAX_ORDINAL
    ensures AddDays(d, n).Some? ==>
      AddDays(d, n).value.Valid() && AddDays(d, n).value.Ordinal() == d.Ordinal() + n
    decreases if n >= 0 then n else -n
  {
    OrdinalBounds(d);
    if n > 0 {
      NextDayOrdinal(d);
      if d != MAX_DATE {
        AddDaysOrdinal(NextDay(d).value, n - 1);
      }
    } else if n < 0 {
      PrevDayOrdinal(d);
      if d != MIN_DATE {
        AddDaysOrdinal(PrevDay(d).value, n + 1);
      }
    }
  }

  /** A microsecond-of-day count splits into valid hour, minute, second and microsecond fields. */
  lemma SplitMicrosOfDay(rem: int)
    requires 0 <= rem < DAY_US
    ensures 0 <= rem / HOUR_US < 24
    ensures (rem / HOUR_US) * HOUR_US + ((rem / MINUTE_US) % 60) * MINUTE_US
            + ((rem / SECOND_US) % 60) * SECOND_US + rem % SECOND_US == rem
  {
    var s := rem / SECOND_US;
    var mi := s / 60;
    assert rem / MINUTE_US == mi;
    assert rem / HOUR_US == mi / 60;
    assert rem == s * SECOND_US + rem % SECOND_US;
    assert s == mi * 60 + s % 60;
    assert mi == (mi / 60) * 60 + mi % 60;
  }

  /** Splitting the microsecond-of-day count of a valid time gives back its fields. */
  lemma MicrosOfDayFields(dt: DateTime)
    requires dt.TimeOfDay().Valid()
    ensures 0 <= dt.MicrosOfDay() < DAY_US
    ensures FromDayAndMicros(dt.date, dt.MicrosOfDay(), dt.tz) == dt
  {
    var rem := dt.MicrosOfDay();
    var secs := (dt.hour * 60 + dt.minute) * 60 + dt.second;
    assert rem == secs * SECOND_US + dt.microsecond;
    assert rem / SECOND_US == secs;
    assert rem % SECOND_US == dt.microsecond;
    assert rem / MINUTE_US == dt.hour * 60 + dt.minute;
    assert rem / HOUR_US == dt.hour;
  }

  /** `dt + timedelta(1)` keeps the time of day and moves to the next calendar day. */
  lemma AddOneDay(dt: DateTime)
    requires dt.Valid()
    ensures AddDelta(dt, DaysDelta(1)) ==
      if dt.date == MAX_DATE then None else Some(dt.(date := NextDay(dt.date).value))
  {
    OneDayCarry(dt);
    MicrosOfDayFields(dt);
    NextDayOrdinal(dt.date);
    if dt.date != MAX_DATE {
      var e := NextDay(dt.date).value;
      assert AddDays(dt.date, 1) == AddDays(e, 0) == Some(e);
      AddDeltaByDay(dt, DaysDelta(1), e);
    } else {
      assert AddDays(dt.date, 1) == None;
    }
  }

  lemma OneDayCarry(dt: DateTime)
    requires dt.Valid()
    ensures (dt.MicrosOfDay() + DaysDelta(1).micros) / DAY_US == 1
    ensures (dt.MicrosOfDay() + DaysDelta(1).micros) % DAY_US == dt.MicrosOfDay()
  {
    MicrosOfDayFields(dt);
  }

  lemma AddDeltaByDay(dt: DateTime, td: TimeDelta, e: Date)
    requires dt.Valid() && AddDays(dt.date, 1) == Some(e)
    requires (dt.MicrosOfDay() + td.micros) / DAY_US == 1
    requires (dt.MicrosOfDay() + td.micros) % DAY_US == dt.MicrosOfDay()
    ensures AddDelta(dt, td) == Some(FromDayAndMicros(e, dt.MicrosOfDay(), dt.tz))
  {
  }

  /** Adding less than what is left of the day changes the time of day only. */
  lemma AddWithinDay(dt: DateTime, td: TimeDelta)
    requires dt.Valid() && 0 <= dt.MicrosOfDay() + td.micros < DAY_US
    ensures AddDelta(dt, td) == Some(FromDayAndMicros(dt.date, dt.MicrosOfDay() + td.micros, dt.tz))
  {
    assert (dt.MicrosOfDay() + td.micros) / DAY_US == 0;
    assert (dt.MicrosOfDay() + td.micros) % DAY_US == dt.MicrosOfDay() + td.micros;
  }

  lemma InstantRangeByDay(t: int, ord: int, rem: int)
    requires 0 <= rem < DAY_US && t == ord * DAY_US + rem
    ensures InstantInRange(t) <==> 1 <= ord <= MAX_ORDINAL
  {
  }

  /** Euclidean division is unique: a quotient and remainder in range are the ones `/` and `%` give. */
  lemma DivModUnique(x: int, d: int, q: int, r: int)
    requires d > 0 && x == q * d + r && 0 <= r < d
    ensures x / d == q && x % d == r
  {
    var q', r' := x / d, x % d;
    assert (q - q') * d == r' - r;
    if q > q' {
      MulAtLeast(q - q', d);
    } else if q < q' {
      MulAtLeast(q' - q, d);
    }
  }

  lemma MulAtLeast(a: int, d: int)
    requires a >= 1 && d > 0
    ensures a * d >= d
  {
  }

  /** Taking whole days off a timedelta lowers `days` and keeps `seconds` and `microseconds`. */
  lemma ShiftDays(td: TimeDelta, k: int)
    ensures TimeDelta(td.micros - k * DAY_US).Days() == td.Days() - k
    ensures TimeDelta(td.micros - k * DAY_US).Seconds() == td.Seconds()
    ensures TimeDelta(td.micros - k * DAY_US).Microseconds() == td.Microseconds()
  {
    var q, r := td.Days(), td.micros % DAY_US;
    assert td.micros - k * DAY_US == (q - k) * DAY_US + r;
    DivModUnique(td.micros - k * DAY_US, DAY_US, q - k, r);
    var s, u := r / SECOND_US, r % SECOND_US;
    assert td.micros == (q * 86_400 + s) * SECOND_US + u;
    assert td.micros - k * DAY_US == ((q - k) * 86_400 + s) * SECOND_US + u;
    DivModUnique(td.micros, SECOND_US, q * 86_400 + s, u);
    DivModUnique(td.micros - k * DAY_US, SECOND_US, (q - k) * 86_400 + s, u);
  }

  /** A timedelta is its days, seconds and microseconds put together. */
  lemma Decompose(td: TimeDelta)
    ensures td.micros == td.Days() * DAY_US + td.Seconds() * SECOND_US + td.Microseconds()
  {
    var r := td.micros % DAY_US;
    assert td.micros == td.Days() * DAY_US + r;
    assert r == (r / SECOND_US) * SECOND_US + r % SECOND_US;
    assert r % SECOND_US == td.Microseconds() by {
      DivModUnique(td.micros, SECOND_US, td.Days() * 86_400 + r / SECOND_US, r % SECOND_US);
    }
  }
}
