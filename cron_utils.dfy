/** Cron patterns from instants: the UTC minute, hour, day of month, month
    and day of week of a millisecond timestamp, written as the five
    space-separated fields of a cron expression. An instant outside the
    range a JavaScript `Date` can hold gives `NaN` for every calendar field.
    The day and month come from the Gregorian calendar, which repeats every
    400 years (146097 days): the day count is reduced into one cycle
    starting on 1 January 1970 and walked year by year, then month by
    month. */
module CronPatterns {
  import opened Wrappers

  const MsPerMinute: int := 60000
  const MsPerHour: int := 3600000
  const MsPerDay: int := 86400000
  /** A `Date` holds instants at most this many milliseconds from the epoch. */
  const MaxTime: int := 8640000000000000
  const DaysPer400Years: int := 146097

  /* ---------- the calendar ---------- */

  predicate IsLeap(year: int) {
    year % 4 == 0 && (year % 100 != 0 || year % 400 == 0)
  }

  function DaysInYear(year: int): nat {
    if IsLeap(year) then 366 else 365
  }

  function DaysInMonth(month: int, leap: bool): nat {
    if month == 2 then (if leap then 29 else 28)
    else if month == 4 || month == 6 || month == 9 || month == 11 then 30
    else 31
  }

  /** The days in the months from `month` to December. */
  function DaysFromMonth(month: int, leap: bool): nat
    requires 1 <= month <= 12
    decreases 12 - month
  {
    if month == 12 then DaysInMonth(12, leap) else DaysInMonth(month, leap) + DaysFromMonth(month + 1, leap)
  }

  lemma MonthsMakeYear(year: int)
    ensures DaysFromMonth(1, IsLeap(year)) == DaysInYear(year)
  {
    var leap := IsLeap(year);
    assert DaysFromMonth(9, leap) == 122;
    assert DaysFromMonth(5, leap) == 245;
    assert DaysFromMonth(2, leap) == if leap then 335 else 334;
  }

  /** The days in the months before `month` (January is 1). */
  function DaysBeforeMonth(month: int, leap: bool): nat
    requires 1 <= month <= 12
  {
    if month == 1 then 0 else DaysBeforeMonth(month - 1, leap) + DaysInMonth(month - 1, leap)
  }

  /** The leap years among the years 1 to `y`; below 1 the count goes on
      downward, so that it still grows by one exactly at each leap year. */
  function LeapYearsThrough(y: int): int {
    y / 4 - y / 100 + y / 400
  }

  /** Each of the three counts steps up exactly at its multiples. */
  lemma DivisionSteps(y: int)
    ensures y / 4 - (y - 1) / 4 == if y % 4 == 0 then 1 else 0
    ensures y / 100 - (y - 1) / 100 == if y % 100 == 0 then 1 else 0
    ensures y / 400 - (y - 1) / 400 == if y % 400 == 0 then 1 else 0
  {
  }

  lemma DividesChain(y: int)
    ensures y % 100 == 0 ==> y % 4 == 0
    ensures y % 400 == 0 ==> y % 100 == 0
  {
    if y % 100 == 0 {
      assert y == 4 * (25 * (y / 100));
    }
    if y % 400 == 0 {
      assert y == 100 * (4 * (y / 400));
    }
  }

  lemma LeapYearStep(y: int)
    ensures LeapYearsThrough(y) == LeapYearsThrough(y - 1) + if IsLeap(y) then 1 else 0
  {
    DivisionSteps(y);
    DividesChain(y);
  }

  /** Shifting a year by whole 400-year cycles. */
  lemma CycleShift(y: int, cycles: int)
    ensures (y + 400 * cycles) / 4 == y / 4 + 100 * cycles
    ensures (y + 400 * cycles) / 100 == y / 100 + 4 * cycles
    ensures (y + 400 * cycles) / 400 == y / 400 + cycles
    ensures (y + 400 * cycles) % 4 == y % 4
    ensures (y + 400 * cycles) % 100 == y % 100
    ensures (y + 400 * cycles) % 400 == y % 400
  {
  }

  /** The days from 1 January 1970 to 1 January of `year`, negative for
      earlier years. */
  function DaysBeforeYear(year: int): int {
    365 * (year - 1970) + LeapYearsThrough(year - 1) - LeapYearsThrough(1969)
  }

  /** Reference: the days from 1 January 1970 to a date of the proleptic
      Gregorian calendar (month 1..12, day from 1). */
  function DaysFromCivil(year: int, month: int, day: int): int
    requires 1 <= month <= 12
  {
    DaysBeforeYear(year) + DaysBeforeMonth(month, IsLeap(year)) + day - 1
  }

  /** Later months start after the whole of each earlier month. */
  lemma {:induction false} DaysBeforeMonthGrows(m1: int, m2: int, leap: bool)
    requires 1 <= m1 < m2 <= 12
    ensures DaysBeforeMonth(m2, leap) >= DaysBeforeMonth(m1, leap) + DaysInMonth(m1, leap)
    decreases m2 - m1
  {
    if m1 + 1 < m2 {
      DaysBeforeMonthGrows(m1 + 1, m2, leap);
    }
  }

  /** Within a year, a day count names one date only. */
  lemma CivilDateUnique(year: int, m1: int, d1: int, m2: int, d2: int)
    requires 1 <= m1 <= 12 && 1 <= d1 <= DaysInMonth(m1, IsLeap(year))
    requires 1 <= m2 <= 12 && 1 <= d2 <= DaysInMonth(m2, IsLeap(year))
    requires DaysFromCivil(year, m1, d1) == DaysFromCivil(year, m2, d2)
    ensures m1 == m2 && d1 == d2
  {
    if m1 < m2 {
      DaysBeforeMonthGrows(m1, m2, IsLeap(year));
    } else if m2 < m1 {
      DaysBeforeMonthGrows(m2, m1, IsLeap(year));
    }
  }

  /** The calendar repeats every 400 years, which are 146097 days. */
  lemma CalendarCycle(year: int, cycles: int)
    ensures IsLeap(year + 400 * cycles) == IsLeap(year)
    ensures DaysBeforeYear(year + 400 * cycles) == DaysBeforeYear(year) + DaysPer400Years * cycles
  {
    CycleShift(year, cycles);
    CycleShift(year - 1, cycles);
    assert year + 400 * cycles - 1 == (year - 1) + 400 * cycles;
  }

  /** The year and the zero-based day within it, for a day count from
      1 January of `year`. */
  function YearAndDay(days: nat, year: int): (r: (int, nat))
    ensures year <= r.0 && r.1 < DaysInYear(r.0)
    decreases days
  {
    if days < DaysInYear(year) then (year, days)
    else YearAndDay(days - DaysInYear(year), year + 1)
  }

  /** The year walk against the reference day count: `days` after 1 January
      of `year` is day `r.1` of year `r.0`. */
  lemma {:induction false} YearAndDayCivil(days: nat, year: int)
    ensures DaysBeforeYear(YearAndDay(days, year).0) + YearAndDay(days, year).1 == DaysBeforeYear(year) + days
    decreases days
  {
    if days >= DaysInYear(year) {
      LeapYearStep(year);
      YearAndDayCivil(days - DaysInYear(year), year + 1);
    }
  }

  /** The month (1..12) and day of month (1..31) for a zero-based day
      within the year, counted from the first day of `month`. */
  function MonthAndDay(dayOfYear: nat, month: int, leap: bool): (r: (int, int))
    requires 1 <= month <= 12
    requires dayOfYear < DaysFromMonth(month, leap)
    ensures month <= r.0 <= 12
    ensures 1 <= r.1 <= DaysInMonth(r.0, leap) <= 31
    decreases 12 - month
  {
    if dayOfYear < DaysInMonth(month, leap) then (month, dayOfYear + 1)
    else MonthAndDay(dayOfYear - DaysInMonth(month, leap), month + 1, leap)
  }

  /** The month walk against the reference: day `dayOfYear` counted from the
      first of `month` is day `r.1` of month `r.0`. */
  lemma {:induction false} MonthAndDayCivil(dayOfYear: nat, month: int, leap: bool)
    requires 1 <= month <= 12
    requires dayOfYear < DaysFromMonth(month, leap)
    ensures var r := MonthAndDay(dayOfYear, month, leap);
            DaysBeforeMonth(r.0, leap) + r.1 - 1 == DaysBeforeMonth(month, leap) + dayOfYear
    decreases 12 - month
  {
    if dayOfYear >= DaysInMonth(month, leap) {
      MonthAndDayCivil(dayOfYear - DaysInMonth(month, leap), month + 1, leap);
    }
  }

  /** The `getUTC*` fields of a valid `Date`: minute, hour, day of month,
      month (1..12, one more than `getUTCMonth`) and day of week (Sunday 0). */
  datatype DateParts = DateParts(minute: int, hour: int, day: int, month: int, weekday: int)

  /** The calendar fields of the day `days` after 1 January 1970. */
  function DayParts(days: int): (r: (int, int, int))
  {
    var (year, dayOfYear) := YearAndDay(days % DaysPer400Years, 1970);
    MonthsMakeYear(year);
    var (month, day) := MonthAndDay(dayOfYear, 1, IsLeap(year));
    (day, month, (days + 4) % 7)
  }

  /** `new Date(timestamp)` read with `getUTCMinutes`, `getUTCHours`,
      `getUTCDate`, `getUTCMonth() + 1` and `getUTCDay`; None for an
      invalid date. Division rounds toward minus infinity, as the date
      arithmetic does for instants before the epoch. */
  function UtcParts(timestamp: int): (r: Option<DateParts>)
    ensures r.None? <==> timestamp < -MaxTime || timestamp > MaxTime
    ensures r.Some? ==> 0 <= r.value.minute < 60 && 0 <= r.value.hour < 24
    ensures r.Some? ==> 1 <= r.value.day <= 31 && 1 <= r.value.month <= 12 && 0 <= r.value.weekday < 7
    ensures r.Some? ==> r.value.minute == (timestamp / MsPerMinute) % 60 && r.value.hour == (timestamp / MsPerHour) % 24
    ensures r.Some? ==> r.value.weekday == (timestamp / MsPerDay + 4) % 7
  {
    if timestamp < -MaxTime || timestamp > MaxTime then None
    else
      var (day, month, weekday) := DayParts(timestamp / MsPerDay);
      Some(DateParts((timestamp / MsPerMinute) % 60, (timestamp / MsPerHour) % 24, day, month, weekday))
  }

  /** The calendar year of the day `days` after 1 January 1970. */
  function YearOf(days: int): int {
    YearAndDay(days % DaysPer400Years, 1970).0 + 400 * (days / DaysPer400Years)
  }

  /** An instant is its whole days since the epoch, then the hour, the
      minute and the milliseconds left in the minute. */
  lemma TimeOfDay(t: int)
    ensures t == (t / MsPerDay) * MsPerDay + ((t / MsPerHour) % 24) * MsPerHour
                 + ((t / MsPerMinute) % 60) * MsPerMinute + t % MsPerMinute
  {
    var m := t / MsPerMinute;
    var h := t / MsPerHour;
    assert m / 60 == h;
    assert h / 24 == t / MsPerDay;
  }

  /** The day and month of a day count against the reference calendar: a
      real date of the day's year whose reference count is the day count. */
  lemma DayPartsCivil(days: int)
    ensures var (day, month, weekday) := DayParts(days);
            && 1 <= month <= 12 && 1 <= day <= DaysInMonth(month, IsLeap(YearOf(days)))
            && DaysFromCivil(YearOf(days), month, day) == days
            && weekday == (days + 4) % 7
  {
    var cycles := days / DaysPer400Years;
    var rest := days % DaysPer400Years;
    var (year, dayOfYear) := YearAndDay(rest, 1970);
    MonthsMakeYear(year);
    var (month, day) := MonthAndDay(dayOfYear, 1, IsLeap(year));
    assert DayParts(days) == (day, month, (days + 4) % 7);
    YearAndDayCivil(rest, 1970);
    MonthAndDayCivil(dayOfYear, 1, IsLeap(year));
    assert DaysFromCivil(year, month, day) == rest;
    CalendarCycle(year, cycles);
    assert YearOf(days) == year + 400 * cycles;
    assert rest + DaysPer400Years * cycles == days;
  }

  /** The fields of a valid instant against the reference calendar: the day
      and month are a real date of the instant's year whose day count is the
      instant's whole days since the epoch, the week day steps with the day
      from Thursday 1 January 1970, and the hour and minute are those left
      after the whole days. */
  lemma UtcPartsCivil(timestamp: int)
    requires UtcParts(timestamp).Some?
    ensures var p := UtcParts(timestamp).value;
            var days := timestamp / MsPerDay;
            && p.day <= DaysInMonth(p.month, IsLeap(YearOf(days)))
            && DaysFromCivil(YearOf(days), p.month, p.day) == days
            && p.weekday == (DaysFromCivil(YearOf(days), p.month, p.day) + 4) % 7
            && timestamp == days * MsPerDay + p.hour * MsPerHour + p.minute * MsPerMinute + timestamp % MsPerMinute
  {
    DayPartsCivil(timestamp / MsPerDay);
    TimeOfDay(timestamp);
  }

  /* ---------- rendering ---------- */

  function Digit(d: nat): char
    requires d < 10
  {
    "0123456789"[d]
  }

  /** A non-negative integer in decimal, without leading zeros. */
  function Decimal(n: nat): (s: string)
    ensures |s| >= 1 && AllDigits(s)
    decreases n
  {
    if n < 10 then [Digit(n)] else Decimal(n / 10) + [Digit(n % 10)]
  }

  predicate AllDigits(s: string) {
    forall i | 0 <= i < |s| :: '0' <= s[i] <= '9'
  }

  /** Reference reading of a decimal string. */
  function ParseDecimal(s: string): nat
    requires AllDigits(s)
  {
    if s == [] then 0
    else 10 * ParseDecimal(s[..|s| - 1]) + (s[|s| - 1] as int - '0' as int)
  }

  /** Decimal rendering reads back to the number, and starts with `0` only
      for zero itself (no zero padding). */
  lemma {:induction false} DecimalRoundTrip(n: nat)
    ensures ParseDecimal(Decimal(n)) == n
    ensures Decimal(n)[0] == '0' <==> n == 0
    decreases n
  {
    if n >= 10 {
      DecimalRoundTrip(n / 10);
      var s := Decimal(n);
      assert s[..|s| - 1] == Decimal(n / 10);
      assert s[0] == Decimal(n / 10)[0];
    }
  }

  /** A field of a pattern: a number, or `NaN` from an invalid date. */
  datatype Field = Num(n: nat) | NaN

  function Render(f: Field): (s: string)
    ensures ' ' !in s && |s| >= 1
  {
    assert f.Num? ==> forall i | 0 <= i < |Decimal(f.n)| :: Decimal(f.n)[i] != ' ';
    match f
    case Num(n) => Decimal(n)
    case NaN => "NaN"
  }

  /** Two fields joined by a single space. */
  function Cons(a: string, b: string): string {
    a + " " + b
  }

  /** Five fields joined by single spaces. */
  function Join5(a: string, b: string, c: string, d: string, e: string): string {
    Cons(a, Cons(b, Cons(c, Cons(d, e))))
  }

  /** The calendar fields of an instant, NaN for an invalid date. */
  function DateFields(timestamp: int): (r: seq<Field>)
    ensures |r| == 5
  {
    match UtcParts(timestamp)
    case None => [NaN, NaN, NaN, NaN, NaN]
    case Some(p) => [Num(p.minute), Num(p.hour), Num(p.day), Num(p.month), Num(p.weekday)]
  }

  /** The pattern that fires at the minute, hour, day, month and weekday
      the fields give. */
  function Pattern(f: seq<Field>): string
    requires |f| == 5
  {
    Join5(Render(f[0]), Render(f[1]), Render(f[2]), Render(f[3]), Render(f[4]))
  }

  /** The pattern that fires at 23:59 on the day the fields give. */
  function EndOfDayPattern(f: seq<Field>): string
    requires |f| == 5
  {
    Join5("59", "23", Render(f[2]), Render(f[3]), Render(f[4]))
  }

  /** `timestampToCron` */
  function TimestampToCron(timestamp: int): string {
    Pattern(DateFields(timestamp))
  }

  /** `createEndOfDayCronPattern`: 23:59 on the instant's UTC day. */
  function EndOfDayCron(timestamp: int): string {
    EndOfDayPattern(DateFields(timestamp))
  }

  /* ---------- reading a pattern back ---------- */

  function FirstSpace(s: string): (i: nat)
    requires ' ' in s
    ensures i < |s| && s[i] == ' ' && ' ' !in s[..i]
  {
    if s[0] == ' ' then 0
    else
      var i := FirstSpace(s[1..]);
      assert s[..i + 1] == [s[0]] + s[1..][..i];
      i + 1
  }

  /** `s.split(" ")` */
  function Split(s: string): seq<string>
    decreases |s|
  {
    if ' ' !in s then [s]
    else
      var i := FirstSpace(s);
      [s[..i]] + Split(s[i + 1..])
  }

  lemma SplitOnFirst(a: string, b: string)
    requires ' ' !in a
    ensures Split(Cons(a, b)) == [a] + Split(b)
  {
    var s := Cons(a, b);
    assert s[|a|] == ' ';
    var i := FirstSpace(s);
    assert i <= |a| by {
      if i > |a| {
        assert false;
      }
    }
    assert i == |a| by {
      if i < |a| {
        assert false;
      }
    }
    assert s[..i] == a;
    assert s[i + 1..] == b;
  }

  lemma ConsFive(a: string, b: string, c: string, d: string, e: string)
    ensures [a] + [b, c, d, e] == [a, b, c, d, e]
  {
  }

  lemma SplitJoin3(c: string, d: string, e: string)
    requires ' ' !in c && ' ' !in d && ' ' !in e
    ensures Split(Cons(c, Cons(d, e))) == [c, d, e]
  {
    assert Split(e) == [e];
    SplitOnFirst(d, e);
    SplitOnFirst(c, Cons(d, e));
  }

  lemma ConsFour(b: string, c: string, d: string, e: string)
    ensures [b] + [c, d, e] == [b, c, d, e]
  {
  }

  lemma SplitJoin4(b: string, c: string, d: string, e: string)
    requires ' ' !in b && ' ' !in c && ' ' !in d && ' ' !in e
    ensures Split(Cons(b, Cons(c, Cons(d, e)))) == [b, c, d, e]
  {
    SplitJoin3(c, d, e);
    SplitOnFirst(b, Cons(c, Cons(d, e)));
    ConsFour(b, c, d, e);
  }

  lemma SplitJoin5(a: string, b: string, c: string, d: string, e: string)
    requires ' ' !in a && ' ' !in b && ' ' !in c && ' ' !in d && ' ' !in e
    ensures Split(Join5(a, b, c, d, e)) == [a, b, c, d, e]
  {
    var t1 := Cons(b, Cons(c, Cons(d, e)));
    SplitJoin4(b, c, d, e);
    SplitOnFirst(a, t1);
    assert Join5(a, b, c, d, e) == Cons(a, t1);
    ConsFive(a, b, c, d, e);
  }

  /** A pattern splits back into its five rendered fields. */
  lemma PatternSplits(f: seq<Field>)
    requires |f| == 5
    ensures Split(Pattern(f)) == [Render(f[0]), Render(f[1]), Render(f[2]), Render(f[3]), Render(f[4])]
  {
    SplitJoin5(Render(f[0]), Render(f[1]), Render(f[2]), Render(f[3]), Render(f[4]));
  }

  /** An end-of-day pattern begins "59 23". */
  lemma EndOfDayPatternPrefix(f: seq<Field>)
    requires |f| == 5
    ensures |EndOfDayPattern(f)| > 5 && EndOfDayPattern(f)[..5] == "59 23"
  {
    var rest := Cons(Render(f[2]), Cons(Render(f[3]), Render(f[4])));
    assert EndOfDayPattern(f) == ("59" + " ") + (("23" + " ") + rest);
    assert ("59" + " ") + (("23" + " ") + rest) == "59 23" + (" " + rest);
  }

  /** An end-of-day pattern splits into "59", "23" and its last three
      rendered fields. */
  lemma EndOfDayPatternSplits(f: seq<Field>)
    requires |f| == 5
    ensures Split(EndOfDayPattern(f)) == ["59", "23", Render(f[2]), Render(f[3]), Render(f[4])]
  {
    SplitJoin5("59", "23", Render(f[2]), Render(f[3]), Render(f[4]));
  }

  /** The end-of-day pattern of some fields against their pattern. */
  lemma EndOfDayMatchesPattern(f: seq<Field>)
    requires |f| == 5
    ensures |EndOfDayPattern(f)| > 5 && EndOfDayPattern(f)[..5] == "59 23"
    ensures |Split(EndOfDayPattern(f))| == |Split(Pattern(f))| == 5
    ensures Split(EndOfDayPattern(f))[0] == "59" && Split(EndOfDayPattern(f))[1] == "23"
    ensures Split(EndOfDayPattern(f))[2..] == Split(Pattern(f))[2..]
  {
    EndOfDayPatternPrefix(f);
    EndOfDayPatternSplits(f);
    PatternSplits(f);
    var x, y, z := Render(f[2]), Render(f[3]), Render(f[4]);
    assert ["59", "23", x, y, z][2..] == [x, y, z];
    assert [Render(f[0]), Render(f[1]), x, y, z][2..] == [x, y, z];
  }

  /** `timestampToCron` gives five space-separated fields: minute, hour,
      day of month, month and day of week, in that order, each the plain
      decimal of its value, or `NaN` when the date is invalid. */
  lemma CronFields(timestamp: int)
    ensures var f := DateFields(timestamp);
            Split(TimestampToCron(timestamp)) == [Render(f[0]), Render(f[1]), Render(f[2]), Render(f[3]), Render(f[4])]
  {
    PatternSplits(DateFields(timestamp));
  }

  /** For a valid instant, reading each field of the pattern as a decimal
      gives back its UTC calendar value. */
  lemma CronReadBack(timestamp: int)
    requires UtcParts(timestamp).Some?
    ensures var fields := Split(TimestampToCron(timestamp));
            var p := UtcParts(timestamp).value;
            && |fields| == 5
            && (forall k | 0 <= k < 5 :: AllDigits(fields[k]))
            && ParseDecimal(fields[0]) == p.minute && ParseDecimal(fields[1]) == p.hour
            && ParseDecimal(fields[2]) == p.day && ParseDecimal(fields[3]) == p.month
            && ParseDecimal(fields[4]) == p.weekday
  {
    var p := UtcParts(timestamp).value;
    PatternSplits(DateFields(timestamp));
    DecimalRoundTrip(p.minute);
    DecimalRoundTrip(p.hour);
    DecimalRoundTrip(p.day);
    DecimalRoundTrip(p.month);
    DecimalRoundTrip(p.weekday);
  }

  /** The end-of-day pattern begins "59 23" and its last three fields are
      those of `timestampToCron` for the same instant. */
  lemma EndOfDayMatchesDay(timestamp: int)
    ensures |EndOfDayCron(timestamp)| > 5 && EndOfDayCron(timestamp)[..5] == "59 23"
    ensures |Split(EndOfDayCron(timestamp))| == |Split(TimestampToCron(timestamp))| == 5
    ensures Split(EndOfDayCron(timestamp))[0] == "59" && Split(EndOfDayCron(timestamp))[1] == "23"
    ensures Split(EndOfDayCron(timestamp))[2..] == Split(TimestampToCron(timestamp))[2..]
  {
    EndOfDayMatchesPattern(DateFields(timestamp));
  }

  /** The hour and the day depend on the instant only through its minute. */
  lemma MinuteDeterminesHourAndDay(t1: int, t2: int)
    requires t1 / MsPerMinute == t2 / MsPerMinute
    ensures t1 / MsPerHour == t2 / MsPerHour
    ensures t1 / MsPerDay == t2 / MsPerDay
  {
    var m := t1 / MsPerMinute;
    assert MsPerMinute * m <= t1 < MsPerMinute * m + MsPerMinute;
    assert MsPerMinute * m <= t2 < MsPerMinute * m + MsPerMinute;
    var h := m / 60;
    assert 60 * h <= m < 60 * h + 60;
    assert MsPerHour * h <= t1 < MsPerHour * h + MsPerHour;
    assert MsPerHour * h <= t2 < MsPerHour * h + MsPerHour;
    var d := m / 1440;
    assert 1440 * d <= m < 1440 * d + 1440;
    assert MsPerDay * d <= t1 < MsPerDay * d + MsPerDay;
    assert MsPerDay * d <= t2 < MsPerDay * d + MsPerDay;
  }

  /** Seconds and milliseconds are dropped: two valid instants in the same
      UTC minute give the same pattern. */
  lemma SameMinuteSamePattern(t1: int, t2: int)
    requires -MaxTime <= t1 <= MaxTime && -MaxTime <= t2 <= MaxTime
    requires t1 / MsPerMinute == t2 / MsPerMinute
    ensures TimestampToCron(t1) == TimestampToCron(t2)
    ensures EndOfDayCron(t1) == EndOfDayCron(t2)
  {
    MinuteDeterminesHourAndDay(t1, t2);
  }

  /** The epoch is a Thursday, 1 January, 00:00. */
  lemma EpochPattern()
    ensures TimestampToCron(0) == "0 0 1 1 4"
    ensures EndOfDayCron(0) == "59 23 1 1 4"
  {
    EpochParts();
    assert DateFields(0) == [Num(0), Num(0), Num(1), Num(1), Num(4)];
  }

  lemma EpochParts()
    ensures UtcParts(0) == Some(DateParts(0, 0, 1, 1, 4))
  {
    assert YearAndDay(0, 1970) == (1970, 0);
    assert MonthAndDay(0, 1, false) == (1, 1);
  }

  /** 29 February 1972, 12:30:00 UTC, a Tuesday: the first leap day after
      the epoch. */
  lemma LeapDayPattern()
    ensures TimestampToCron(68214600000) == "30 12 29 2 2"
    ensures EndOfDayCron(68214600000) == "59 23 29 2 2"
  {
    LeapDayParts();
    assert DateFields(68214600000) == [Num(30), Num(12), Num(29), Num(2), Num(2)];
  }

  lemma LeapDayParts()
    ensures UtcParts(68214600000) == Some(DateParts(30, 12, 29, 2, 2))
  {
    LeapDayDate();
    assert 68214600000 / MsPerDay == 789;
  }

  /** Day 789 after the epoch is 29 February 1972, a Tuesday. */
  lemma LeapDayDate()
    ensures DayParts(789) == (29, 2, 2)
  {
    LeapDayYear();
    LeapDayMonth();
    assert 789 % DaysPer400Years == 789;
    assert YearAndDay(789 % DaysPer400Years, 1970) == (1972, 59);
    assert IsLeap(1972);
    assert (789 + 4) % 7 == 2;
  }

  lemma LeapDayYear()
    ensures YearAndDay(789, 1970) == (1972, 59)
  {
    assert YearAndDay(424, 1971) == (1972, 59) by {
      assert YearAndDay(59, 1972) == (1972, 59);
    }
  }

  lemma LeapDayMonth()
    ensures MonthAndDay(59, 1, true) == (2, 29)
  {
    assert MonthAndDay(28, 2, true) == (2, 29);
  }

  /** Outside the range of a `Date` every calendar field is `NaN`. */
  lemma InvalidDatePattern(timestamp: int)
    requires timestamp > MaxTime || timestamp < -MaxTime
    ensures TimestampToCron(timestamp) == "NaN NaN NaN NaN NaN"
    ensures EndOfDayCron(timestamp) == "59 23 NaN NaN NaN"
  {
  }
}
