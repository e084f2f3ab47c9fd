/** The time-value arithmetic of section 15.9.1 of ECMAScript 5.1 on
    unbounded integers: a time value is a count of milliseconds since
    1970-01-01T00:00:00Z in the proleptic Gregorian calendar, with no leap
    seconds.  `Date.UTC` (section 15.9.4.3) and the UTC getters and
    setters of `Date` are all built from the functions below.

    The two central facts are the round trips between a time value and its
    civil breakdown: `Breakdown` followed by `Compose` is the identity on
    every integer (`BreakdownRecomposes`), and `Compose` followed by
    `Breakdown` is the identity on every valid civil record
    (`BreakdownCompose`). */
module Calendar {
  import opened Wrappers

  const MsPerSecond: int := 1000
  const MsPerMinute: int := 60_000
  const MsPerHour: int := 3_600_000
  const MsPerDay: int := 86_400_000

  /** The largest magnitude a time value may have (section 15.9.1.1). */
  const MaxTime: int := 8_640_000_000_000_000

  /** Days before the first of each month in a common year; index 12 is the
      length of the year. */
  function CumulativeDays(m: int): int
    requires 0 <= m <= 12
  {
    if m < 6 then
      if m < 3 then (if m == 0 then 0 else if m == 1 then 31 else 59)
      else (if m == 3 then 90 else if m == 4 then 120 else 151)
    else if m < 9 then (if m == 6 then 181 else if m == 7 then 212 else 243)
    else if m < 12 then (if m == 9 then 273 else if m == 10 then 304 else 334)
    else 365
  }

  // ---------------------------------------------------------------------
  // Days and years (sections 15.9.1.2 and 15.9.1.3)
  // ---------------------------------------------------------------------

  /** Day number of a time value; `/` on a positive divisor is floor. */
  function Day(t: int): int { t / MsPerDay }

  function TimeWithinDay(t: int): int { t % MsPerDay }

  function DaysInYear(y: int): int
  {
    if y % 4 != 0 then 365
    else if y % 100 != 0 then 366
    else if y % 400 != 0 then 365
    else 366
  }

  predicate IsLeapYear(y: int) { DaysInYear(y) == 366 }

  /** Day number of the first day of year `y`. */
  function DayFromYear(y: int): int
  {
    365 * (y - 1970) + (y - 1969) / 4 - (y - 1901) / 100 + (y - 1601) / 400
  }

  /** Consecutive years start `DaysInYear` days apart: the closed formula
      of section 15.9.1.3 agrees with the leap-year rule. */
  lemma DayFromYearStep(y: int)
    ensures DayFromYear(y + 1) == DayFromYear(y) + DaysInYear(y)
  {
    CountStep(y, 1969, 4);
    CountStep(y, 1901, 100);
    CountStep(y, 1601, 400);
    MultipleOfMultiple(y, 100, 25);
    MultipleOfMultiple(y, 400, 4);
  }

  /** A multiple of `n * k` is a multiple of `n`. */
  lemma MultipleOfMultiple(y: int, m: int, k: int)
    requires 0 < k && 0 < m && m % k == 0
    ensures y % m == 0 ==> y % (m / k) == 0
  {
    if y % m == 0 {
      var n := m / k;
      assert m == k * n;
      var q := y / m;
      assert y == m * q;
      assert y == n * (k * q) + 0;
      DivModUnique(y, n, k * q, 0);
    }
  }

  /** The count of multiples of `n` below `y - c + 1` grows by one exactly
      when `y` is a multiple of `n` (`c - 1` being one). */
  lemma CountStep(y: int, c: int, n: int)
    requires 0 < n && (c - 1) % n == 0
    ensures (y + 1 - c) / n == (y - c) / n + (if y % n == 0 then 1 else 0)
  {
    var a := y - c;
    var q, r := a / n, a % n;
    assert a == n * q + r && 0 <= r < n;
    var k := (c - 1) / n;
    assert c - 1 == n * k;
    assert y == n * (q + k) + (r + 1);
    if r + 1 == n {
      assert y == n * (q + k + 1) + 0;
      DivModUnique(y, n, q + k + 1, 0);
      assert a + 1 == n * (q + 1) + 0;
      DivModUnique(a + 1, n, q + 1, 0);
    } else {
      DivModUnique(y, n, q + k, r + 1);
      assert a + 1 == n * q + (r + 1);
      DivModUnique(a + 1, n, q, r + 1);
    }
  }

  /** Every year is at least 365 days long. */
  lemma DayFromYearIncreasing(y: int)
    ensures DayFromYear(y) + 365 <= DayFromYear(y + 1)
  {
    DayFromYearStep(y);
  }

  /** A day of year `y` lies fewer than `DaysInYear(y)` days after its
      first day. */
  lemma DayInYearBounds(y: int, d: int)
    requires DayFromYear(y) <= d < DayFromYear(y + 1)
    ensures 0 <= d - DayFromYear(y) < DaysInYear(y)
  {
    DayFromYearStep(y);
  }

  lemma {:induction false} DayFromYearMonotonic(a: int, b: int)
    requires a <= b
    ensures DayFromYear(a) + 365 * (b - a) <= DayFromYear(b)
    decreases b - a
  {
    if a < b {
      DayFromYearMonotonic(a, b - 1);
      DayFromYearStep(b - 1);
    }
  }

  lemma DayFromYearOrdered(a: int, b: int)
    requires a <= b
    ensures DayFromYear(a) <= DayFromYear(b)
  {
    DayFromYearMonotonic(a, b);
  }

  /** The year containing day `d`, searching upward from a year that starts
      no later than `d`. */
  function YearAtOrAfter(d: int, y: int): (r: int)
    requires DayFromYear(y) <= d
    ensures y <= r
    ensures DayFromYear(r) <= d < DayFromYear(r + 1)
    decreases d - DayFromYear(y)
  {
    DayFromYearIncreasing(y);
    if d < DayFromYear(y + 1) then y else YearAtOrAfter(d, y + 1)
  }

  /** The year containing day `d`, searching downward from a year that
      starts after `d`. */
  function YearBefore(d: int, y: int): (r: int)
    requires d < DayFromYear(y)
    ensures r < y
    ensures DayFromYear(r) <= d < DayFromYear(r + 1)
    decreases DayFromYear(y) - d
  {
    DayFromYearIncreasing(y - 1);
    if DayFromYear(y - 1) <= d then y - 1 else YearBefore(d, y - 1)
  }

  /** YearFromTime of section 15.9.1.3, on day numbers: the largest year
      that starts no later than day `d`. */
  function YearFromDay(d: int): (y: int)
    ensures DayFromYear(y) <= d < DayFromYear(y + 1)
  {
    if 0 <= d then YearAtOrAfter(d, 1970) else YearBefore(d, 1970)
  }

  /** Exactly one year contains a given day. */
  lemma YearFromDayUnique(d: int, y: int)
    requires DayFromYear(y) <= d < DayFromYear(y + 1)
    ensures YearFromDay(d) == y
  {
    var y' := YearFromDay(d);
    if y' < y {
      DayFromYearOrdered(y' + 1, y);
    } else if y < y' {
      DayFromYearOrdered(y + 1, y');
    }
  }

  function YearFromTime(t: int): int { YearFromDay(Day(t)) }

  // ---------------------------------------------------------------------
  // Months and dates (sections 15.9.1.4 and 15.9.1.5)
  // ---------------------------------------------------------------------

  /** Days of the year before the first of month `m` (0-based); `m == 12`
      gives the length of the year. */
  function MonthStart(m: int, leap: bool): int
    requires 0 <= m <= 12
  {
    CumulativeDays(m) + (if leap && 2 <= m then 1 else 0)
  }

  function DaysInMonth(y: int, m: int): int
    requires 0 <= m < 12
  {
    MonthStart(m + 1, IsLeapYear(y)) - MonthStart(m, IsLeapYear(y))
  }

  /** No month, in a leap year or not, is longer than 31 days. */
  lemma MonthAtMost31(m: int, leap: bool)
    requires 0 <= m < 12
    ensures 28 <= MonthStart(m + 1, leap) - MonthStart(m, leap) <= 31
  {
  }

  lemma DaysInMonthAtMost31(y: int, m: int)
    requires 0 <= m < 12
    ensures 28 <= DaysInMonth(y, m) <= 31
  {
    MonthAtMost31(m, IsLeapYear(y));
  }

  /** MonthFromTime of section 15.9.1.4 on a day within the year: the
      month whose first day is the last one at or before it. */
  function MonthInYear(dayInYear: int, leap: bool): (m: int)
    requires 0 <= dayInYear < MonthStart(12, leap)
    ensures 0 <= m < 12
    ensures MonthStart(m, leap) <= dayInYear < MonthStart(m + 1, leap)
  {
    MonthFrom(dayInYear, leap, 0)
  }

  /** The section's chain of tests, taken in order from month `m`. */
  function MonthFrom(dayInYear: int, leap: bool, m: int): (r: int)
    requires 0 <= m < 12 && MonthStart(m, leap) <= dayInYear < MonthStart(12, leap)
    ensures m <= r < 12
    ensures MonthStart(r, leap) <= dayInYear < MonthStart(r + 1, leap)
    decreases 12 - m
  {
    if dayInYear < MonthStart(m + 1, leap) then m else MonthFrom(dayInYear, leap, m + 1)
  }

  /** Month starts increase strictly. */
  lemma {:induction false} MonthStartIncreasing(a: int, b: int, leap: bool)
    requires 0 <= a < b <= 12
    ensures MonthStart(a, leap) < MonthStart(b, leap)
    decreases b - a
  {
    MonthAtMost31(a, leap);
    if a + 1 < b {
      MonthStartIncreasing(a + 1, b, leap);
    }
  }

  /** A day lies in exactly one month. */
  lemma MonthInYearUnique(dayInYear: int, leap: bool, m: int)
    requires 0 <= m < 12
    requires MonthStart(m, leap) <= dayInYear < MonthStart(m + 1, leap)
    ensures MonthInYear(dayInYear, leap) == m
  {
    MonthStartBelowYearEnd(m + 1, leap);
    MonthFromUnique(dayInYear, leap, 0, m);
  }

  lemma {:induction false} MonthFromUnique(dayInYear: int, leap: bool, from: int, m: int)
    requires 0 <= from <= m < 12
    requires MonthStart(m, leap) <= dayInYear < MonthStart(m + 1, leap) <= MonthStart(12, leap)
    ensures MonthStart(from, leap) <= dayInYear
    ensures MonthFrom(dayInYear, leap, from) == m
    decreases m - from
  {
    if from < m {
      MonthStartIncreasing(from, m, leap);
      MonthFromUnique(dayInYear, leap, from + 1, m);
    }
  }

  function DayWithinYear(d: int): (r: int)
    ensures 0 <= r < DaysInYear(YearFromDay(d))
  {
    DayInYearBounds(YearFromDay(d), d);
    d - DayFromYear(YearFromDay(d))
  }

  function MonthFromDay(d: int): (m: int)
    ensures 0 <= m < 12
  {
    var y := YearFromDay(d);
    MonthInYear(DayWithinYear(d), IsLeapYear(y))
  }

  function DateFromDay(d: int): (dt: int)
    ensures 1 <= dt <= DaysInMonth(YearFromDay(d), MonthFromDay(d))
  {
    var y := YearFromDay(d);
    DayWithinYear(d) - MonthStart(MonthFromDay(d), IsLeapYear(y)) + 1
  }

  /** WeekDay of section 15.9.1.6: 0 is Sunday; day 0 was a Thursday. */
  function WeekDay(t: int): (r: int)
    ensures 0 <= r < 7
  {
    (Day(t) + 4) % 7
  }

  // ---------------------------------------------------------------------
  // Time of day (section 15.9.1.10)
  // ---------------------------------------------------------------------

  function HourFromTime(t: int): int { (t / MsPerHour) % 24 }
  function MinFromTime(t: int): int { (t / MsPerMinute) % 60 }
  function SecFromTime(t: int): int { (t / MsPerSecond) % 60 }
  function MsFromTime(t: int): int { t % MsPerSecond }

  // ---------------------------------------------------------------------
  // Composition (sections 15.9.1.11 to 15.9.1.14)
  // ---------------------------------------------------------------------

  function MakeTime(hour: int, min: int, sec: int, ms: int): int
  {
    hour * MsPerHour + min * MsPerMinute + sec * MsPerSecond + ms
  }

  /** MakeDay of section 15.9.1.12: the month overflows into the year, and
      the date counts on from the first day of the resulting month. */
  function MakeDay(year: int, month: int, date: int): int
  {
    var ym := year + month / 12;
    var mn := month % 12;
    DayFromYear(ym) + MonthStart(mn, IsLeapYear(ym)) + date - 1
  }

  function MakeDate(day: int, time: int): int { day * MsPerDay + time }

  /** TimeClip of section 15.9.1.14: out-of-range values become NaN. */
  function TimeClip(t: int): (r: Option<int>)
    ensures r.Some? <==> -MaxTime <= t <= MaxTime
    ensures r.Some? ==> r.value == t
  {
    if -MaxTime <= t <= MaxTime then Some(t) else None
  }

  /** `Date.UTC` of section 15.9.4.3 with all seven arguments given as
      integers; years 0 to 99 denote 1900 to 1999. */
  function DateUtc(year: int, month: int, date: int, hours: int, minutes: int, seconds: int, ms: int): Option<int>
  {
    var yr := if 0 <= year <= 99 then 1900 + year else year;
    TimeClip(MakeDate(MakeDay(yr, month, date), MakeTime(hours, minutes, seconds, ms)))
  }

  // ---------------------------------------------------------------------
  // Civil breakdown of a time value, and its inverse
  // ---------------------------------------------------------------------

  /** The calendar fields of a time value.  `month` is 0-based, as in the
      internal functions of section 15.9.1 and in `Date`'s own getters;
      the `When` month getter is the one that adds 1. */
  datatype Civil = Civil(year: int, month: int, day: int, hours: int, minutes: int, seconds: int, ms: int)

  predicate ValidCivil(c: Civil)
  {
    && 0 <= c.month < 12
    && 1 <= c.day <= DaysInMonth(c.year, c.month)
    && 0 <= c.hours < 24
    && 0 <= c.minutes < 60
    && 0 <= c.seconds < 60
    && 0 <= c.ms < 1000
  }

  function Compose(c: Civil): int
  {
    MakeDate(MakeDay(c.year, c.month, c.day), MakeTime(c.hours, c.minutes, c.seconds, c.ms))
  }

  lemma MulStrict(n: int, a: int, b: int)
    requires 0 < n && a < b
    ensures n * a + n <= n * b
    decreases b - a
  {
    if a + 1 < b {
      MulStrict(n, a, b - 1);
    }
  }

  /** Floor division and its remainder are determined by the equation
      they satisfy. */
  lemma DivModUnique(a: int, n: int, q: int, r: int)
    requires 0 < n && a == n * q + r && 0 <= r < n
    ensures a / n == q && a % n == r
  {
    if a / n < q {
      MulStrict(n, a / n, q);
    } else if q < a / n {
      MulStrict(n, q, a / n);
    }
  }

  /** The time of day of `t` splits into its hour, minute, second and
      millisecond fields. */
  lemma TimeWithinDaySplits(t: int)
    ensures TimeWithinDay(t) == MakeTime(HourFromTime(t), MinFromTime(t), SecFromTime(t), MsFromTime(t))
    ensures 0 <= HourFromTime(t) < 24 && 0 <= MinFromTime(t) < 60
    ensures 0 <= SecFromTime(t) < 60 && 0 <= MsFromTime(t) < 1000
  {
    var ms, q1 := t % 1000, t / 1000;
    var s, q2 := q1 % 60, q1 / 60;
    var mi, q3 := q2 % 60, q2 / 60;
    var h, d := q3 % 24, q3 / 24;
    DivModUnique(t, MsPerMinute, q2, s * MsPerSecond + ms);
    DivModUnique(t, MsPerHour, q3, mi * MsPerMinute + s * MsPerSecond + ms);
    DivModUnique(t, MsPerDay, d, MakeTime(h, mi, s, ms));
  }

  /** MakeDay on an in-range month is the first day of the year plus the
      days before the month plus the date. */
  lemma MakeDayInRange(year: int, month: int, date: int)
    requires 0 <= month < 12
    ensures MakeDay(year, month, date) == DayFromYear(year) + MonthStart(month, IsLeapYear(year)) + date - 1
  {
    assert month / 12 == 0 && month % 12 == month;
  }

  /** The UTC getters of `Date` (sections 15.9.5.11 to 15.9.5.27) read
      the fields of this record. */
  function Breakdown(t: int): Civil
  {
    var d := Day(t);
    Civil(YearFromDay(d), MonthFromDay(d), DateFromDay(d),
          HourFromTime(t), MinFromTime(t), SecFromTime(t), MsFromTime(t))
  }

  /** Every time value breaks down into a valid civil record, and
      composing that record gives the time value back. */
  lemma BreakdownRecomposes(t: int)
    ensures ValidCivil(Breakdown(t))
    ensures Compose(Breakdown(t)) == t
  {
    var c := Breakdown(t);
    TimeWithinDaySplits(t);
    MakeDayInRange(c.year, c.month, c.day);
  }

  /** The time-of-day getters read back the fields a time value was made
      from, when each field is within its range. */
  lemma TimeFieldsOfMakeDate(d: int, h: int, mi: int, s: int, ms: int)
    requires 0 <= h < 24 && 0 <= mi < 60 && 0 <= s < 60 && 0 <= ms < 1000
    ensures Day(MakeDate(d, MakeTime(h, mi, s, ms))) == d
    ensures TimeWithinDay(MakeDate(d, MakeTime(h, mi, s, ms))) == MakeTime(h, mi, s, ms)
    ensures HourFromTime(MakeDate(d, MakeTime(h, mi, s, ms))) == h
    ensures MinFromTime(MakeDate(d, MakeTime(h, mi, s, ms))) == mi
    ensures SecFromTime(MakeDate(d, MakeTime(h, mi, s, ms))) == s
    ensures MsFromTime(MakeDate(d, MakeTime(h, mi, s, ms))) == ms
  {
    var t := MakeDate(d, MakeTime(h, mi, s, ms));
    DivModUnique(t, MsPerDay, d, MakeTime(h, mi, s, ms));
    DivModUnique(t, MsPerHour, d * 24 + h, mi * MsPerMinute + s * MsPerSecond + ms);
    DivModUnique(d * 24 + h, 24, d, h);
    DivModUnique(t, MsPerMinute, d * 1440 + h * 60 + mi, s * MsPerSecond + ms);
    DivModUnique(d * 1440 + h * 60 + mi, 60, d * 24 + h, mi);
    DivModUnique(t, MsPerSecond, d * 86400 + h * 3600 + mi * 60 + s, ms);
    DivModUnique(d * 86400 + h * 3600 + mi * 60 + s, 60, d * 1440 + h * 60 + mi, s);
  }

  lemma MonthStartBelowYearEnd(m: int, leap: bool)
    requires 0 <= m <= 12
    ensures 0 <= MonthStart(m, leap) <= MonthStart(12, leap)
  {
  }

  /** The calendar getters read back the year, month and date a day number
      was made from, when the month is in range and the date exists. */
  lemma DateFieldsOfMakeDay(year: int, month: int, date: int)
    requires 0 <= month < 12 && 1 <= date <= DaysInMonth(year, month)
    ensures YearFromDay(MakeDay(year, month, date)) == year
    ensures MonthFromDay(MakeDay(year, month, date)) == month
    ensures DateFromDay(MakeDay(year, month, date)) == date
  {
    var leap := IsLeapYear(year);
    var d := MakeDay(year, month, date);
    MakeDayInRange(year, month, date);
    DayFromYearStep(year);
    MonthStartBelowYearEnd(month + 1, leap);
    assert MonthStart(12, leap) == DaysInYear(year);
    YearFromDayUnique(d, year);
    assert DayWithinYear(d) == MonthStart(month, leap) + date - 1;
    MonthInYearUnique(DayWithinYear(d), leap, month);
  }

  /** Breaking down a composed valid civil record recovers the record. */
  lemma BreakdownCompose(c: Civil)
    requires ValidCivil(c)
    ensures Breakdown(Compose(c)) == c
  {
    TimeFieldsOfMakeDate(MakeDay(c.year, c.month, c.day), c.hours, c.minutes, c.seconds, c.ms);
    DateFieldsOfMakeDay(c.year, c.month, c.day);
  }

  /** The day number and the time of day of `t` are those its breakdown
      composes, so a setter may rebuild `t` from either side. */
  lemma BreakdownParts(t: int)
    ensures MakeDay(Breakdown(t).year, Breakdown(t).month, Breakdown(t).day) == Day(t)
    ensures MakeTime(Breakdown(t).hours, Breakdown(t).minutes, Breakdown(t).seconds, Breakdown(t).ms) == TimeWithinDay(t)
  {
    var c := Breakdown(t);
    TimeWithinDaySplits(t);
    MakeDayInRange(c.year, c.month, c.day);
  }

}
