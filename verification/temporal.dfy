/** The `When` and `WhenUTC` classes of `when.js`: an immutable wrapper
    around a `Date` time value.  The two classes differ only in which of
    `Date`'s getters and setters they call, so one datatype with a `View`
    tag stands for both.

    The host's time zone is a parameter: `hostOffset` is the local offset
    in minutes east of UTC (the negation of `getTimezoneOffset()`), taken
    as constant over time, so that the local time of section 15.9.1.9 of
    ECMAScript 5.1 is `t + hostOffset * MsPerMinute`.  A `WhenUTC` value
    never looks at it. */
module Temporal {
  import opened Wrappers
  import opened Text
  import opened Errors
  import opened Calendar

  datatype View = Local | Utc

  /** `time` is the wrapped `Date`'s time value, `None` when it is NaN. */
  datatype When = When(view: View, time: Option<int>)

  /** Time values a `Date` can hold, TimeClip having been applied. */
  predicate ValidTime(o: Option<int>)
  {
    o.Some? ==> -MaxTime <= o.value <= MaxTime
  }

  /** `When.fromTime(ms)` and `WhenUTC.fromTime(ms)`: `new Date(ms)` keeps
      an in-range integer and makes anything else NaN. */
  function FromTime(view: View, ms: int): (w: When)
    ensures w.view == view && ValidTime(w.time)
    ensures w.time.Some? <==> -MaxTime <= ms <= MaxTime
    ensures w.time.Some? ==> w.time.value == ms
  {
    When(view, TimeClip(ms))
  }

  /** `new Date(this.getTime())`: a fresh `Date` on the same time value. */
  function CopyTime(o: Option<int>): Option<int>
  {
    match o
    case None => None
    case Some(t) => TimeClip(t)
  }

  /** `toLocal()`: the same instant, seen through the local getters. */
  function ToLocal(w: When): (r: When)
    ensures r.view == Local
    ensures ValidTime(w.time) ==> r.time == w.time
  {
    When(Local, CopyTime(w.time))
  }

  /** `toUTC()`: the same instant, seen through the UTC getters. */
  function ToUtc(w: When): (r: When)
    ensures r.view == Utc
    ensures ValidTime(w.time) ==> r.time == w.time
  {
    When(Utc, CopyTime(w.time))
  }

  /** Converting between the views never moves the instant, and only the
      last conversion decides the view. */
  lemma ConversionsKeepInstant(w: When)
    requires ValidTime(w.time)
    ensures ToUtc(ToLocal(w)) == ToUtc(w) && ToLocal(ToUtc(w)) == ToLocal(w)
    ensures ToUtc(ToUtc(w)) == ToUtc(w) && ToLocal(ToLocal(w)) == ToLocal(w)
    ensures ToUtc(w).time == w.time && ToLocal(w).time == w.time
  {
  }

  // ---------------------------------------------------------------------
  // Getters
  // ---------------------------------------------------------------------

  /** The milliseconds to add to a time value to reach the wall clock the
      getters of a view read. */
  function Shift(view: View, hostOffset: int): int
  {
    if view == Utc then 0 else hostOffset * MsPerMinute
  }

  /** LocalTime of section 15.9.1.9 without the daylight saving term:
      the wall clock `shift` milliseconds east of UTC reads `t + shift`. */
  function LocalTime(t: int, shift: int): int { t + shift }

  /** UTC of section 15.9.1.9: the time value a wall-clock reading
      `lt` denotes. */
  function UtcTime(lt: int, shift: int): int { lt - shift }

  /** The calendar fields the getters of `w` read, `None` for NaN. */
  function Fields(w: When, hostOffset: int): (r: Option<Civil>)
    ensures r.Some? <==> w.time.Some?
    ensures r.Some? ==> ValidCivil(r.value)
  {
    match w.time
    case None => None
    case Some(t) =>
      BreakdownRecomposes(LocalTime(t, Shift(w.view, hostOffset)));
      Some(Breakdown(LocalTime(t, Shift(w.view, hostOffset))))
  }

  /** The fields the setters replace and `add` steps. */
  datatype Field = Year | Month | Date | Hours | Minutes | Seconds | Milliseconds

  /** Field `f` as `Date`'s getters count it (months from 0). */
  function DateField(c: Civil, f: Field): int
  {
    match f
    case Year => c.year
    case Month => c.month
    case Date => c.day
    case Hours => c.hours
    case Minutes => c.minutes
    case Seconds => c.seconds
    case Milliseconds => c.ms
  }

  /** The values `When`'s getters can return for field `f`. */
  predicate GetterRange(f: Field, v: int)
  {
    match f
    case Year => true
    case Month => 1 <= v <= 12
    case Date => 1 <= v <= 31
    case Hours => 0 <= v < 24
    case Minutes => 0 <= v < 60
    case Seconds => 0 <= v < 60
    case Milliseconds => 0 <= v < 1000
  }

  /** `getYear()`, `getMonth()`, ..., `getMilliseconds()`: the `Date`
      getter of the view, with the month counted from 1. */
  function Get(w: When, hostOffset: int, f: Field): (r: Option<int>)
    ensures r.Some? <==> w.time.Some?
    ensures r.Some? ==> GetterRange(f, r.value)
  {
    match Fields(w, hostOffset)
    case None => None
    case Some(c) =>
      DaysInMonthAtMost31(c.year, c.month);
      Some(if f == Month then c.month + 1 else DateField(c, f))
  }

  /** Reading all seven getters and composing them, as `Date.UTC` would
      for a year of 100 or more, rebuilds the wall clock of `w`. */
  lemma GettersCompose(w: When, hostOffset: int)
    requires w.time.Some?
    ensures MakeDate(MakeDay(Get(w, hostOffset, Year).value, Get(w, hostOffset, Month).value - 1, Get(w, hostOffset, Date).value),
                     MakeTime(Get(w, hostOffset, Hours).value, Get(w, hostOffset, Minutes).value,
                              Get(w, hostOffset, Seconds).value, Get(w, hostOffset, Milliseconds).value))
            == LocalTime(w.time.value, Shift(w.view, hostOffset))
  {
    BreakdownRecomposes(LocalTime(w.time.value, Shift(w.view, hostOffset)));
  }

  /** `getDOW()`: 0 is Sunday. */
  function DayOfWeek(w: When, hostOffset: int): (r: Option<int>)
    ensures r.Some? <==> w.time.Some?
    ensures r.Some? ==> 0 <= r.value < 7
  {
    match w.time
    case None => None
    case Some(t) => Some(WeekDay(LocalTime(t, Shift(w.view, hostOffset))))
  }

  /** Seven days on, the day of the week is the same. */
  /** `0=Sun, 6=Sat`, anchored: the epoch, 1970-01-01, was a Thursday. */
  lemma DayOfWeekEpoch(hostOffset: int)
    ensures DayOfWeek(When(Utc, Some(0)), hostOffset) == Some(4)
  {
  }

  /** One day later `getDOW()` is the next day of the week, Saturday
      wrapping round to Sunday. */
  lemma DayOfWeekNextDay(view: View, hostOffset: int, t: int)
    ensures DayOfWeek(When(view, Some(t + MsPerDay)), hostOffset).value
         == (DayOfWeek(When(view, Some(t)), hostOffset).value + 1) % 7
  {
    var s := LocalTime(t, Shift(view, hostOffset));
    DivModUnique(s + MsPerDay, MsPerDay, Day(s) + 1, TimeWithinDay(s));
    var k := Day(s) + 4;
    DivModUnique(k + 1, 7, k / 7 + (if k % 7 == 6 then 1 else 0), (k % 7 + 1) % 7);
  }

  lemma DayOfWeekPeriodic(view: View, hostOffset: int, t: int)
    ensures DayOfWeek(When(view, Some(t + 7 * MsPerDay)), hostOffset) == DayOfWeek(When(view, Some(t)), hostOffset)
  {
    var s := LocalTime(t, Shift(view, hostOffset));
    DivModUnique(s + 7 * MsPerDay, MsPerDay, Day(s) + 7, TimeWithinDay(s));
  }

  /** `getTimezoneOffset()`: minutes west of UTC, NaN on an invalid date.
      `WhenUTC` inherits it, so it is the host's offset in either view. */
  function TimezoneOffset(w: When, hostOffset: int): (r: Option<int>)
    ensures r.Some? <==> w.time.Some?
    ensures r.Some? ==> r.value + hostOffset == 0
  {
    match w.time
    case None => None
    case Some(_) => Some(-hostOffset)
  }

  // ---------------------------------------------------------------------
  // Setters (sections 15.9.5.28 to 15.9.5.41)
  // ---------------------------------------------------------------------

  /** The civil record with field `f` replaced by `v`, counted as `Date`'s
      setters count (months from 0). */
  function Replace(c: Civil, f: Field, v: int): Civil
  {
    Civil(if f == Year then v else c.year,
          if f == Month then v else c.month,
          if f == Date then v else c.day,
          if f == Hours then v else c.hours,
          if f == Minutes then v else c.minutes,
          if f == Seconds then v else c.seconds,
          if f == Milliseconds then v else c.ms)
  }

  predicate IsCalendarField(f: Field)
  {
    f == Year || f == Month || f == Date
  }

  /** The new wall-clock value `Date`'s one-argument setter for field `f`
      computes from wall-clock time `lt`.  `setFullYear`, `setMonth` and
      `setDate` rebuild the day with MakeDay from the new value and the
      current other two calendar fields, and keep the time within the
      day; `setHours`, `setMinutes`, `setSeconds` and `setMilliseconds`
      keep the day and rebuild the time with MakeTime likewise. */
  function NewDate(lt: int, f: Field, v: int): int
  {
    var d := Day(lt);
    if IsCalendarField(f) then
      MakeDate(MakeDay(if f == Year then v else YearFromDay(d),
                       if f == Month then v else MonthFromDay(d),
                       if f == Date then v else DateFromDay(d)),
               TimeWithinDay(lt))
    else
      MakeDate(d, MakeTime(if f == Hours then v else HourFromTime(lt),
                           if f == Minutes then v else MinFromTime(lt),
                           if f == Seconds then v else SecFromTime(lt),
                           if f == Milliseconds then v else MsFromTime(lt)))
  }

  /** Every setter replaces one field of the wall clock and composes the
      record again; a value out of its range carries into the larger
      fields, as MakeDay and MakeTime do. */
  lemma NewDateReplaces(lt: int, f: Field, v: int)
    ensures NewDate(lt, f, v) == Compose(Replace(Breakdown(lt), f, v))
  {
    BreakdownParts(lt);
  }

  /** The setter on a date whose wall clock reads `lt`: the new wall-clock
      value, taken back to UTC and clipped. */
  function SetOnWall(lt: int, shift: int, f: Field, v: int): Option<int>
  {
    TimeClip(UtcTime(NewDate(lt, f, v), shift))
  }

  /** `Date`'s setter for field `f` with one argument, on time value `t`;
      `shift` is 0 for the `setUTC...` methods and the local offset for
      the local ones.  A NaN date stays NaN, except that `setFullYear`
      starts over from the wall clock reading +0. */
  function SetTime(t: Option<int>, shift: int, f: Field, v: int): (r: Option<int>)
    ensures ValidTime(r)
    ensures t.None? && f != Year ==> r.None?
  {
    match t
    case None => if f == Year then SetOnWall(0, shift, Year, v) else None
    case Some(x) => SetOnWall(LocalTime(x, shift), shift, f, v)
  }

  lemma ClipShifted(a: int, s: int)
    requires TimeClip(UtcTime(a, s)).Some?
    ensures LocalTime(TimeClip(UtcTime(a, s)).value, s) == a
  {
  }

  lemma ClipEqual(a: int, b: int, s: int)
    requires a == b
    ensures TimeClip(UtcTime(a, s)) == TimeClip(UtcTime(b, s))
  {
  }

  lemma ClipSame(a: int, b: int)
    requires a == b
    ensures TimeClip(a) == TimeClip(b)
  {
  }

  lemma BreakdownEqual(a: int, b: int)
    requires a == b
    ensures Breakdown(a) == Breakdown(b)
  {
  }

  /** When the record with the one field replaced is a valid date, the
      new wall clock breaks down into exactly that record. */
  lemma ReadBackWall(lt: int, f: Field, v: int)
    requires ValidCivil(Replace(Breakdown(lt), f, v))
    ensures Breakdown(NewDate(lt, f, v)) == Replace(Breakdown(lt), f, v)
  {
    NewDateReplaces(lt, f, v);
    BreakdownCompose(Replace(Breakdown(lt), f, v));
  }

  /** ... and so does the wall clock of the setter's result, when it is a
      valid date: nothing but the one field moves. */
  lemma SetOnWallReadsBack(lt: int, shift: int, f: Field, v: int)
    requires ValidCivil(Replace(Breakdown(lt), f, v))
    requires SetOnWall(lt, shift, f, v).Some?
    ensures Breakdown(LocalTime(SetOnWall(lt, shift, f, v).value, shift)) == Replace(Breakdown(lt), f, v)
  {
    ClipShifted(NewDate(lt, f, v), shift);
    BreakdownEqual(LocalTime(SetOnWall(lt, shift, f, v).value, shift), NewDate(lt, f, v));
    ReadBackWall(lt, f, v);
  }

  lemma SameValueWall(lt: int, f: Field)
    ensures NewDate(lt, f, DateField(Breakdown(lt), f)) == lt
  {
    var c := Breakdown(lt);
    NewDateReplaces(lt, f, DateField(c, f));
    assert Replace(c, f, DateField(c, f)) == c;
    BreakdownRecomposes(lt);
  }

  /** Setting a field to the value it already has leaves a valid date
      where it was. */
  lemma SetOnWallSameValue(x: int, shift: int, f: Field)
    requires -MaxTime <= x <= MaxTime
    ensures SetOnWall(LocalTime(x, shift), shift, f, DateField(Breakdown(LocalTime(x, shift)), f)) == Some(x)
  {
    var lt := LocalTime(x, shift);
    SameValueWall(lt, f);
    ClipEqual(NewDate(lt, f, DateField(Breakdown(lt), f)), lt, shift);
  }

  /** The argument `When`'s setter passes on to `Date`'s: `setMonth(m)`
      calls `setMonth(m - 1)`, the others pass their argument unchanged. */
  function SetterArgument(f: Field, v: int): int
  {
    if f == Month then v - 1 else v
  }

  /** `setYear`, `setMonth`, ..., `setMilliseconds` of `When` (local
      setters) and `WhenUTC` (UTC setters): a new value of the same class
      on a copy of the time value; the receiver is immutable. */
  function Set(w: When, hostOffset: int, f: Field, v: int): (r: When)
    ensures r.view == w.view && ValidTime(r.time)
    ensures w.time.None? && f != Year ==> r.time.None?
  {
    When(w.view, SetTime(CopyTime(w.time), Shift(w.view, hostOffset), f, SetterArgument(f, v)))
  }

  /** When the new field value is in range and the result is a valid date,
      the getters of the result read the new value back and every other
      field unchanged. */
  lemma SetReadsBack(w: When, hostOffset: int, f: Field, v: int)
    requires ValidTime(w.time) && w.time.Some?
    requires ValidCivil(Replace(Fields(w, hostOffset).value, f, SetterArgument(f, v)))
    requires Set(w, hostOffset, f, v).time.Some?
    ensures Fields(Set(w, hostOffset, f, v), hostOffset) == Some(Replace(Fields(w, hostOffset).value, f, SetterArgument(f, v)))
    ensures Get(Set(w, hostOffset, f, v), hostOffset, f) == Some(v)
  {
    var shift := Shift(w.view, hostOffset);
    SetOnWallReadsBack(LocalTime(w.time.value, shift), shift, f, SetterArgument(f, v));
  }

  /** Setting a field to the value its getter reads gives the same value. */
  lemma SetToSameValue(w: When, hostOffset: int, f: Field)
    requires ValidTime(w.time) && w.time.Some?
    ensures Set(w, hostOffset, f, Get(w, hostOffset, f).value) == w
  {
    var shift := Shift(w.view, hostOffset);
    assert SetterArgument(f, Get(w, hostOffset, f).value) == DateField(Breakdown(LocalTime(w.time.value, shift)), f);
    SetOnWallSameValue(w.time.value, shift, f);
  }

  /** The wall clock reading +0 is midnight of 1 January 1970. */
  lemma EpochBreakdown(z: int)
    requires z == 0
    ensures Breakdown(z) == Civil(1970, 0, 1, 0, 0, 0, 0)
  {
    YearFromDayUnique(Day(z), 1970);
  }

  /** `setFullYear(y)` from the wall clock reading +0 gives midnight of
      1 January of year `y`. */
  lemma YearFromEpoch(z: int, y: int)
    requires z == 0
    ensures Breakdown(NewDate(z, Year, y)) == Civil(y, 0, 1, 0, 0, 0, 0)
  {
    EpochBreakdown(z);
    NewYearValid(y);
    ReadBackWall(z, Year, y);
  }

  lemma NewYearValid(y: int)
    ensures ValidCivil(Civil(y, 0, 1, 0, 0, 0, 0))
  {
  }

  /** On a NaN date, `setFullYear(y)` gives midnight of 1 January of year
      `y` on the wall clock. */
  lemma SetYearOfNaN(view: View, hostOffset: int, y: int)
    requires Set(When(view, None), hostOffset, Year, y).time.Some?
    ensures Fields(Set(When(view, None), hostOffset, Year, y), hostOffset) == Some(Civil(y, 0, 1, 0, 0, 0, 0))
  {
    var shift := Shift(view, hostOffset);
    YearFromEpoch(0, y);
    ClipShifted(NewDate(0, Year, y), shift);
    BreakdownEqual(LocalTime(SetOnWall(0, shift, Year, y).value, shift), NewDate(0, Year, y));
  }

  // ---------------------------------------------------------------------
  // add
  // ---------------------------------------------------------------------

  /** The singular unit name `add` accepts for a field. */
  function Singular(f: Field): string
  {
    match f
    case Year => "year"
    case Month => "month"
    case Date => "day"
    case Hours => "hour"
    case Minutes => "minute"
    case Seconds => "second"
    case Milliseconds => "millisecond"
  }

  /** The `switch` of `add`: the unit text is lower-cased and must then
      be a singular unit name or that name followed by `s`. */
  function UnitNamed(name: string): (r: Option<Field>)
    ensures r.Some? ==> Lower(name) == Singular(r.value) || Lower(name) == Singular(r.value) + "s"
    ensures r.None? ==> forall f: Field :: Lower(name) != Singular(f) && Lower(name) != Singular(f) + "s"
  {
    var l := Lower(name);
    if l == "year" || l == "years" then Some(Year)
    else if l == "month" || l == "months" then Some(Month)
    else if l == "day" || l == "days" then Some(Date)
    else if l == "hour" || l == "hours" then Some(Hours)
    else if l == "minute" || l == "minutes" then Some(Minutes)
    else if l == "second" || l == "seconds" then Some(Seconds)
    else if l == "millisecond" || l == "milliseconds" then Some(Milliseconds)
    else None
  }

  /** Unit names are case-insensitive: `'HOURS'` is `'hours'`. */
  lemma UnitNamesIgnoreCase(name: string)
    ensures UnitNamed(name) == UnitNamed(Lower(name))
  {
    assert Lower(Lower(name)) == Lower(name);
  }

  /** One pair of `add`'s arguments: an integer amount and a unit, `None`
      when the unit is missing (an odd number of arguments). */
  datatype Step = Step(amount: int, unit: Option<string>)

  /** `'' + which`. */
  function UnitText(u: Option<string>): string
  {
    match u
    case None => "undefined"
    case Some(s) => s
  }

  predicate Known(s: Step)
  {
    UnitNamed(UnitText(s.unit)).Some?
  }

  /** One step of `add` on its working copy.  On a NaN date the getter
      gives NaN and so does the setter. */
  function Bump(t: Option<int>, shift: int, f: Field, n: int): (r: Option<int>)
    ensures t.None? ==> r.None?
  {
    match t
    case None => None
    case Some(x) => BumpValue(x, shift, f, n)
  }

  /** One step on a valid date: read the field with the local getter, add
      the amount, write it back with the local setter. */
  function BumpValue(x: int, shift: int, f: Field, n: int): Option<int>
  {
    SetOnWall(LocalTime(x, shift), shift, f, DateField(Breakdown(LocalTime(x, shift)), f) + n)
  }

  /** The loop of `add` over its argument pairs, left to right; the first
      unknown unit throws. */
  function AddTime(t: Option<int>, shift: int, steps: seq<Step>): Result<Option<int>, Error>
    decreases |steps|
  {
    if steps == [] then Success(t)
    else
      match UnitNamed(UnitText(steps[0].unit))
      case None => Failure(InvalidTimeUnit(UnitText(steps[0].unit)))
      case Some(f) => AddTime(Bump(t, shift, f, steps[0].amount), shift, steps[1..])
  }

  /** `add(n1, unit1, n2, unit2, ...)`: a new value of the same class.  It
      always works on a copy with the local setters, whatever the class. */
  function Add(w: When, hostOffset: int, steps: seq<Step>): (r: Result<When, Error>)
    ensures r.Success? ==> r.value.view == w.view
    ensures r.Success? <==> AddTime(CopyTime(w.time), hostOffset * MsPerMinute, steps).Success?
    ensures r.Success? ==> r.value.time == AddTime(CopyTime(w.time), hostOffset * MsPerMinute, steps).value
  {
    match AddTime(CopyTime(w.time), hostOffset * MsPerMinute, steps)
    case Failure(e) => Failure(e)
    case Success(t) => Success(When(w.view, t))
  }

  /** Adding is done left to right: the steps of `a + b` are those of `a`
      followed by those of `b`, and an error in `a` stops before `b`. */
  lemma {:induction false} AddTimeAppend(t: Option<int>, shift: int, a: seq<Step>, b: seq<Step>)
    ensures AddTime(t, shift, a + b) ==
            match AddTime(t, shift, a)
            case Failure(e) => Failure(e)
            case Success(u) => AddTime(u, shift, b)
    decreases |a|
  {
    if a == [] {
      assert a + b == b;
    } else {
      assert (a + b)[0] == a[0];
      assert (a + b)[1..] == a[1..] + b;
      match UnitNamed(UnitText(a[0].unit))
      case None =>
      case Some(f) => AddTimeAppend(Bump(t, shift, f, a[0].amount), shift, a[1..], b);
    }
  }

  /** When `add` throws, it names the first unknown unit as it was
      written. */
  lemma {:induction false} AddTimeFailure(t: Option<int>, shift: int, steps: seq<Step>)
    ensures AddTime(t, shift, steps).Failure? ==>
              exists i :: 0 <= i < |steps| && !Known(steps[i])
                          && (forall j :: 0 <= j < i ==> Known(steps[j]))
                          && AddTime(t, shift, steps).error == InvalidTimeUnit(UnitText(steps[i].unit))
    decreases |steps|
  {
    if steps != [] {
      match UnitNamed(UnitText(steps[0].unit))
      case None =>
        assert !Known(steps[0]);
      case Some(f) =>
        var u := Bump(t, shift, f, steps[0].amount);
        AddTimeFailure(u, shift, steps[1..]);
        if AddTime(u, shift, steps[1..]).Failure? {
          var i :| 0 <= i < |steps[1..]| && !Known(steps[1..][i])
                   && (forall j :: 0 <= j < i ==> Known(steps[1..][j]))
                   && AddTime(u, shift, steps[1..]).error == InvalidTimeUnit(UnitText(steps[1..][i].unit));
          assert !Known(steps[i + 1]);
          forall j | 0 <= j < i + 1
            ensures Known(steps[j])
          {
            if j > 0 {
              assert steps[j] == steps[1..][j - 1];
            }
          }
        }
    }
  }

  /** `add` throws whenever some unit is unknown, whatever comes before. */
  lemma {:induction false} AddTimeUnknownFails(t: Option<int>, shift: int, steps: seq<Step>, i: int)
    requires 0 <= i < |steps| && !Known(steps[i])
    ensures AddTime(t, shift, steps).Failure?
    decreases |steps|
  {
    match UnitNamed(UnitText(steps[0].unit))
    case None =>
    case Some(f) =>
      assert i != 0;
      assert steps[1..][i - 1] == steps[i];
      AddTimeUnknownFails(Bump(t, shift, f, steps[0].amount), shift, steps[1..], i - 1);
  }

  /** `n` units of a field below the month, in milliseconds. */
  function Duration(f: Field, n: int): int
    requires !(f == Year || f == Month)
  {
    match f
    case Date => n * MsPerDay
    case Hours => n * MsPerHour
    case Minutes => n * MsPerMinute
    case Seconds => n * MsPerSecond
    case Milliseconds => n
  }

  /** Adding `n` to a field below the month moves the wall clock by `n`
      units: MakeDay and MakeTime carry the excess into larger fields. */
  lemma BumpWall(lt: int, f: Field, n: int)
    requires !(f == Year || f == Month)
    ensures NewDate(lt, f, DateField(Breakdown(lt), f) + n) == lt + Duration(f, n)
  {
    TimeWithinDaySplits(lt);
    BreakdownParts(lt);
  }

  /** Days, hours, minutes, seconds and milliseconds carry into the larger
      fields, so adding `n` of them moves the instant by exactly `n` units
      (or makes it NaN once it leaves the time-value range). */
  lemma BumpShifts(x: int, shift: int, f: Field, n: int)
    requires !(f == Year || f == Month)
    ensures BumpValue(x, shift, f, n) == TimeClip(x + Duration(f, n))
  {
    BumpValueIs(x, shift, f, n);
    BumpWall(LocalTime(x, shift), f, n);
    ClipSame(UtcTime(NewDate(LocalTime(x, shift), f, DateField(Breakdown(LocalTime(x, shift)), f) + n), shift),
             x + Duration(f, n));
  }

  lemma BumpValueIs(x: int, shift: int, f: Field, n: int)
    ensures BumpValue(x, shift, f, n)
            == TimeClip(UtcTime(NewDate(LocalTime(x, shift), f, DateField(Breakdown(LocalTime(x, shift)), f) + n), shift))
  {
  }

  /** In a common year, "31 February" is 3 March. */
  lemma February31(c: Civil)
    requires c.month == 1 && c.day == 31 && !IsLeapYear(c.year)
    ensures Compose(c) == Compose(c.(month := 2, day := 3))
  {
    MakeDayInRange(c.year, 1, 31);
    MakeDayInRange(c.year, 2, 3);
  }

  lemma MarchThirdValid(c: Civil)
    requires ValidCivil(c)
    ensures ValidCivil(c.(month := 2, day := 3))
  {
  }

  /** On the wall clock, one month after 31 January of a common year is
      3 March, the time of day unchanged. */
  lemma January31OnWall(lt: int)
    requires Breakdown(lt).month == 0 && Breakdown(lt).day == 31 && !IsLeapYear(Breakdown(lt).year)
    ensures Breakdown(NewDate(lt, Month, 1)) == Breakdown(lt).(month := 2, day := 3)
  {
    var c := Breakdown(lt);
    var march := c.(month := 2, day := 3);
    NewDateReplaces(lt, Month, 1);
    assert Replace(c, Month, 1) == c.(month := 1);
    February31(c.(month := 1));
    BreakdownRecomposes(lt);
    MarchThirdValid(c);
    BreakdownEqual(NewDate(lt, Month, 1), Compose(march));
    BreakdownCompose(march);
  }

  /** The month is not a fixed length: one month after 31 January of a
      common year is 3 March, the time of day unchanged. */
  lemma MonthAfterJanuary31(x: int, shift: int)
    requires Breakdown(LocalTime(x, shift)).month == 0 && Breakdown(LocalTime(x, shift)).day == 31
    requires !IsLeapYear(Breakdown(LocalTime(x, shift)).year)
    requires BumpValue(x, shift, Month, 1).Some?
    ensures Breakdown(LocalTime(BumpValue(x, shift, Month, 1).value, shift))
            == Breakdown(LocalTime(x, shift)).(month := 2, day := 3)
  {
    var lt := LocalTime(x, shift);
    January31OnWall(lt);
    ClipShifted(NewDate(lt, Month, 1), shift);
    BreakdownEqual(LocalTime(SetOnWall(lt, shift, Month, 1).value, shift), NewDate(lt, Month, 1));
  }

  /** A single step with a known unit is one `Bump`. */
  lemma AddOneStep(t: Option<int>, shift: int, n: int, unit: string, f: Field)
    requires UnitNamed(unit) == Some(f)
    ensures AddTime(t, shift, [Step(n, Some(unit))]) == Success(Bump(t, shift, f, n))
  {
    assert AddTime(t, shift, [Step(n, Some(unit))]) == AddTime(Bump(t, shift, f, n), shift, []);
  }

  /** `add(n, 'hours')` and its kin, in either view and whatever the case
      of the unit: the instant moves by `n` units. */
  lemma AddShifts(w: When, hostOffset: int, n: int, unit: string, f: Field)
    requires ValidTime(w.time) && w.time.Some?
    requires !(f == Year || f == Month) && UnitNamed(unit) == Some(f)
    ensures Add(w, hostOffset, [Step(n, Some(unit))]) == Success(When(w.view, TimeClip(w.time.value + Duration(f, n))))
  {
    var shift := hostOffset * MsPerMinute;
    AddOneStep(w.time, shift, n, unit, f);
    BumpShifts(w.time.value, shift, f, n);
  }

  /** `add()` with no arguments is a copy. */
  lemma AddNothing(w: When, hostOffset: int)
    requires ValidTime(w.time)
    ensures Add(w, hostOffset, []) == Success(w)
  {
  }
}
