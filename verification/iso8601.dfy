/** The ISO-8601 front end of the patched `Date.parse` (when.js:7-34).

    A string is first matched against the Date Time String Format of
    section 15.9.1.15 of ECMAScript 5.1, in the restricted shape of the
    regular expression at when.js:14:

      YYYY | ±YYYYYY, then optionally -MM, then optionally -DD (only after
      -MM), then optionally THH:mm, optionally :ss, optionally .sss (only
      after :ss), then optionally Z or ±HH or ±HH:mm (only after THH:mm).

    The grammar is written twice: once as the printer `Spell` from a parse
    tree `IsoText`, once as the recogniser `ParseIso`.  `ParseIso`'s
    contract and `ParseIsoComplete` together say that a string is accepted
    exactly when it is the spelling of a well-formed tree, and that the
    tree returned is that one.  A matched string is then resolved to
    numbers with the source's defaults and composed with `Date.UTC`;
    anything else goes to the host's own parser, taken as a parameter. */
module Iso8601 {
  import opened Wrappers
  import opened Text
  import Calendar

  // ---------------------------------------------------------------------
  // Parse trees and the printer that defines the grammar
  // ---------------------------------------------------------------------

  datatype Sign = Plus | Minus

  /** Four digits, or a sign and six digits. */
  datatype YearText = Basic(digits: string) | Expanded(sign: Sign, digits: string)

  /** `Z`, or a signed offset with two-digit hours and optional minutes. */
  datatype Zone = Zulu | Numeric(sign: Sign, hours: string, minutes: Option<string>)

  /** `:ss` with an optional `.sss`. */
  datatype Seconds = Seconds(digits: string, fraction: Option<string>)

  /** `THH:mm`, then optional seconds, then an optional zone. */
  datatype TimeText = TimeText(hours: string, minutes: string, seconds: Option<Seconds>, zone: Option<Zone>)

  datatype IsoText = IsoText(year: YearText, month: Option<string>, day: Option<string>, time: Option<TimeText>)

  predicate Digits(s: string, n: nat) { |s| == n && AllDigits(s) }

  predicate OptDigits(o: Option<string>, n: nat) { o.Some? ==> Digits(o.value, n) }

  predicate WellFormedZone(z: Option<Zone>)
  {
    z.Some? && z.value.Numeric? ==> Digits(z.value.hours, 2) && OptDigits(z.value.minutes, 2)
  }

  predicate WellFormedSeconds(s: Option<Seconds>)
  {
    s.Some? ==> Digits(s.value.digits, 2) && OptDigits(s.value.fraction, 3)
  }

  predicate WellFormedTime(t: TimeText)
  {
    && Digits(t.hours, 2)
    && Digits(t.minutes, 2)
    && WellFormedSeconds(t.seconds)
    && WellFormedZone(t.zone)
  }

  predicate WellFormedYear(y: YearText)
  {
    match y
    case Basic(d) => Digits(d, 4)
    case Expanded(_, d) => Digits(d, 6)
  }

  predicate WellFormed(x: IsoText)
  {
    && WellFormedYear(x.year)
    && OptDigits(x.month, 2)
    && OptDigits(x.day, 2)
    && (x.day.Some? ==> x.month.Some?)
    && (x.time.Some? ==> WellFormedTime(x.time.value))
  }

  predicate IsSignChar(c: char) { c == '+' || c == '-' }

  function SignChar(s: Sign): char
  {
    match s
    case Plus => '+'
    case Minus => '-'
  }

  function SignOf(c: char): (s: Sign)
    requires IsSignChar(c)
    ensures SignChar(s) == c
  {
    if c == '+' then Plus else Minus
  }

  /** `c` followed by the text, or nothing when absent. */
  function SpellOpt(c: char, o: Option<string>): string
  {
    match o
    case None => ""
    case Some(s) => [c] + s
  }

  function SpellYear(y: YearText): string
  {
    match y
    case Basic(d) => d
    case Expanded(s, d) => [SignChar(s)] + d
  }

  function SpellZone(z: Option<Zone>): string
  {
    match z
    case None => ""
    case Some(Zulu) => "Z"
    case Some(Numeric(s, h, m)) => [SignChar(s)] + h + SpellOpt(':', m)
  }

  function SpellSeconds(s: Option<Seconds>): string
  {
    match s
    case None => ""
    case Some(Seconds(d, f)) => [':'] + d + SpellOpt('.', f)
  }

  function SpellTime(t: Option<TimeText>): string
  {
    match t
    case None => ""
    case Some(TimeText(h, m, s, z)) => ['T'] + h + [':'] + m + SpellSeconds(s) + SpellZone(z)
  }

  /** The text a parse tree stands for. */
  function Spell(x: IsoText): string
  {
    SpellYear(x.year) + SpellOpt('-', x.month) + SpellOpt('-', x.day) + SpellTime(x.time)
  }

  // ---------------------------------------------------------------------
  // The recogniser
  // ---------------------------------------------------------------------
  //
  // Each optional group of the regular expression begins with a character
  // ('-', 'T', ':', '.', 'Z', '+', '-') that nothing after it can start
  // with, so taking a group whenever it matches is the only way to match
  // the whole string: a greedy left-to-right reading is exact.

  /** The zone group followed by end of input. */
  function ParseZone(s: string): (r: Option<Option<Zone>>)
    ensures r.Some? ==> WellFormedZone(r.value) && SpellZone(r.value) == s
  {
    if s == [] then Some(None)
    else if s == "Z" then Some(Some(Zulu))
    else if |s| == 3 && IsSignChar(s[0]) && AllDigits(s[1..]) then
      assert s == [s[0]] + s[1..];
      Some(Some(Numeric(SignOf(s[0]), s[1..], None)))
    else if |s| == 6 && IsSignChar(s[0]) && AllDigits(s[1..3]) && s[3] == ':' && AllDigits(s[4..]) then
      assert s == [s[0]] + s[1..3] + [':'] + s[4..];
      Some(Some(Numeric(SignOf(s[0]), s[1..3], Some(s[4..]))))
    else None
  }

  /** The optional `:ss` and `.sss` groups, then the zone and end of input. */
  function ParseSeconds(s: string): (r: Option<(Option<Seconds>, Option<Zone>)>)
    ensures r.Some? ==> WellFormedSeconds(r.value.0) && WellFormedZone(r.value.1)
    ensures r.Some? ==> SpellSeconds(r.value.0) + SpellZone(r.value.1) == s
  {
    if |s| >= 3 && s[0] == ':' && AllDigits(s[1..3]) then
      var sec, rest := s[1..3], s[3..];
      if |rest| >= 4 && rest[0] == '.' && AllDigits(rest[1..4]) then
        match ParseZone(rest[4..])
        case None => None
        case Some(z) =>
          assert s == [':'] + sec + ['.'] + rest[1..4] + rest[4..];
          Some((Some(Seconds(sec, Some(rest[1..4]))), z))
      else
        match ParseZone(rest)
        case None => None
        case Some(z) =>
          assert s == [':'] + sec + rest;
          Some((Some(Seconds(sec, None)), z))
    else
      match ParseZone(s)
      case None => None
      case Some(z) => Some((None, z))
  }

  /** The `T` group: `THH:mm`, then seconds and zone, then end of input. */
  function ParseTime(s: string): (r: Option<TimeText>)
    ensures r.Some? ==> WellFormedTime(r.value) && SpellTime(r) == s
  {
    if |s| >= 6 && s[0] == 'T' && AllDigits(s[1..3]) && s[3] == ':' && AllDigits(s[4..6]) then
      match ParseSeconds(s[6..])
      case None => None
      case Some((sec, z)) =>
        TimeSpelling(s, SpellSeconds(sec), SpellZone(z));
        Some(TimeText(s[1..3], s[4..6], sec, z))
    else None
  }

  /** A text of the form `THH:mm` followed by two pieces is their
      concatenation. */
  lemma TimeSpelling(s: string, a: string, b: string)
    requires |s| >= 6 && s[0] == 'T' && s[3] == ':' && a + b == s[6..]
    ensures ['T'] + s[1..3] + [':'] + s[4..6] + a + b == s
  {
    var p := ['T'] + s[1..3] + [':'] + s[4..6];
    assert p == s[..6];
    assert p + a + b == p + (a + b);
    assert s[..6] + s[6..] == s;
  }

  /** Everything after the date: nothing, or the `T` group. */
  function ParseRest(s: string): (r: Option<Option<TimeText>>)
    ensures r.Some? ==> (r.value.Some? ==> WellFormedTime(r.value.value)) && SpellTime(r.value) == s
  {
    if s == [] then Some(None)
    else
      match ParseTime(s)
      case None => None
      case Some(t) => Some(Some(t))
  }

  /** A hyphen and two digits at the start of `s`. */
  predicate DashTwoDigits(s: string)
  {
    |s| >= 3 && s[0] == '-' && AllDigits(s[1..3])
  }

  /** A hyphen group at the start of `s`, then the rest of `s`. */
  lemma DashSplit(s: string, a: string, b: string)
    requires |s| >= 3 && s[0] == '-' && a + b == s[3..]
    ensures SpellOpt('-', Some(s[1..3])) + a + b == s
  {
    assert s == ['-'] + s[1..3] + s[3..];
  }

  /** The `-MM` and `-DD` groups, then the rest. */
  function ParseMonthDay(year: YearText, s: string): (r: Option<IsoText>)
    requires WellFormedYear(year)
    ensures r.Some? ==> WellFormed(r.value) && r.value.year == year
    ensures r.Some? ==> SpellOpt('-', r.value.month) + SpellOpt('-', r.value.day) + SpellTime(r.value.time) == s
  {
    if DashTwoDigits(s) then
      match ParseDayRest(s[3..])
      case None => None
      case Some((day, t)) =>
        DashSplit(s, SpellOpt('-', day), SpellTime(t));
        Some(IsoText(year, Some(s[1..3]), day, t))
    else
      match ParseRest(s)
      case None => None
      case Some(t) => Some(IsoText(year, None, None, t))
  }

  /** After the month: the optional `-DD` group, then the rest. */
  function ParseDayRest(s: string): (r: Option<(Option<string>, Option<TimeText>)>)
    ensures r.Some? ==> OptDigits(r.value.0, 2) && (r.value.1.Some? ==> WellFormedTime(r.value.1.value))
    ensures r.Some? ==> SpellOpt('-', r.value.0) + SpellTime(r.value.1) == s
  {
    if DashTwoDigits(s) then
      match ParseRest(s[3..])
      case None => None
      case Some(t) =>
        DashSplit(s, SpellTime(t), []);
        assert SpellTime(t) + [] == SpellTime(t);
        Some((Some(s[1..3]), t))
    else
      match ParseRest(s)
      case None => None
      case Some(t) => Some((None, t))
  }

  /** `regex.exec(s)` for the pattern at when.js:14: the parse tree of
      the whole string, or `None` when the pattern does not match. */
  function ParseIso(s: string): (r: Option<IsoText>)
    ensures r.Some? ==> WellFormed(r.value) && Spell(r.value) == s
  {
    if |s| >= 4 && AllDigits(s[..4]) then
      ParseAfterYear(Basic(s[..4]), s, 4)
    else if |s| >= 7 && IsSignChar(s[0]) && AllDigits(s[1..7]) then
      assert s[..7] == [s[0]] + s[1..7];
      ParseAfterYear(Expanded(SignOf(s[0]), s[1..7]), s, 7)
    else None
  }

  function ParseAfterYear(year: YearText, s: string, n: nat): (r: Option<IsoText>)
    requires WellFormedYear(year) && n <= |s| && SpellYear(year) == s[..n]
    ensures r.Some? ==> WellFormed(r.value) && Spell(r.value) == s
  {
    match ParseMonthDay(year, s[n..])
    case None => None
    case Some(x) =>
      SpellSplitsAtYear(x, s, n);
      Some(x)
  }

  lemma SpellSplitsAtYear(x: IsoText, s: string, n: nat)
    requires n <= |s| && SpellYear(x.year) == s[..n]
    requires SpellOpt('-', x.month) + SpellOpt('-', x.day) + SpellTime(x.time) == s[n..]
    ensures Spell(x) == s
  {
    assert s == s[..n] + s[n..];
  }

  // ---------------------------------------------------------------------
  // Completeness: every well-formed tree's spelling is recognised
  // ---------------------------------------------------------------------

  lemma ParseZoneComplete(z: Option<Zone>)
    requires WellFormedZone(z)
    ensures ParseZone(SpellZone(z)) == Some(z)
  {
    var s := SpellZone(z);
    match z
    case None =>
    case Some(Zulu) =>
    case Some(Numeric(sg, h, None)) =>
      assert s[1..] == h;
    case Some(Numeric(sg, h, Some(m))) =>
      assert s[1..3] == h && s[4..] == m;
  }

  /** A zone never begins with the `:` or `.` that open the seconds and
      fraction groups. */
  lemma ZoneStart(z: Option<Zone>)
    ensures SpellZone(z) == [] || (SpellZone(z)[0] != ':' && SpellZone(z)[0] != '.')
  {
  }

  lemma ParseSecondsComplete(sec: Option<Seconds>, z: Option<Zone>)
    requires WellFormedSeconds(sec) && WellFormedZone(z)
    ensures ParseSeconds(SpellSeconds(sec) + SpellZone(z)) == Some((sec, z))
  {
    ParseZoneComplete(z);
    ZoneStart(z);
    match sec
    case None =>
      assert SpellSeconds(sec) + SpellZone(z) == SpellZone(z);
    case Some(Seconds(d, None)) =>
      SecondsNoFractionComplete(d, z);
    case Some(Seconds(d, Some(f))) =>
      SecondsFractionComplete(d, f, z);
  }

  lemma SecondsNoFractionComplete(d: string, z: Option<Zone>)
    requires Digits(d, 2) && WellFormedZone(z)
    requires ParseZone(SpellZone(z)) == Some(z)
    requires SpellZone(z) == [] || (SpellZone(z)[0] != ':' && SpellZone(z)[0] != '.')
    ensures ParseSeconds(SpellSeconds(Some(Seconds(d, None))) + SpellZone(z)) == Some((Some(Seconds(d, None)), z))
  {
    var s := SpellSeconds(Some(Seconds(d, None))) + SpellZone(z);
    assert s == [':'] + d + SpellZone(z);
    assert s[1..3] == d && s[3..] == SpellZone(z);
  }

  lemma SecondsFractionComplete(d: string, f: string, z: Option<Zone>)
    requires Digits(d, 2) && Digits(f, 3) && WellFormedZone(z)
    requires ParseZone(SpellZone(z)) == Some(z)
    ensures ParseSeconds(SpellSeconds(Some(Seconds(d, Some(f)))) + SpellZone(z)) == Some((Some(Seconds(d, Some(f))), z))
  {
    var rest := ['.'] + f + SpellZone(z);
    assert SpellSeconds(Some(Seconds(d, Some(f)))) + SpellZone(z) == [':'] + d + rest;
    assert rest[1..4] == f && rest[4..] == SpellZone(z);
    ParseSecondsAfterDigits(d, rest);
  }

  /** After `:ss` the seconds group goes on with the fraction or the
      zone. */
  lemma ParseSecondsAfterDigits(d: string, rest: string)
    requires Digits(d, 2)
    ensures ParseSeconds([':'] + d + rest)
         == if |rest| >= 4 && rest[0] == '.' && AllDigits(rest[1..4]) then
              match ParseZone(rest[4..])
              case None => None
              case Some(z) => Some((Some(Seconds(d, Some(rest[1..4]))), z))
            else
              match ParseZone(rest)
              case None => None
              case Some(z) => Some((Some(Seconds(d, None)), z))
  {
    var s := [':'] + d + rest;
    assert s[1..3] == d && s[3..] == rest;
  }

  lemma ParseTimeComplete(t: TimeText)
    requires WellFormedTime(t)
    ensures ParseTime(SpellTime(Some(t))) == Some(t)
  {
    var rest := SpellSeconds(t.seconds) + SpellZone(t.zone);
    assert SpellTime(Some(t)) == ['T'] + t.hours + [':'] + t.minutes + rest;
    ParseSecondsComplete(t.seconds, t.zone);
    ParseTimeAfterMinutes(t.hours, t.minutes, rest);
  }

  /** After `THH:mm` the parse of the time is the parse of the seconds
      and zone. */
  lemma ParseTimeAfterMinutes(h: string, m: string, rest: string)
    requires Digits(h, 2) && Digits(m, 2)
    ensures ParseSeconds(rest).Some? ==>
      ParseTime(['T'] + h + [':'] + m + rest) == Some(TimeText(h, m, ParseSeconds(rest).value.0, ParseSeconds(rest).value.1))
  {
    var s := ['T'] + h + [':'] + m + rest;
    assert s[1..3] == h && s[4..6] == m && s[6..] == rest;
  }

  lemma ParseRestComplete(t: Option<TimeText>)
    requires t.Some? ==> WellFormedTime(t.value)
    ensures ParseRest(SpellTime(t)) == Some(t)
  {
    if t.Some? {
      ParseTimeComplete(t.value);
    }
  }

  lemma ParseMonthDayComplete(x: IsoText)
    requires WellFormed(x)
    ensures ParseMonthDay(x.year, SpellOpt('-', x.month) + SpellOpt('-', x.day) + SpellTime(x.time)) == Some(x)
  {
    var rest := SpellOpt('-', x.day) + SpellTime(x.time);
    ParseDayRestComplete(x.day, x.time);
    match x.month
    case None =>
      ParseRestComplete(x.time);
      assert SpellOpt('-', x.month) + SpellOpt('-', x.day) + SpellTime(x.time) == SpellTime(x.time);
    case Some(m) =>
      var s := ['-'] + m + rest;
      assert SpellOpt('-', x.month) + SpellOpt('-', x.day) + SpellTime(x.time) == s;
      assert s[1..3] == m && s[3..] == rest;
  }

  lemma ParseDayRestComplete(day: Option<string>, t: Option<TimeText>)
    requires OptDigits(day, 2) && (t.Some? ==> WellFormedTime(t.value))
    ensures ParseDayRest(SpellOpt('-', day) + SpellTime(t)) == Some((day, t))
  {
    ParseRestComplete(t);
    match day
    case None =>
      assert SpellOpt('-', day) + SpellTime(t) == SpellTime(t);
    case Some(d) =>
      var s := ['-'] + d + SpellTime(t);
      assert SpellOpt('-', day) + SpellTime(t) == s;
      assert s[1..3] == d && s[3..] == SpellTime(t);
  }

  /** Every well-formed tree is recognised from its spelling.  With the
      contract of `ParseIso` this makes `ParseIso` and `Spell` inverse:
      `ParseIso(s) == Some(x)` exactly when `x` is well formed and
      `Spell(x) == s`. */
  lemma ParseIsoComplete(x: IsoText)
    requires WellFormed(x)
    ensures ParseIso(Spell(x)) == Some(x)
  {
    var rest := SpellOpt('-', x.month) + SpellOpt('-', x.day) + SpellTime(x.time);
    ParseMonthDayComplete(x);
    assert Spell(x) == SpellYear(x.year) + rest;
    YearComplete(x.year, rest);
  }

  /** The year group is recognised and parsing goes on after it. */
  lemma YearComplete(year: YearText, rest: string)
    requires WellFormedYear(year)
    ensures ParseIso(SpellYear(year) + rest) == ParseMonthDay(year, rest)
  {
    match year
    case Basic(d) =>
      BasicYearComplete(d, rest);
    case Expanded(sg, d) =>
      ExpandedYearComplete(sg, d, rest);
  }

  lemma BasicYearComplete(d: string, rest: string)
    requires Digits(d, 4)
    ensures ParseIso(d + rest) == ParseMonthDay(Basic(d), rest)
  {
    var s := d + rest;
    assert s[..4] == d && s[4..] == rest;
  }

  lemma ExpandedYearComplete(sg: Sign, d: string, rest: string)
    requires Digits(d, 6)
    ensures ParseIso([SignChar(sg)] + d + rest) == ParseMonthDay(Expanded(sg, d), rest)
  {
    var s := [SignChar(sg)] + d + rest;
    var year := Expanded(sg, d);
    assert s[..4][0] == SignChar(sg);
    assert s[1..7] == d && s[7..] == rest;
    assert s[..7] == [SignChar(sg)] + d;
    assert SignOf(s[0]) == sg;
    assert ParseIso(s) == ParseAfterYear(year, s, 7);
    AfterYear(year, s, 7);
  }

  lemma AfterYear(year: YearText, s: string, n: nat)
    requires WellFormedYear(year) && n <= |s| && SpellYear(year) == s[..n]
    ensures ParseAfterYear(year, s, n) == ParseMonthDay(year, s[n..])
  {
  }

  // ---------------------------------------------------------------------
  // From a parse tree to a time value (when.js:16-28)
  // ---------------------------------------------------------------------

  /** The seven numbers passed to `Date.UTC`, before the zone adjustment,
      and the zone offset in minutes east of UTC.  `month` is 0-based. */
  datatype Fields = Fields(year: int, month: int, day: int, hours: int, minutes: int, seconds: int, ms: int, offset: int)

  /** `+x || 0` on an optional run of digits: absent counts as zero. */
  function OptValue(o: Option<string>): (r: nat)
    requires o.Some? ==> AllDigits(o.value)
    ensures o.Some? ==> r < Pow10(|o.value|)
  {
    match o
    case None => 0
    case Some(d) =>
      DigitsValueBound(d);
      DigitsValue(d)
  }

  function YearValue(y: YearText): int
    requires WellFormedYear(y)
  {
    match y
    case Basic(d) => DigitsValue(d)
    case Expanded(Plus, d) => DigitsValue(d)
    case Expanded(Minus, d) => -(DigitsValue(d) as int)
  }

  /** Minutes east of UTC written in the zone; `Z` and no zone are both 0. */
  function ZoneOffset(z: Option<Zone>): (r: int)
    requires WellFormedZone(z)
    ensures z.None? || z.value.Zulu? ==> r == 0
    ensures z.Some? && z.value.Numeric? && z.value.sign == Plus ==>
      r == 60 * DigitsValue(z.value.hours) + OptValue(z.value.minutes)
    ensures z.Some? && z.value.Numeric? && z.value.sign == Minus ==>
      r == -(60 * DigitsValue(z.value.hours) + OptValue(z.value.minutes))
  {
    match z
    case None => 0
    case Some(Zulu) => 0
    case Some(Numeric(sg, h, m)) =>
      var magnitude := 60 * DigitsValue(h) + OptValue(m);
      if sg == Plus then magnitude else -magnitude
  }

  /** The defaulting of when.js:16-21: an absent or zero month is January
      (index 0), an absent or zero day is the 1st, and absent time fields
      are 0. */
  function Resolve(x: IsoText): (f: Fields)
    requires WellFormed(x)
    ensures f.year == YearValue(x.year)
    ensures 0 <= f.month < 99 && 1 <= f.day < 100
    ensures x.month.None? || DigitsValue(x.month.value) == 0 ==> f.month == 0
    ensures x.month.Some? && DigitsValue(x.month.value) != 0 ==> f.month == DigitsValue(x.month.value) - 1
    ensures x.day.None? || DigitsValue(x.day.value) == 0 ==> f.day == 1
    ensures x.day.Some? && DigitsValue(x.day.value) != 0 ==> f.day == DigitsValue(x.day.value)
    ensures x.time.None? ==> f.hours == 0 && f.minutes == 0 && f.seconds == 0 && f.ms == 0 && f.offset == 0
    ensures x.time.Some? ==> f.hours == DigitsValue(x.time.value.hours) && f.minutes == DigitsValue(x.time.value.minutes)
    ensures x.time.Some? ==> f.offset == ZoneOffset(x.time.value.zone)
    ensures x.time.Some? && x.time.value.seconds.None? ==> f.seconds == 0 && f.ms == 0
    ensures x.time.Some? && x.time.value.seconds.Some? ==> f.seconds == DigitsValue(x.time.value.seconds.value.digits)
    ensures x.time.Some? && x.time.value.seconds.Some? && x.time.value.seconds.value.fraction.Some? ==>
              f.ms == DigitsValue(x.time.value.seconds.value.fraction.value)
    ensures x.time.Some? && x.time.value.seconds.Some? && x.time.value.seconds.value.fraction.None? ==> f.ms == 0
    ensures x.time.Some? && (x.time.value.zone.None? || x.time.value.zone.value.Zulu?) ==> f.offset == 0
  {
    var m := OptValue(x.month);
    var d := OptValue(x.day);
    var month := (if m == 0 then 1 else m) - 1;
    var day := if d == 0 then 1 else d;
    match x.time
    case None => Fields(YearValue(x.year), month, day, 0, 0, 0, 0, 0)
    case Some(t) =>
      var seconds := if t.seconds.None? then 0 else DigitsValue(t.seconds.value.digits);
      var ms := if t.seconds.None? then 0 else OptValue(t.seconds.value.fraction);
      Fields(YearValue(x.year), month, day, DigitsValue(t.hours), DigitsValue(t.minutes), seconds, ms, ZoneOffset(t.zone))
  }

  /** The fields read as a UTC wall clock, with the rule of section
      15.9.4.3 that years 0 to 99 mean 1900 to 1999. */
  function WallClock(f: Fields): int
  {
    var yr := if 0 <= f.year <= 99 then 1900 + f.year else f.year;
    Calendar.MakeDate(Calendar.MakeDay(yr, f.month, f.day), Calendar.MakeTime(f.hours, f.minutes, f.seconds, f.ms))
  }

  /** when.js:28: the offset is subtracted from the minutes argument of
      `Date.UTC`.  Because MakeTime is linear in its minutes, that is the
      wall clock moved back by the offset, then clipped. */
  function Instant(f: Fields): (r: Option<int>)
    ensures r == Calendar.TimeClip(WallClock(f) - f.offset * Calendar.MsPerMinute)
  {
    Calendar.DateUtc(f.year, f.month, f.day, f.hours, f.minutes - f.offset, f.seconds, f.ms)
  }

  /** The patched `Date.parse` (when.js:8-34) as a pure function; the host
      parser it falls back to is the parameter `fallback`, and NaN is
      `None`. */
  function Parse(s: string, fallback: string -> Option<int>): (r: Option<int>)
    ensures ParseIso(s).None? ==> r == fallback(s)
    ensures ParseIso(s).Some? && r.Some? ==> -Calendar.MaxTime <= r.value <= Calendar.MaxTime
  {
    match ParseIso(s)
    case Some(x) => Instant(Resolve(x))
    case None => fallback(s)
  }

  // ---------------------------------------------------------------------
  // Properties of the parser
  // ---------------------------------------------------------------------

  function WithZone(x: IsoText, z: Option<Zone>): IsoText
    requires x.time.Some?
  {
    x.(time := Some(x.time.value.(zone := z)))
  }

  /** A spelled tree parses to the instant of its resolved fields. */
  lemma ParseSpelled(x: IsoText, fallback: string -> Option<int>)
    requires WellFormed(x)
    ensures Parse(Spell(x), fallback) == Instant(Resolve(x))
  {
    ParseIsoComplete(x);
  }

  /** The zone only contributes the offset to the resolved fields. */
  lemma ResolveWithZone(x: IsoText, z: Option<Zone>)
    requires WellFormed(x) && x.time.Some? && WellFormedZone(z)
    ensures WellFormed(WithZone(x, z))
    ensures Resolve(WithZone(x, z)) == Resolve(x).(offset := ZoneOffset(z))
  {
  }

  /** when.js:22: `Z` and no zone at all give the same instant, the
      wall clock read as UTC: bare strings are not local time. */
  lemma NoZoneIsUtc(x: IsoText, fallback: string -> Option<int>)
    requires WellFormed(x) && x.time.Some?
    ensures Parse(Spell(WithZone(x, None)), fallback) == Calendar.TimeClip(WallClock(Resolve(x)))
    ensures Parse(Spell(WithZone(x, Some(Zulu))), fallback) == Calendar.TimeClip(WallClock(Resolve(x)))
  {
    WallClockIgnoresOffset(Resolve(x), 0);
    ResolveWithZone(x, None);
    ResolveWithZone(x, Some(Zulu));
    ParseSpelled(WithZone(x, None), fallback);
    ParseSpelled(WithZone(x, Some(Zulu)), fallback);
  }

  /** when.js:22-28: an explicit `±HH[:MM]` moves the instant back by the
      offset from the instant of the same text written with `Z`. */
  lemma ZoneShiftsInstant(x: IsoText, fallback: string -> Option<int>)
    requires WellFormed(x) && x.time.Some?
    ensures Parse(Spell(x), fallback)
         == Calendar.TimeClip(WallClock(Resolve(WithZone(x, Some(Zulu)))) - ZoneOffset(x.time.value.zone) * Calendar.MsPerMinute)
  {
    ParseSpelled(x, fallback);
    InstantIsShiftedZulu(x);
  }

  /** The resolved instant of a zoned text is the `Z` wall clock minus the
      zone's offset. */
  lemma InstantIsShiftedZulu(x: IsoText)
    requires WellFormed(x) && x.time.Some?
    ensures Instant(Resolve(x))
         == Calendar.TimeClip(WallClock(Resolve(WithZone(x, Some(Zulu)))) - ZoneOffset(x.time.value.zone) * Calendar.MsPerMinute)
  {
    ResolveWithZone(x, Some(Zulu));
    WallClockIgnoresOffset(Resolve(x), 0);
  }

  lemma WallClockIgnoresOffset(f: Fields, k: int)
    ensures WallClock(f.(offset := k)) == WallClock(f)
  {
  }

  /** Digit values of the short literals used in the examples below. */
  lemma DigitsOf2021()
    ensures DigitsValue("2021") == 2021 && DigitsValue("0050") == 50
  {
    assert "2021"[..3] == "202" && "202"[..2] == "20" && "20"[..1] == "2";
    assert "0050"[..3] == "005" && "005"[..2] == "00" && "00"[..1] == "0";
  }

  lemma TwoDigitValues()
    ensures DigitsValue("00") == 0 && DigitsValue("02") == 2 && DigitsValue("06") == 6
    ensures DigitsValue("08") == 8 && DigitsValue("10") == 10 && DigitsValue("15") == 15
  {
    assert "00"[..1] == "0" && "02"[..1] == "0" && "06"[..1] == "0";
    assert "08"[..1] == "0" && "10"[..1] == "1" && "15"[..1] == "1";
  }

  /** Once a literal is known to spell a tree, parsing it is resolving
      the tree. */
  lemma SpelledParses(x: IsoText, s: string, fallback: string -> Option<int>)
    requires WellFormed(x) && Spell(x) == s
    ensures Parse(s, fallback) == Instant(Resolve(x))
  {
    ParseSpelled(x, fallback);
  }

  /** The days since the epoch of the calendar dates used in the examples
      below. */
  lemma ExampleDays()
    ensures Calendar.DayFromYear(2021) == 18_628 && !Calendar.IsLeapYear(2021)
    ensures Calendar.DayFromYear(1950) == -7_305
    ensures Calendar.MonthStart(0, false) == 0 && Calendar.MonthStart(5, false) == 151
  {
  }

  /** Instants in 2021, a common year starting on day 18 628 of the epoch. */
  lemma InstantIn2021(month: int, day: int, hours: int, offset: int)
    requires 0 <= month < 12
    ensures Instant(Fields(2021, month, day, hours, 0, 0, 0, offset))
         == Calendar.TimeClip((18_628 + Calendar.MonthStart(month, false) + day - 1) * Calendar.MsPerDay
                              + hours * Calendar.MsPerHour - offset * Calendar.MsPerMinute)
  {
    Calendar.MakeDayInRange(2021, month, day);
    ExampleDays();
  }

  /** `+02:00` is 120 minutes east. */
  lemma PlusTwoHours()
    ensures ZoneOffset(Some(Numeric(Plus, "02", Some("00")))) == 120
  {
    TwoDigitValues();
  }

  /** Midnight UTC on January 1st of year `y`, where `Date.UTC` reads 0
      to 99 as 1900 to 1999. */
  lemma InstantNewYear(y: int)
    requires 0 <= y
    ensures Instant(Fields(y, 0, 1, 0, 0, 0, 0, 0))
         == Calendar.TimeClip(Calendar.DayFromYear(if y <= 99 then 1900 + y else y) * Calendar.MsPerDay)
  {
    var yr := if y <= 99 then 1900 + y else y;
    assert WallClock(Fields(y, 0, 1, 0, 0, 0, 0, 0)) == Calendar.MakeDate(Calendar.MakeDay(yr, 0, 1), 0);
    assert Calendar.MakeDay(yr, 0, 1) == Calendar.DayFromYear(yr) by {
      Calendar.MakeDayInRange(yr, 0, 1);
    }
  }

  /** A bare four-digit year is midnight UTC on January 1st of that year;
      0000 to 0099 are 1900 to 1999. */
  lemma YearOnlyIsNewYear(d: string, fallback: string -> Option<int>)
    requires Digits(d, 4)
    ensures Parse(d, fallback)
         == Calendar.TimeClip(Calendar.DayFromYear(if DigitsValue(d) <= 99 then 1900 + DigitsValue(d) else DigitsValue(d)) * Calendar.MsPerDay)
  {
    var x := IsoText(Basic(d), None, None, None);
    assert Spell(x) == d;
    SpelledParses(x, d, fallback);
    YearOnlyResolves(d);
  }

  lemma YearOnlyResolves(d: string)
    requires Digits(d, 4)
    ensures Instant(Resolve(IsoText(Basic(d), None, None, None)))
         == Calendar.TimeClip(Calendar.DayFromYear(if DigitsValue(d) <= 99 then 1900 + DigitsValue(d) else DigitsValue(d)) * Calendar.MsPerDay)
  {
    YearOnlyFields(d);
    InstantNewYear(DigitsValue(d));
  }

  lemma YearOnlyFields(d: string)
    requires Digits(d, 4)
    ensures Resolve(IsoText(Basic(d), None, None, None)) == Fields(DigitsValue(d), 0, 1, 0, 0, 0, 0, 0)
  {
  }

  /** "2021" is 2021-01-01T00:00:00.000Z. */
  lemma YearOnlyDefaults(fallback: string -> Option<int>)
    ensures Parse("2021", fallback) == Some(1_609_459_200_000)
  {
    YearOnlyIsNewYear("2021", fallback);
    DigitsOf2021();
    ExampleDays();
  }

  /** "0050" is 1950-01-01T00:00:00.000Z, not a date in the first century. */
  lemma TwoDigitYearsAreTwentiethCentury(fallback: string -> Option<int>)
    ensures Parse("0050", fallback) == Some(-631_152_000_000)
  {
    YearOnlyIsNewYear("0050", fallback);
    DigitsOf2021();
    ExampleDays();
  }

  function YearMonthText(): IsoText
  {
    IsoText(Basic("2021"), Some("06"), None, None)
  }

  lemma YearMonthSpelled(fallback: string -> Option<int>)
    ensures Parse("2021-06", fallback) == Instant(Resolve(YearMonthText()))
  {
    assert WellFormed(YearMonthText()) && Spell(YearMonthText()) == "2021-06";
    SpelledParses(YearMonthText(), "2021-06", fallback);
  }

  lemma YearMonthResolved()
    ensures WellFormed(YearMonthText()) && Resolve(YearMonthText()) == Fields(2021, 5, 1, 0, 0, 0, 0, 0)
  {
    DigitsOf2021();
    TwoDigitValues();
  }

  /** A year and month default to the first of the month, midnight UTC. */
  lemma YearMonthDefaults(fallback: string -> Option<int>)
    ensures Parse("2021-06", fallback) == Some(1_622_505_600_000)
  {
    YearMonthSpelled(fallback);
    YearMonthResolved();
    InstantIn2021(5, 1, 0, 0);
    ExampleDays();
  }

  function DateOnlyText(): IsoText
  {
    IsoText(Basic("2021"), Some("06"), Some("15"), None)
  }

  lemma DateOnlySpelled(fallback: string -> Option<int>)
    ensures Parse("2021-06-15", fallback) == Instant(Resolve(DateOnlyText()))
  {
    assert WellFormed(DateOnlyText()) && Spell(DateOnlyText()) == "2021-06-15";
    SpelledParses(DateOnlyText(), "2021-06-15", fallback);
  }

  lemma DateOnlyResolved()
    ensures WellFormed(DateOnlyText()) && Resolve(DateOnlyText()) == Fields(2021, 5, 15, 0, 0, 0, 0, 0)
  {
    DigitsOf2021();
    TwoDigitValues();
  }

  /** A full date without time is midnight UTC, not local midnight. */
  lemma DateOnlyIsUtcMidnight(fallback: string -> Option<int>)
    ensures Parse("2021-06-15", fallback) == Some(1_623_715_200_000)
  {
    DateOnlySpelled(fallback);
    DateOnlyResolved();
    InstantIn2021(5, 15, 0, 0);
    ExampleDays();
  }

  function ZuluText(): IsoText
  {
    IsoText(Basic("2021"), Some("06"), Some("15"),
                   Some(TimeText("08", "00", Some(Seconds("00", None)), Some(Zulu))))
  }

  lemma ZuluSpelled(fallback: string -> Option<int>)
    ensures Parse("2021-06-15T08:00:00Z", fallback) == Instant(Resolve(ZuluText()))
  {
    assert WellFormed(ZuluText()) && Spell(ZuluText()) == "2021-06-15T08:00:00Z";
    SpelledParses(ZuluText(), "2021-06-15T08:00:00Z", fallback);
  }

  lemma ZuluResolved()
    ensures WellFormed(ZuluText()) && Resolve(ZuluText()) == Fields(2021, 5, 15, 8, 0, 0, 0, 0)
  {
    DigitsOf2021();
    TwoDigitValues();
  }

  /** "2021-06-15T08:00:00Z" is 08:00 UTC. */
  lemma ZuluExample(fallback: string -> Option<int>)
    ensures Parse("2021-06-15T08:00:00Z", fallback) == Some(1_623_744_000_000)
  {
    ZuluSpelled(fallback);
    ZuluResolved();
    InstantIn2021(5, 15, 8, 0);
    ExampleDays();
  }

  function PlusTwoText(): IsoText
  {
    IsoText(Basic("2021"), Some("06"), Some("15"),
                   Some(TimeText("10", "00", Some(Seconds("00", None)), Some(Numeric(Plus, "02", Some("00"))))))
  }

  lemma PlusTwoSpelled(fallback: string -> Option<int>)
    ensures Parse("2021-06-15T10:00:00+02:00", fallback) == Instant(Resolve(PlusTwoText()))
  {
    PlusTwoSpelling();
    SpelledParses(PlusTwoText(), "2021-06-15T10:00:00+02:00", fallback);
  }

  lemma PlusTwoSpelling()
    ensures WellFormed(PlusTwoText()) && Spell(PlusTwoText()) == "2021-06-15T10:00:00+02:00"
  {
    var x := PlusTwoText();
    PlusTwoTimeSpelled();
    assert SpellYear(x.year) + SpellOpt('-', x.month) + SpellOpt('-', x.day) == "2021-06-15";
  }

  lemma PlusTwoTimeSpelled()
    ensures SpellTime(PlusTwoText().time) == "T10:00:00+02:00"
  {
    assert SpellZone(Some(Numeric(Plus, "02", Some("00")))) == "+02:00";
    assert SpellSeconds(Some(Seconds("00", None))) == ":00";
  }

  lemma PlusTwoResolved()
    ensures WellFormed(PlusTwoText()) && Resolve(PlusTwoText()) == Fields(2021, 5, 15, 10, 0, 0, 0, 120)
  {
    DigitsOf2021();
    TwoDigitValues();
    PlusTwoHours();
  }

  /** "2021-06-15T10:00:00+02:00" is 08:00 UTC as well. */
  lemma OffsetExample(fallback: string -> Option<int>)
    ensures Parse("2021-06-15T10:00:00+02:00", fallback) == Some(1_623_744_000_000)
  {
    PlusTwoSpelled(fallback);
    PlusTwoResolved();
    InstantIn2021(5, 15, 10, 120);
    ExampleDays();
  }

  /** After the date only the `T` group may follow. */
  lemma OnlyTimeFollowsDate(s: string)
    requires s != [] && s[0] != 'T'
    ensures ParseRest(s).None?
  {
  }

  /** A zone designator directly after a date, with no `T` time between,
      is rejected: `Z`, `+HH[:mm]`, and `-HH[:mm]` after a full date.
      After a bare year or a year and month a `-NN` reads as the month or
      the day instead. */
  lemma ZoneNeedsTime(x: IsoText, rest: string)
    requires WellFormed(x) && x.time.None?
    requires rest != [] && (rest[0] == 'Z' || rest[0] == '+' || (rest[0] == '-' && x.day.Some?))
    ensures ParseIso(Spell(x) + rest).None?
  {
    var tail := SpellOpt('-', x.month) + SpellOpt('-', x.day);
    assert Spell(x) + rest == SpellYear(x.year) + (tail + rest);
    ZoneAfterMonthDay(x, rest);
    match x.year
    case Basic(d) =>
      BasicYearComplete(d, tail + rest);
    case Expanded(sg, d) =>
      ExpandedYearComplete(sg, d, tail + rest);
  }

  /** `2021-06-15-05:00` is rejected: a western offset needs the time. */
  lemma WestZoneAfterDate()
    ensures ParseIso("2021-06-15-05:00").None?
  {
    assert WellFormed(DateOnlyText()) && Spell(DateOnlyText()) == "2021-06-15";
    ZoneNeedsTime(DateOnlyText(), "-05:00");
    assert "2021-06-15" + "-05:00" == "2021-06-15-05:00";
  }

  lemma ZoneAfterMonthDay(x: IsoText, rest: string)
    requires WellFormed(x) && x.time.None?
    requires rest != [] && (rest[0] == 'Z' || rest[0] == '+' || (rest[0] == '-' && x.day.Some?))
    ensures ParseMonthDay(x.year, SpellOpt('-', x.month) + SpellOpt('-', x.day) + rest).None?
  {
    OnlyTimeFollowsDate(rest);
    ZoneAfterDay(x.day, rest);
    match x.month
    case None =>
      assert SpellOpt('-', x.month) + SpellOpt('-', x.day) + rest == rest;
    case Some(m) =>
      var s := ['-'] + m + (SpellOpt('-', x.day) + rest);
      assert SpellOpt('-', x.month) + SpellOpt('-', x.day) + rest == s;
      assert s[1..3] == m && s[3..] == SpellOpt('-', x.day) + rest;
  }

  lemma ZoneAfterDay(day: Option<string>, rest: string)
    requires OptDigits(day, 2)
    requires rest != [] && (rest[0] == 'Z' || rest[0] == '+' || (rest[0] == '-' && day.Some?))
    ensures ParseDayRest(SpellOpt('-', day) + rest).None?
  {
    OnlyTimeFollowsDate(rest);
    match day
    case None =>
      assert SpellOpt('-', day) + rest == rest;
    case Some(d) =>
      var s := ['-'] + d + rest;
      assert SpellOpt('-', day) + rest == s;
      assert s[1..3] == d && s[3..] == rest;
  }

  /** A `T` must be followed by two-digit hours, a colon and two-digit
      minutes. */
  lemma TimeNeedsMinutes(h: string, rest: string)
    requires Digits(h, 2) && (rest == [] || rest[0] != ':')
    ensures ParseTime(['T'] + h + rest).None?
  {
    var s := ['T'] + h + rest;
    if |s| >= 6 {
      assert s[3] == rest[0];
    }
  }

  /** Milliseconds are only accepted after seconds. */
  lemma FractionNeedsSeconds(s: string)
    requires s != [] && s[0] == '.'
    ensures ParseSeconds(s).None?
  {
  }

  /** Milliseconds are exactly three digits. */
  lemma FractionIsThreeDigits(d: string, f: string, z: Option<Zone>)
    requires Digits(d, 2) && AllDigits(f) && |f| != 3 && WellFormedZone(z)
    ensures ParseSeconds([':'] + d + ['.'] + f + SpellZone(z)).None?
  {
    var rest := ['.'] + f + SpellZone(z);
    assert [':'] + d + ['.'] + f + SpellZone(z) == [':'] + d + rest;
    FractionNotThree(f, z);
    BadFractionRejected(d, rest);
  }

  /** A fraction of other than three digits, then a zone, is not three
      digits followed by a non-digit. */
  lemma FractionNotThree(f: string, z: Option<Zone>)
    requires AllDigits(f) && |f| != 3 && WellFormedZone(z)
    ensures var rest := ['.'] + f + SpellZone(z);
            rest[0] == '.' && (|rest| < 4 || !AllDigits(rest[1..4]) || (rest[4..] != [] && IsDigit(rest[4])))
  {
    var rest := ['.'] + f + SpellZone(z);
    if |f| > 3 {
      assert rest[4] == f[3];
    } else if |rest| >= 4 {
      assert rest[1..4][|f|] == rest[1 + |f|] == SpellZone(z)[0];
    }
  }

  /** Seconds followed by a `.` that does not start exactly three digits
      and a zone are rejected. */
  lemma BadFractionRejected(d: string, rest: string)
    requires Digits(d, 2) && rest != [] && rest[0] == '.'
    requires |rest| < 4 || !AllDigits(rest[1..4]) || (rest[4..] != [] && IsDigit(rest[4]))
    ensures ParseSeconds([':'] + d + rest).None?
  {
    var s := [':'] + d + rest;
    assert s[1..3] == d && s[3..] == rest;
  }

  /** The year is four digits, or a sign and six digits. */
  lemma YearIsFourOrSignedSix()
    ensures ParseIso("21").None?
    ensures ParseIso("20210").None?
    ensures ParseIso("+02021").None?
    ensures ParseIso("02021-06").None?
  {
  }
}
