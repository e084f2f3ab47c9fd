/** `pad0` and `When.prototype.format` with its two fixed layouts,
    `to8601` and `to822` (when.js:111-218 and 323-331).

    `format` reads the getters of its receiver, splits the layout into
    literal text and directives (module `Tokens`), replaces each directive
    by its rendering and joins the pieces.  What the getters return is
    gathered once into a `Reading`, so the rendering below never looks at
    the calendar arithmetic behind it.  The month and weekday names come
    from the host's `toLocaleString`, a parameter here. */
module Format {
  import opened Wrappers
  import opened Text
  import opened Errors
  import opened Tokens
  import opened Temporal
  import Iso8601
  import Calendar

  // ---------------------------------------------------------------------
  // pad0
  // ---------------------------------------------------------------------

  /** `pad0(s, n)` on the text `'' + s`: left-pad with zeros to width `n`;
      a width of 1 or less throws. */
  function Pad0(s: string, n: int): (r: Result<string, Error>)
    ensures r.Failure? <==> n <= 1
    ensures r.Failure? ==> r.error == InvalidPadWidth(n)
    ensures r.Success? ==> |r.value| == (if |s| < n then n else |s|)
    ensures r.Success? ==> r.value == Zeros(|r.value| - |s|) + s
  {
    if n <= 1 then Failure(InvalidPadWidth(n))
    else if |s| < n then Success(Zeros(n - |s|) + s)
    else Success(s)
  }

  /** `pad0` at the widths `format` uses, which never throw. */
  function Padded(s: string, n: int): string
    requires 2 <= n
  {
    Pad0(s, n).value
  }

  /** Padding twice is padding once. */
  lemma PadIdempotent(s: string, n: int)
    requires 2 <= n
    ensures Pad0(Padded(s, n), n) == Pad0(s, n)
  {
  }

  /** A decimal text of at most `n` digits is no longer than `n`. */
  lemma {:induction false} NatTextShort(v: nat, n: nat)
    requires 1 <= n && v < Pow10(n)
    ensures |NatText(v)| <= n
    decreases n
  {
    if 10 <= v {
      assert NatText(v) == NatText(v / 10) + [DigitChar(v % 10)];
      NatTextShort(v / 10, n - 1);
    }
  }

  /** Padding a number of at most `n` digits to width `n` gives exactly
      `n` digits that still read as the number. */
  lemma PadNumber(v: int, n: int)
    requires 2 <= n && 0 <= v < Pow10(n)
    ensures |Padded(IntText(v), n)| == n && AllDigits(Padded(IntText(v), n))
    ensures DigitsValue(Padded(IntText(v), n)) == v
  {
    var t := NatText(v);
    NatTextShort(v, n);
    ZerosPrefixValue(n - |t|, t);
  }

  // ---------------------------------------------------------------------
  // JavaScript number operations on integers
  // ---------------------------------------------------------------------

  function Abs(x: int): nat { if x < 0 then -x else x }

  /** The `%` of section 11.5.3 of ECMAScript 5.1 on integers: the
      remainder of truncating division, so it takes the sign of the
      dividend (Dafny's `%` is never negative); a zero divisor gives NaN. */
  function JsRem(a: int, b: int): (r: Option<int>)
    ensures r.None? <==> b == 0
    ensures r.Some? ==> Abs(r.value) == Abs(a) % Abs(b)
    ensures r.Some? ==> (0 <= a ==> 0 <= r.value) && (a <= 0 ==> r.value <= 0)
  {
    if b == 0 then None
    else if a < 0 then Some(-(Abs(a) % Abs(b)))
    else Some(a % Abs(b))
  }

  // ---------------------------------------------------------------------
  // The zone suffix of format (when.js:119-128)
  // ---------------------------------------------------------------------

  /** The zone text of a local `When` whose `-getTimezoneOffset()` is
      `tzoff` (`None` for NaN), as when.js:122-127 computes it: the hours
      are `Math.floor(tzoff / 60)` and the minutes `tzoff % (tzh * 60)`. */
  function ZoneAsWritten(tzoff: Option<int>): string
  {
    match tzoff
    case None => "-NaN:NaN"
    case Some(o) =>
      var tzh := o / 60;
      var tzm := JsRem(o, tzh * 60);
      [if tzh > 0 then '+' else '-'] + Padded(IntText(Abs(tzh)), 2) + ":" + Padded(NumberText(tzm), 2)
  }

  /** The zone text the layout `±HH:MM` calls for: the sign of the
      offset, then its magnitude in whole hours and remaining minutes. */
  function ZoneText(tzoff: Option<int>): string
  {
    match tzoff
    case None => "-NaN:NaN"
    case Some(o) =>
      [if o > 0 then '+' else '-'] + Padded(NatText(Abs(o) / 60), 2) + ":" + Padded(NatText(Abs(o) % 60), 2)
  }

  /** The zone of a `Local` reading at a non-zero offset of `o` minutes. */
  function ZoneTree(o: int): (z: Iso8601.Zone)
    requires 0 < Abs(o) < 6000
    ensures Iso8601.WellFormedZone(Some(z))
  {
    PadNumber(Abs(o) / 60, 2);
    PadNumber(Abs(o) % 60, 2);
    Iso8601.Numeric(if o > 0 then Iso8601.Plus else Iso8601.Minus,
                    Padded(NatText(Abs(o) / 60), 2), Some(Padded(NatText(Abs(o) % 60), 2)))
  }

  /** The zone text is the spelling of an ISO 8601 zone... */
  lemma ZoneTextSpells(o: int)
    requires 0 < Abs(o) < 6000
    ensures ZoneText(Some(o)) == Iso8601.SpellZone(Some(ZoneTree(o)))
  {
  }

  /** ...whose offset is the one it was made from, so the parser of
      when.js:8-34 reads the offset back. */
  lemma ZoneTextRoundTrip(o: int)
    requires 0 < Abs(o) < 6000
    ensures Iso8601.ParseZone(ZoneText(Some(o))) == Some(Some(ZoneTree(o)))
    ensures Iso8601.ZoneOffset(Some(ZoneTree(o))) == o
  {
    ZoneTextSpells(o);
    Iso8601.ParseZoneComplete(Some(ZoneTree(o)));
    PadNumber(Abs(o) / 60, 2);
    PadNumber(Abs(o) % 60, 2);
  }

  /** The offsets at which the arithmetic of when.js:122-127 is right:
      a whole number of hours, or an hour or more east of UTC. */
  predicate HourAligned(o: int)
  {
    o % 60 == 0 || 60 <= o
  }

  /** Where the arithmetic as written is right, it prints the corrected
      zone text. */
  lemma ZoneAsWrittenAgrees(o: int)
    requires o != 0 && HourAligned(o)
    ensures ZoneAsWritten(Some(o)) == ZoneText(Some(o))
  {
    var k := o / 60;
    var r := o % 60;
    assert o == 60 * k + r;
    if 0 < o {
      Calendar.DivModUnique(o, 60 * k, 1, r);
    } else {
      Calendar.DivModUnique(-o, 60 * -k, 1, 0);
      Calendar.DivModUnique(-o, 60, -k, 0);
    }
    assert Abs(k) == Abs(o) / 60;
    assert JsRem(o, k * 60) == Some(Abs(o) % 60);
    assert NumberText(JsRem(o, k * 60)) == NatText(Abs(o) % 60);
    assert IntText(Abs(k)) == NatText(Abs(o) / 60);
    assert (k > 0) == (o > 0);
  }

  lemma NatTextDigits(v: nat)
    requires v < 10
    ensures NatText(v) == [DigitChar(v)]
  {
  }

  lemma NatTextTwoDigits(v: nat)
    requires 10 <= v < 100
    ensures NatText(v) == [DigitChar(v / 10), DigitChar(v % 10)]
  {
    NatTextDigits(v / 10);
  }

  lemma NatTextThreeDigits(v: nat)
    requires 100 <= v < 1000
    ensures NatText(v) == [DigitChar(v / 100), DigitChar(v / 10 % 10), DigitChar(v % 10)]
  {
    NatTextTwoDigits(v / 10);
  }

  /** `pad0` of a one-character text. */
  lemma PadOne(d: char)
    ensures Padded([d], 2) == ['0', d] && Padded([d], 3) == ['0', '0', d]
  {
    assert Zeros(1) == ['0'] && Zeros(2) == ['0', '0'];
  }

  /** `pad0` of a two-character text. */
  lemma PadTwo(a: char, b: char)
    ensures Padded([a, b], 2) == [a, b] && Padded([a, b], 3) == ['0', a, b]
  {
    assert Zeros(1) == ['0'];
  }

  lemma NatTextFourDigits(v: nat)
    requires 1000 <= v < 10000
    ensures NatText(v) == [DigitChar(v / 1000), DigitChar(v / 100 % 10), DigitChar(v / 10 % 10), DigitChar(v % 10)]
  {
    NatTextThreeDigits(v / 10);
  }

  /** Where it is wrong, west: at -3:30 (Newfoundland) `Math.floor` gives
      -4 hours and the remainder by -240 minutes is the whole offset. */
  lemma ZoneAsWrittenWest()
    ensures ZoneAsWritten(Some(-210)) == "-04:-210"
    ensures ZoneText(Some(-210)) == "-03:30"
  {
    assert -210 / 60 == -4;
    assert JsRem(-210, -240) == Some(-210);
    NatTextDigits(4);
    NatTextDigits(3);
    NatTextTwoDigits(30);
    NatTextThreeDigits(210);
    PadOne('4');
    PadOne('3');
    PadTwo('3', '0');
    assert Padded("-210", 2) == "-210";
  }

  /** Where it is wrong, east: below one hour the hours are 0, the
      remainder by zero is NaN, and the sign comes out as `-`. */
  lemma ZoneAsWrittenEast()
    ensures ZoneAsWritten(Some(30)) == "-00:NaN"
  {
    assert 30 / 60 == 0;
    NatTextDigits(0);
    PadOne('0');
    assert Padded("NaN", 2) == "NaN";
  }

  lemma ZoneTextEast()
    ensures ZoneText(Some(30)) == "+00:30"
  {
    NatTextDigits(0);
    NatTextTwoDigits(30);
    PadOne('0');
    PadTwo('3', '0');
  }

  /** Neither mangled zone is accepted by the ISO 8601 front end of
      `Date.parse`, so `to8601` output carrying one does not parse back. */
  lemma MangledZonesRejected()
    ensures Iso8601.ParseZone("-04:-210").None? && Iso8601.ParseZone("-00:NaN").None?
  {
    assert "NaN"[0] == 'N';
  }

  /** The zone `format` prints: `Z` for a `WhenUTC` and for a local
      offset of zero, the text of when.js:122-127 otherwise, which is the
      `±HH:MM` text at the offsets where its arithmetic is right.  The
      local offset of a NaN date is NaN, which is not zero. */
  function Zone(view: View, tzoff: Option<int>): (z: string)
    ensures view == Utc || tzoff == Some(0) ==> z == "Z"
    ensures view == Local && tzoff != Some(0) ==> z == ZoneAsWritten(tzoff)
    ensures view == Local && tzoff.Some? && tzoff.value != 0 && HourAligned(tzoff.value) ==> z == ZoneText(tzoff)
  {
    if view == Local && tzoff != Some(0) then
      if tzoff.Some? && HourAligned(tzoff.value) then
        ZoneAsWrittenAgrees(tzoff.value);
        ZoneAsWritten(tzoff)
      else
        ZoneAsWritten(tzoff)
    else
      "Z"
  }

  // ---------------------------------------------------------------------
  // What format reads (when.js:119-120 and the getters it calls)
  // ---------------------------------------------------------------------

  /** The values `format` obtains from its receiver: the seven getters
      (`None` for NaN, months from 1), `getDay`'s replacement for the
      names, and the zone text computed before the loop. */
  datatype Reading = Reading(year: Option<int>, month: Option<int>, date: Option<int>,
                             hours: Option<int>, minutes: Option<int>, seconds: Option<int>,
                             ms: Option<int>, weekday: Option<int>, zone: string)

  /** `-this.getTimezoneOffset()`. */
  function LocalOffset(w: When, hostOffset: int): (r: Option<int>)
    ensures r.Some? <==> w.time.Some?
    ensures r.Some? ==> r.value == hostOffset
  {
    match TimezoneOffset(w, hostOffset)
    case None => None
    case Some(x) => Some(-x)
  }

  function Read(w: When, hostOffset: int): Reading
  {
    Reading(Get(w, hostOffset, Year), Get(w, hostOffset, Month), Get(w, hostOffset, Date),
            Get(w, hostOffset, Hours), Get(w, hostOffset, Minutes), Get(w, hostOffset, Seconds),
            Get(w, hostOffset, Milliseconds), DayOfWeek(w, hostOffset),
            Zone(w.view, LocalOffset(w, hostOffset)))
  }

  /** The four `toLocaleString` options the name directives use. */
  datatype NameKind = ShortWeekday | LongWeekday | ShortMonth | LongMonth

  /** The host's `toLocaleString('default', ...)` for one weekday (0 is
      Sunday) or one month (0 is January), in the receiver's view; an
      invalid date prints as `Invalid Date` (section 13.3.2 of ECMA-402). */
  function LocaleName(names: (NameKind, int) -> string, kind: NameKind, index: Option<int>): string
  {
    match index
    case None => "Invalid Date"
    case Some(i) => names(kind, i)
  }

  /** `getMonth() - 1`, the `Date` month the locale names are indexed by. */
  function MonthIndex(month: Option<int>): Option<int>
  {
    match month
    case None => None
    case Some(m) => Some(m - 1)
  }

  /** `(h + 11) % 12 + 1`: the hour on a 12-hour clock, NaN for NaN. */
  function TwelveHour(h: Option<int>): (r: Option<int>)
    ensures r.Some? <==> h.Some?
  {
    match h
    case None => None
    case Some(x) => Some(JsRem(x + 11, 12).value + 1)
  }

  /** The replacement of one directive (the `switch` of when.js:132-215).
      `%w` calls `this.getDay`, which `When` does not define, and throws;
      a directive the `switch` does not list is left as it is. */
  function Render(tok: string, r: Reading, names: (NameKind, int) -> string): (out: Result<string, Error>)
    ensures out.Failure? <==> tok == "%w"
    ensures out.Failure? ==> out.error == NotAFunction("getDay")
  {
    if |tok| == 2 && tok[0] == '%' then
      assert tok == ['%', tok[1]];
      RenderPlain(tok[1], r, names)
    else if |tok| == 3 && tok[0] == '%' && tok[1] == '-' then
      Success(RenderDashed(tok[2], r, names))
    else Success(tok)
  }

  /** The letters of the numeric directives `pad0` pads. */
  predicate IsNumeric(c: char)
  {
    c == 'd' || c == 'f' || c == 'H' || c == 'I' || c == 'M' || c == 'm' || c == 'S' || c == 'y'
  }

  /** The numeric letters with a `-` form that leaves out `pad0`. */
  predicate IsUnpadded(c: char)
  {
    c == 'd' || c == 'H' || c == 'I' || c == 'M' || c == 'm' || c == 'S'
  }

  /** The getter value a numeric directive letter prints. */
  function Numeric(c: char, r: Reading): Option<int>
    requires IsNumeric(c)
  {
    match c
    case 'd' => r.date
    case 'f' => r.ms
    case 'H' => r.hours
    case 'I' => TwelveHour(r.hours)
    case 'M' => r.minutes
    case 'm' => r.month
    case 'S' => r.seconds
    case 'y' => r.year
  }

  /** The `pad0` width of a numeric directive letter. */
  function Width(c: char): int
  {
    if c == 'f' then 3 else 2
  }

  /** The cases `%a` to `%%` of the `switch`: the eight numeric ones
      (`%d %f %H %I %M %m %S %y`) are `pad0` of a getter value. */
  function RenderPlain(c: char, r: Reading, names: (NameKind, int) -> string): (out: Result<string, Error>)
    ensures out.Failure? <==> c == 'w'
    ensures out.Failure? ==> out.error == NotAFunction("getDay")
  {
    match c
    case 'a' => Success(LocaleName(names, ShortWeekday, r.weekday))
    case 'A' => Success(LocaleName(names, LongWeekday, r.weekday))
    case 'b' => Success(LocaleName(names, ShortMonth, MonthIndex(r.month)))
    case 'B' => Success(LocaleName(names, LongMonth, MonthIndex(r.month)))
    case 'w' => Failure(NotAFunction("getDay"))
    case 'Y' => Success(NumberText(r.year))
    case 'z' => Success(r.zone)
    case '%' => Success("%")
    case _ =>
      if IsNumeric(c) then Success(Padded(NumberText(Numeric(c, r)), Width(c)))
      else Success(['%', c])
  }

  /** The cases `%-d` to `%-z` of the `switch`: `%-f` strips the trailing
      zeros of `%f`, the other numeric ones skip `pad0`. */
  function RenderDashed(c: char, r: Reading, names: (NameKind, int) -> string): string
  {
    match c
    case 'f' => StripTrailingZeros(Padded(NumberText(r.ms), 3))
    case 'z' => RemoveFirst(r.zone, ':')
    case _ =>
      if IsUnpadded(c) then NumberText(Numeric(c, r))
      else ['%', '-', c]
  }

  /** The loop of when.js:130-216 and the join of when.js:217: every
      directive, left to right, is replaced by its rendering; the first
      one that throws ends the call. */
  function FormatParts(parts: seq<string>, r: Reading, names: (NameKind, int) -> string): Result<string, Error>
    requires |parts| % 2 == 1
    decreases |parts|
  {
    if |parts| == 1 then Success(parts[0])
    else
      match Render(parts[1], r, names)
      case Failure(e) => Failure(e)
      case Success(t) =>
        match FormatParts(parts[2..], r, names)
        case Failure(e) => Failure(e)
        case Success(u) => Success(parts[0] + t + u)
  }

  /** `w.format(fmt)`. */
  function Format(w: When, hostOffset: int, names: (NameKind, int) -> string, fmt: string): Result<string, Error>
  {
    FormatParts(Split(fmt), Read(w, hostOffset), names)
  }

  const Iso8601Layout: string := "%Y-%m-%dT%H:%M:%S.%f%z"
  const Rfc822Layout: string := "%b %d %Y %H:%M:%S.%f %-z"

  /** `w.to8601()`. */
  function To8601(w: When, hostOffset: int, names: (NameKind, int) -> string): Result<string, Error>
  {
    Format(w, hostOffset, names, Iso8601Layout)
  }

  /** `w.to822()`. */
  function To822(w: When, hostOffset: int, names: (NameKind, int) -> string): Result<string, Error>
  {
    Format(w, hostOffset, names, Rfc822Layout)
  }

  // ---------------------------------------------------------------------
  // Properties of the directives
  // ---------------------------------------------------------------------

  /** What the getters of a valid date return: every field present and
      in the range its getter promises. */
  predicate Plausible(r: Reading)
  {
    && r.year.Some? && r.month.Some? && r.date.Some? && r.hours.Some?
    && r.minutes.Some? && r.seconds.Some? && r.ms.Some? && r.weekday.Some?
    && GetterRange(Month, r.month.value) && GetterRange(Date, r.date.value)
    && GetterRange(Hours, r.hours.value) && GetterRange(Minutes, r.minutes.value)
    && GetterRange(Seconds, r.seconds.value) && GetterRange(Milliseconds, r.ms.value)
    && 0 <= r.weekday.value < 7
  }

  /** A valid date reads plausibly; a NaN date reads NaN everywhere. */
  lemma ReadPlausible(w: When, hostOffset: int)
    ensures w.time.Some? ==> Plausible(Read(w, hostOffset))
    ensures w.time.None? ==> Read(w, hostOffset) == Reading(None, None, None, None, None, None, None, None, Zone(w.view, None))
  {
  }

  /** Rendered text of exactly `n` digits reading as `v`. */
  predicate Shows(out: Result<string, Error>, n: nat, v: int)
  {
    out.Success? && |out.value| == n && AllDigits(out.value) && DigitsValue(out.value) == v
  }

  /** Every numeric getter other than the year gives a value the width
      of its directive can hold. */
  lemma NumericFits(r: Reading, c: char)
    requires Plausible(r) && IsNumeric(c) && c != 'y'
    ensures 0 <= Numeric(c, r).value < Pow10(Width(c))
  {
    assert Pow10(2) == 100 && Pow10(3) == 1000;
  }

  /** The numeric directives are `pad0` of their getter value, and their
      `-` forms the bare decimal text. */
  lemma NumericForms(r: Reading, names: (NameKind, int) -> string, c: char)
    requires IsNumeric(c)
    ensures Render(['%', c], r, names) == Success(Padded(NumberText(Numeric(c, r)), Width(c)))
    ensures IsUnpadded(c) ==> Render(['%', '-', c], r, names) == Success(NumberText(Numeric(c, r)))
  {
  }

  /** Padding a decimal text adds zeros in front and nothing else. */
  lemma PadsWithZeros(v: nat, n: int)
    requires 2 <= n
    ensures exists k: nat :: Padded(NatText(v), n) == Zeros(k) + NatText(v)
  {
    var t := NatText(v);
    var k: nat := if |t| < n then n - |t| else 0;
    assert Padded(t, n) == Zeros(k) + t;
  }

  /** The padded numeric directives other than `%y` give fixed-width
      digits that read as the getter's value. */
  lemma PaddedDirective(r: Reading, names: (NameKind, int) -> string, c: char)
    requires Plausible(r) && IsNumeric(c) && c != 'y'
    ensures Shows(Render(['%', c], r, names), Width(c), Numeric(c, r).value)
  {
    NumericForms(r, names, c);
    NumericFits(r, c);
    PadNumber(Numeric(c, r).value, Width(c));
  }

  /** The `-` forms are the padded forms without their leading zeros:
      the shortest decimal text of the same value. */
  lemma UnpaddedDirective(r: Reading, names: (NameKind, int) -> string, c: char)
    requires Plausible(r) && IsUnpadded(c)
    ensures Render(['%', c], r, names).Success? && Render(['%', '-', c], r, names).Success?
    ensures exists k: nat :: Render(['%', c], r, names).value == Zeros(k) + Render(['%', '-', c], r, names).value
    ensures var t := Render(['%', '-', c], r, names).value;
            1 <= |t| && AllDigits(t) && DigitsValue(t) == Numeric(c, r).value && (1 < |t| ==> t[0] != '0')
  {
    NumericForms(r, names, c);
    NumericFits(r, c);
    PadsWithZeros(Numeric(c, r).value, 2);
  }

  /** `%I` is the hour on a 12-hour clock: 12, 1, ..., 11, 12, 1, ... */
  lemma TwelveHourClock(r: Reading)
    requires Plausible(r)
    ensures 1 <= TwelveHour(r.hours).value <= 12
    ensures TwelveHour(r.hours).value % 12 == r.hours.value % 12
  {
  }

  /** What `%f` and `%-f` print. */
  lemma FractionRenders(r: Reading, names: (NameKind, int) -> string)
    ensures Render("%f", r, names) == Success(Padded(NumberText(r.ms), 3))
    ensures Render("%-f", r, names) == Success(StripTrailingZeros(Padded(NumberText(r.ms), 3)))
  {
    NumericForms(r, names, 'f');
    var g := "%-f";
    assert |g| == 3 && g[0] == '%' && g[1] == '-' && g[2] == 'f';
  }

  /** `%-f` is `%f` without its trailing zeros. */
  lemma FractionDirective(r: Reading, names: (NameKind, int) -> string)
    ensures Render("%f", r, names).Success? && Render("%-f", r, names).Success?
    ensures ZerosTrimmed(Render("%-f", r, names).value, Render("%f", r, names).value)
  {
    FractionRenders(r, names);
  }

  /** The three digits `%f` prints for a number of milliseconds from 100
      to 999. */
  lemma ThreeDigitFraction(r: Reading, names: (NameKind, int) -> string, a: char, b: char, c: char)
    requires r.ms.Some? && 100 <= r.ms.value < 1000
    requires [a, b, c] == [DigitChar(r.ms.value / 100), DigitChar(r.ms.value / 10 % 10), DigitChar(r.ms.value % 10)]
    ensures Render("%-f", r, names) == Success(StripTrailingZeros([a, b, c]))
  {
    FractionRenders(r, names);
    NatTextThreeDigits(r.ms.value);
    assert Zeros(0) == [];
    assert Padded([a, b, c], 3) == [a, b, c];
  }

  /** `%-f` at half a second. */
  lemma FractionExample(names: (NameKind, int) -> string, r: Reading)
    ensures Render("%-f", r.(ms := Some(500)), names) == Success("5")
  {
    ThreeDigitFraction(r.(ms := Some(500)), names, '5', '0', '0');
    assert StripTrailingZeros("500") == "5";
  }

  /** `%-f` at a quarter second. */
  lemma FractionQuarter(names: (NameKind, int) -> string, r: Reading)
    ensures Render("%-f", r.(ms := Some(250)), names) == Success("25")
  {
    ThreeDigitFraction(r.(ms := Some(250)), names, '2', '5', '0');
    assert StripTrailingZeros("250") == "25";
  }

  /** `%-f` on a whole second is empty. */
  lemma FractionWhole(names: (NameKind, int) -> string, r: Reading)
    ensures Render("%-f", r.(ms := Some(0)), names) == Success("")
  {
    FractionRenders(r.(ms := Some(0)), names);
    NatTextDigits(0);
    PadOne('0');
    assert StripTrailingZeros("000") == "";
  }

  /** `%-f` keeps leading zeros: 5 ms is `005`. */
  lemma FractionLeadingZeros(names: (NameKind, int) -> string, r: Reading)
    ensures Render("%-f", r.(ms := Some(5)), names) == Success("005")
  {
    FractionRenders(r.(ms := Some(5)), names);
    NatTextDigits(5);
    PadOne('5');
  }

  /** `%I` at midnight is 12 and at 13 o'clock 01. */
  lemma TwelveHourMidnight(names: (NameKind, int) -> string, r: Reading)
    ensures Render("%I", r.(hours := Some(0)), names) == Success("12")
  {
    assert JsRem(11, 12) == Some(11);
    NatTextTwoDigits(12);
    PadTwo('1', '2');
  }

  lemma TwelveHourAfternoon(names: (NameKind, int) -> string, r: Reading)
    ensures Render("%I", r.(hours := Some(13)), names) == Success("01")
  {
    assert JsRem(24, 12) == Some(0);
    NatTextDigits(1);
    PadOne('1');
  }

  /** `pad0` never truncates, so `%y` prints a year of two or more
      digits whole. */
  lemma YearNotTruncated(r: Reading, names: (NameKind, int) -> string)
    requires r.year.Some? && 10 <= r.year.value
    ensures Render("%y", r, names) == Success(NatText(r.year.value))
  {
    NumericForms(r, names, 'y');
  }

  lemma YearExample(names: (NameKind, int) -> string, r: Reading)
    ensures Render("%y", r.(year := Some(2021)), names) == Success("2021")
  {
    YearNotTruncated(r.(year := Some(2021)), names);
    NatTextFourDigits(2021);
  }

  /** `%z` is the zone text and `%-z` the same without its colon; a
      `WhenUTC` or a host at UTC gives `Z` for both. */
  lemma ZoneDirectives(w: When, hostOffset: int, names: (NameKind, int) -> string)
    ensures Render("%z", Read(w, hostOffset), names) == Success(Zone(w.view, LocalOffset(w, hostOffset)))
    ensures w.view == Utc || (w.time.Some? && hostOffset == 0) ==>
              Render("%z", Read(w, hostOffset), names) == Success("Z") && Render("%-z", Read(w, hostOffset), names) == Success("Z")
  {
    ZoneRenders(Read(w, hostOffset), names);
    if w.view == Utc || (w.time.Some? && hostOffset == 0) {
      assert Read(w, hostOffset).zone == "Z";
      assert IndexOf("Z", ':') == -1;
    }
  }

  lemma ZoneRenders(r: Reading, names: (NameKind, int) -> string)
    ensures Render("%z", r, names) == Success(r.zone)
    ensures Render("%-z", r, names) == Success(RemoveFirst(r.zone, ':'))
  {
  }

  /** `%-z` of an offset text drops the colon between hours and minutes;
      a local `When` prints that at the offsets where the zone arithmetic
      is right. */
  lemma CompactZone(o: int)
    requires o != 0
    ensures var sign := [if o > 0 then '+' else '-'];
            RemoveFirst(ZoneText(Some(o)), ':') == sign + Padded(NatText(Abs(o) / 60), 2) + Padded(NatText(Abs(o) % 60), 2)
    ensures HourAligned(o) ==> RemoveFirst(Zone(Local, Some(o)), ':') == RemoveFirst(ZoneText(Some(o)), ':')
  {
    var sign := [if o > 0 then '+' else '-'];
    var hh := Padded(NatText(Abs(o) / 60), 2);
    var mm := Padded(NatText(Abs(o) % 60), 2);
    PaddedHasNoColon(Abs(o) / 60);
    assert ':' !in sign + hh;
    RemoveFirstAt(sign + hh, ':', mm);
    ZoneTextParts(o);
  }

  /** As written, `%-z` on a host at -3:30 prints `-04-210`. */
  lemma CompactZoneAsWritten()
    ensures RemoveFirst(Zone(Local, Some(-210)), ':') == "-04" + "-210"
  {
    ZoneAsWrittenWest();
    WestZoneColon();
    RemoveFirstAt("-04", ':', "-210");
  }

  lemma WestZoneColon()
    ensures "-04:-210" == "-04" + [':'] + "-210" && ':' !in "-04"
  {
  }

  /** A padded number holds digits only, so no colon. */
  lemma PaddedHasNoColon(v: nat)
    ensures ':' !in Padded(NatText(v), 2)
  {
    var hh := Padded(NatText(v), 2);
    PadsWithZeros(v, 2);
    var k: nat :| hh == Zeros(k) + NatText(v);
    assert forall i :: 0 <= i < |hh| ==> IsDigit(hh[i]);
  }

  /** The zone text of an offset is its sign, hours, a colon and minutes. */
  lemma ZoneTextParts(o: int)
    ensures ZoneText(Some(o)) == [if o > 0 then '+' else '-'] + Padded(NatText(Abs(o) / 60), 2) + [':']
                                 + Padded(NatText(Abs(o) % 60), 2)
  {
  }

  /** The letters after `%` that the `switch` lists. */
  const PlainLetters: string := "aAbBdfHIMmSwyYz%"

  /** The letters after `%-` that the `switch` lists. */
  const DashedLetters: string := "dfHIMmSz"

  /** `%%` is a percent sign, and a directive `format` does not know is
      left in place, dashed or not (`%-` itself is the plain directive of
      the letter `-`). */
  lemma OtherDirectives(r: Reading, names: (NameKind, int) -> string, c: char)
    ensures Render("%%", r, names) == Success("%")
    ensures c !in PlainLetters ==> Render(['%', c], r, names) == Success(['%', c])
    ensures c !in DashedLetters ==> Render(['%', '-', c], r, names) == Success(['%', '-', c])
  {
  }

  /** On a NaN date every number prints as `NaN` and every name as
      `Invalid Date`. */
  lemma NaNDirectives(w: When, hostOffset: int, names: (NameKind, int) -> string)
    requires w.time.None?
    ensures Render("%d", Read(w, hostOffset), names) == Success("NaN")
    ensures Render("%-I", Read(w, hostOffset), names) == Success("NaN")
    ensures Render("%f", Read(w, hostOffset), names) == Success("NaN")
    ensures Render("%-f", Read(w, hostOffset), names) == Success("NaN")
    ensures Render("%Y", Read(w, hostOffset), names) == Success("NaN")
    ensures Render("%b", Read(w, hostOffset), names) == Success("Invalid Date")
    ensures Render("%A", Read(w, hostOffset), names) == Success("Invalid Date")
  {
    ReadPlausible(w, hostOffset);
    NaNNumbers(Read(w, hostOffset), names);
    NaNPaddedNumbers(Read(w, hostOffset), names);
    NaNNames(Read(w, hostOffset), names);
  }

  lemma NaNNumbers(r: Reading, names: (NameKind, int) -> string)
    requires r.hours.None? && r.ms.None? && r.year.None?
    ensures Render("%-I", r, names) == Success("NaN")
    ensures Render("%-f", r, names) == Success("NaN")
    ensures Render("%Y", r, names) == Success("NaN")
  {
    assert StripTrailingZeros("NaN") == "NaN";
  }

  lemma NaNPaddedNumbers(r: Reading, names: (NameKind, int) -> string)
    requires r.date.None? && r.ms.None?
    ensures Render("%d", r, names) == Success("NaN")
    ensures Render("%f", r, names) == Success("NaN")
  {
  }

  lemma NaNNames(r: Reading, names: (NameKind, int) -> string)
    requires r.month.None? && r.weekday.None?
    ensures Render("%b", r, names) == Success("Invalid Date")
    ensures Render("%A", r, names) == Success("Invalid Date")
  {
  }

  // ---------------------------------------------------------------------
  // Properties of format
  // ---------------------------------------------------------------------

  /** `format` throws exactly when the layout holds the directive `%w`,
      and then with the `TypeError` of the missing `getDay`. */
  lemma {:induction false} FormatPartsFails(parts: seq<string>, r: Reading, names: (NameKind, int) -> string)
    requires |parts| % 2 == 1
    ensures FormatParts(parts, r, names).Failure? <==> exists i :: 0 <= i < |parts| && i % 2 == 1 && parts[i] == "%w"
    ensures FormatParts(parts, r, names).Failure? ==> FormatParts(parts, r, names).error == NotAFunction("getDay")
    decreases |parts|
  {
    if |parts| > 1 {
      ParityPlusTwo(|parts[2..]|);
      FormatPartsFails(parts[2..], r, names);
      DirectiveInTail(parts, "%w");
    }
  }

  /** A directive sits at an odd position of a layout's pieces exactly
      when it is the first directive or sits at an odd position of the
      pieces after it. */
  lemma DirectiveInTail(parts: seq<string>, d: string)
    requires 3 <= |parts|
    ensures (exists i :: 0 <= i < |parts| && i % 2 == 1 && parts[i] == d) <==>
            parts[1] == d || exists i :: 0 <= i < |parts[2..]| && i % 2 == 1 && parts[2..][i] == d
  {
    var tail := parts[2..];
    if exists i :: 0 <= i < |tail| && i % 2 == 1 && tail[i] == d {
      var i :| 0 <= i < |tail| && i % 2 == 1 && tail[i] == d;
      ParityPlusTwo(i);
      assert parts[i + 2] == d;
    }
    if exists i :: 0 <= i < |parts| && i % 2 == 1 && parts[i] == d {
      var i :| 0 <= i < |parts| && i % 2 == 1 && parts[i] == d;
      if i > 1 {
        ParityPlusTwo(i - 2);
        assert tail[i - 2] == d;
      }
    }
  }

  lemma FormatFails(w: When, hostOffset: int, names: (NameKind, int) -> string, fmt: string)
    ensures Format(w, hostOffset, names, fmt).Failure? <==>
              exists i :: 0 <= i < |Split(fmt)| && i % 2 == 1 && Split(fmt)[i] == "%w"
    ensures Format(w, hostOffset, names, fmt).Failure? ==>
              Format(w, hostOffset, names, fmt).error == NotAFunction("getDay")
  {
    assert Format(w, hostOffset, names, fmt) == FormatParts(Split(fmt), Read(w, hostOffset), names);
    FormatPartsFails(Split(fmt), Read(w, hostOffset), names);
  }

  /** A layout with no directive in it comes out unchanged. */
  lemma FormatInert(w: When, hostOffset: int, names: (NameKind, int) -> string, fmt: string)
    requires Inert(fmt, true)
    ensures Format(w, hostOffset, names, fmt) == Success(fmt)
  {
    assert WellSplit([fmt]);
    JoinTwo(fmt, [], []);
    SplitUnique([fmt]);
  }

  /** The pieces of the `to8601` layout. */
  const IsoParts: seq<string> := ["", "%Y", "-", "%m", "-", "%d", "T", "%H", ":", "%M", ":", "%S", ".", "%f", "", "%z", ""]

  const IsoLiterals: seq<string> := ["", "-", "-", "T", ":", ":", ".", "", ""]
  const IsoDirectives: seq<string> := ["%Y", "%m", "%d", "%H", "%M", "%S", "%f", "%z"]

  lemma IsoPiecesPlain()
    ensures LayoutPieces(IsoLiterals, IsoDirectives)
  {
  }

  lemma IsoPiecesInterleave()
    ensures Interleave(IsoLiterals, IsoDirectives) == IsoParts
  {
    var l, d := IsoLiterals, IsoDirectives;
    assert Interleave(l[8..], d[8..]) == [""];
    assert Interleave(l[7..], d[7..]) == ["", "%z"] + [""];
    assert Interleave(l[6..], d[6..]) == [".", "%f"] + Interleave(l[7..], d[7..]);
    assert Interleave(l[5..], d[5..]) == [":", "%S"] + Interleave(l[6..], d[6..]);
    assert Interleave(l[4..], d[4..]) == [":", "%M"] + Interleave(l[5..], d[5..]);
    assert Interleave(l[3..], d[3..]) == ["T", "%H"] + Interleave(l[4..], d[4..]);
    assert Interleave(l[2..], d[2..]) == ["-", "%d"] + Interleave(l[3..], d[3..]);
    assert Interleave(l[1..], d[1..]) == ["-", "%m"] + Interleave(l[2..], d[2..]);
    assert Interleave(l, d) == ["", "%Y"] + Interleave(l[1..], d[1..]);
    IsoPartsNested();
  }

  lemma IsoPiecesSpell()
    ensures Layout(IsoLiterals, IsoDirectives) == Iso8601Layout
  {
    var l, d := IsoLiterals, IsoDirectives;
    assert Layout(l[8..], d[8..]) == "";
    assert Layout(l[7..], d[7..]) == "" + "%z" + "";
    assert Layout(l[6..], d[6..]) == "." + "%f" + Layout(l[7..], d[7..]);
    assert Layout(l[5..], d[5..]) == ":" + "%S" + Layout(l[6..], d[6..]);
    assert Layout(l[4..], d[4..]) == ":" + "%M" + Layout(l[5..], d[5..]);
    assert Layout(l[3..], d[3..]) == "T" + "%H" + Layout(l[4..], d[4..]);
    assert Layout(l[2..], d[2..]) == "-" + "%d" + Layout(l[3..], d[3..]);
    assert Layout(l[1..], d[1..]) == "-" + "%m" + Layout(l[2..], d[2..]);
    assert Layout(l, d) == "" + "%Y" + Layout(l[1..], d[1..]);
    IsoLayoutConcat();
  }

  lemma IsoLayoutConcat()
    ensures "" + "%Y" + ("-" + "%m" + ("-" + "%d" + ("T" + "%H" + (":" + "%M" + (":" + "%S"
      + ("." + "%f" + ("" + "%z" + ""))))))) == Iso8601Layout
  {
  }

  lemma IsoLayoutSplits()
    ensures Split(Iso8601Layout) == IsoParts
  {
    IsoPiecesPlain();
    IsoPiecesInterleave();
    IsoPiecesSpell();
    LayoutSplits(IsoLiterals, IsoDirectives);
  }

  /** One step of the loop: a literal, a directive that renders, and
      the rest. */
  lemma FormatPartsStep(parts: seq<string>, r: Reading, names: (NameKind, int) -> string, t: string, u: string)
    requires |parts| % 2 == 1 && 3 <= |parts|
    requires Render(parts[1], r, names) == Success(t) && FormatParts(parts[2..], r, names) == Success(u)
    ensures FormatParts(parts, r, names) == Success(parts[0] + t + u)
  {
  }

  /** Moving two places keeps the parity of a position. */
  lemma ParityPlusTwo(n: int)
    ensures (n + 2) % 2 == n % 2
  {
  }

  /** Formatting a literal and a directive in front of the rest. */
  lemma FormatPartsCons(lit: string, d: string, rest: seq<string>, r: Reading, names: (NameKind, int) -> string, t: string, u: string)
    requires |rest| % 2 == 1
    requires Render(d, r, names) == Success(t) && FormatParts(rest, r, names) == Success(u)
    ensures FormatParts([lit, d] + rest, r, names) == Success(lit + t + u)
  {
    var p := [lit, d] + rest;
    assert |p| == |rest| + 2 && p[0] == lit && p[1] == d && p[2..] == rest;
    ParityPlusTwo(|rest|);
    FormatPartsStep(p, r, names, t, u);
  }

  /** Formatting a directive at the very start, before the rest. */
  lemma FormatPartsFront(d: string, rest: seq<string>, r: Reading, names: (NameKind, int) -> string, t: string, u: string)
    requires |rest| % 2 == 1
    requires Render(d, r, names) == Success(t) && FormatParts(rest, r, names) == Success(u)
    ensures FormatParts(["", d] + rest, r, names) == Success(t + u)
  {
    FormatPartsCons("", d, rest, r, names, t, u);
    EmptyPrefix(t, u);
  }

  lemma EmptyPrefix(t: string, u: string)
    ensures "" + t + u == t + u
  {
  }

  /** What `to8601` prints: the year as it is, the other numbers padded
      to two digits (three for the milliseconds), then the zone. */
  function IsoString(r: Reading): string
  {
    NumberText(r.year) + ("-" + Padded(NumberText(r.month), 2) + ("-" + Padded(NumberText(r.date), 2)
    + ("T" + Padded(NumberText(r.hours), 2) + (":" + Padded(NumberText(r.minutes), 2)
    + (":" + Padded(NumberText(r.seconds), 2) + ("." + Padded(NumberText(r.ms), 3) + r.zone))))))
  }

  /** The renderings of the directives of the ISO 8601 layout. */
  lemma IsoDateRenders(r: Reading, names: (NameKind, int) -> string)
    ensures Render("%Y", r, names) == Success(NumberText(r.year))
    ensures Render("%m", r, names) == Success(Padded(NumberText(r.month), 2))
    ensures Render("%d", r, names) == Success(Padded(NumberText(r.date), 2))
    ensures Render("%z", r, names) == Success(r.zone)
  {
    NumericForms(r, names, 'd');
    NumericForms(r, names, 'm');
    ZoneRenders(r, names);
  }

  lemma IsoTimeRenders(r: Reading, names: (NameKind, int) -> string)
    ensures Render("%H", r, names) == Success(Padded(NumberText(r.hours), 2))
    ensures Render("%M", r, names) == Success(Padded(NumberText(r.minutes), 2))
    ensures Render("%S", r, names) == Success(Padded(NumberText(r.seconds), 2))
    ensures Render("%f", r, names) == Success(Padded(NumberText(r.ms), 3))
  {
    NumericForms(r, names, 'H');
    NumericForms(r, names, 'M');
    NumericForms(r, names, 'S');
    NumericForms(r, names, 'f');
  }

  /** The zone at the end of the ISO 8601 layout. */
  lemma FormatIsoZone(r: Reading, names: (NameKind, int) -> string)
    ensures FormatParts(["", "%z"] + [""], r, names) == Success(r.zone)
  {
    IsoDateRenders(r, names);
    FormatPartsFront("%z", [""], r, names, r.zone, "");
    assert r.zone + "" == r.zone;
  }

  /** The minutes, seconds and milliseconds of the ISO 8601 layout. */
  lemma FormatIsoClock(r: Reading, names: (NameKind, int) -> string)
    ensures FormatParts([":", "%M"] + ([":", "%S"] + ([".", "%f"] + (["", "%z"] + [""]))), r, names)
         == Success(":" + Padded(NumberText(r.minutes), 2) + (":" + Padded(NumberText(r.seconds), 2)
                    + ("." + Padded(NumberText(r.ms), 3) + r.zone)))
  {
    IsoTimeRenders(r, names);
    FormatIsoZone(r, names);
    var t7 := ["", "%z"] + [""];
    var t6 := [".", "%f"] + t7;
    var t5 := [":", "%S"] + t6;
    var u6 := "." + Padded(NumberText(r.ms), 3) + r.zone;
    var u5 := ":" + Padded(NumberText(r.seconds), 2) + u6;
    FormatPartsCons(".", "%f", t7, r, names, Padded(NumberText(r.ms), 3), r.zone);
    FormatPartsCons(":", "%S", t6, r, names, Padded(NumberText(r.seconds), 2), u6);
    FormatPartsCons(":", "%M", t5, r, names, Padded(NumberText(r.minutes), 2), u5);
  }

  /** The hours onwards of the ISO 8601 layout. */
  lemma FormatIsoTime(r: Reading, names: (NameKind, int) -> string)
    ensures FormatParts(["T", "%H"] + ([":", "%M"] + ([":", "%S"] + ([".", "%f"] + (["", "%z"] + [""])))), r, names)
         == Success("T" + Padded(NumberText(r.hours), 2) + (":" + Padded(NumberText(r.minutes), 2)
                    + (":" + Padded(NumberText(r.seconds), 2) + ("." + Padded(NumberText(r.ms), 3) + r.zone))))
  {
    IsoTimeRenders(r, names);
    FormatIsoClock(r, names);
    var t4 := [":", "%M"] + ([":", "%S"] + ([".", "%f"] + (["", "%z"] + [""])));
    var u4 := ":" + Padded(NumberText(r.minutes), 2) + (":" + Padded(NumberText(r.seconds), 2)
              + ("." + Padded(NumberText(r.ms), 3) + r.zone));
    FormatPartsCons("T", "%H", t4, r, names, Padded(NumberText(r.hours), 2), u4);
  }

  /** The month onwards of the ISO 8601 layout. */
  lemma FormatIsoMonth(r: Reading, names: (NameKind, int) -> string)
    ensures FormatParts(["-", "%m"] + (["-", "%d"] + (["T", "%H"] +
                        ([":", "%M"] + ([":", "%S"] + ([".", "%f"] + (["", "%z"] + [""])))))), r, names)
         == Success("-" + Padded(NumberText(r.month), 2) + ("-" + Padded(NumberText(r.date), 2)
                    + ("T" + Padded(NumberText(r.hours), 2) + (":" + Padded(NumberText(r.minutes), 2)
                    + (":" + Padded(NumberText(r.seconds), 2) + ("." + Padded(NumberText(r.ms), 3) + r.zone))))))
  {
    IsoDateRenders(r, names);
    FormatIsoTime(r, names);
    var t3 := ["T", "%H"] + ([":", "%M"] + ([":", "%S"] + ([".", "%f"] + (["", "%z"] + [""]))));
    var t2 := ["-", "%d"] + t3;
    var u3 := "T" + Padded(NumberText(r.hours), 2) + (":" + Padded(NumberText(r.minutes), 2)
              + (":" + Padded(NumberText(r.seconds), 2) + ("." + Padded(NumberText(r.ms), 3) + r.zone)));
    var u2 := "-" + Padded(NumberText(r.date), 2) + u3;
    FormatPartsCons("-", "%d", t3, r, names, Padded(NumberText(r.date), 2), u3);
    FormatPartsCons("-", "%m", t2, r, names, Padded(NumberText(r.month), 2), u2);
  }

  lemma FormatIsoParts(r: Reading, names: (NameKind, int) -> string)
    ensures FormatParts(IsoParts, r, names) == Success(IsoString(r))
  {
    IsoDateRenders(r, names);
    FormatIsoMonth(r, names);
    var t1 := ["-", "%m"] + (["-", "%d"] + (["T", "%H"] +
              ([":", "%M"] + ([":", "%S"] + ([".", "%f"] + (["", "%z"] + [""]))))));
    var u1 := "-" + Padded(NumberText(r.month), 2) + ("-" + Padded(NumberText(r.date), 2)
              + ("T" + Padded(NumberText(r.hours), 2) + (":" + Padded(NumberText(r.minutes), 2)
              + (":" + Padded(NumberText(r.seconds), 2) + ("." + Padded(NumberText(r.ms), 3) + r.zone)))));
    FormatPartsFront("%Y", t1, r, names, NumberText(r.year), u1);
    IsoPartsNested();
  }

  lemma IsoPartsNested()
    ensures IsoParts == ["", "%Y"] + (["-", "%m"] + (["-", "%d"] + (["T", "%H"] +
                        ([":", "%M"] + ([":", "%S"] + ([".", "%f"] + (["", "%z"] + [""])))))))
  {
  }

  /** `to8601()` of any date, valid or NaN. */
  lemma To8601Text(w: When, hostOffset: int, names: (NameKind, int) -> string)
    ensures To8601(w, hostOffset, names) == Success(IsoString(Read(w, hostOffset)))
  {
    IsoLayoutSplits();
    FormatIsoParts(Read(w, hostOffset), names);
  }

  // ---------------------------------------------------------------------
  // to822
  // ---------------------------------------------------------------------

  /** The pieces of the `to822` layout. */
  const RfcParts: seq<string> := ["", "%b", " ", "%d", " ", "%Y", " ", "%H", ":", "%M", ":", "%S", ".", "%f", " ", "%-z", ""]
  const RfcLiterals: seq<string> := ["", " ", " ", " ", ":", ":", ".", " ", ""]
  const RfcDirectives: seq<string> := ["%b", "%d", "%Y", "%H", "%M", "%S", "%f", "%-z"]

  lemma RfcPiecesPlain()
    ensures LayoutPieces(RfcLiterals, RfcDirectives)
  {
  }

  lemma RfcPartsNested()
    ensures RfcParts == ["", "%b"] + ([" ", "%d"] + ([" ", "%Y"] + ([" ", "%H"] +
                        ([":", "%M"] + ([":", "%S"] + ([".", "%f"] + ([" ", "%-z"] + [""])))))))
  {
  }

  lemma RfcPiecesInterleave()
    ensures Interleave(RfcLiterals, RfcDirectives) == RfcParts
  {
    var l, d := RfcLiterals, RfcDirectives;
    assert Interleave(l[8..], d[8..]) == [""];
    assert Interleave(l[7..], d[7..]) == [" ", "%-z"] + [""];
    assert Interleave(l[6..], d[6..]) == [".", "%f"] + Interleave(l[7..], d[7..]);
    assert Interleave(l[5..], d[5..]) == [":", "%S"] + Interleave(l[6..], d[6..]);
    assert Interleave(l[4..], d[4..]) == [":", "%M"] + Interleave(l[5..], d[5..]);
    assert Interleave(l[3..], d[3..]) == [" ", "%H"] + Interleave(l[4..], d[4..]);
    assert Interleave(l[2..], d[2..]) == [" ", "%Y"] + Interleave(l[3..], d[3..]);
    assert Interleave(l[1..], d[1..]) == [" ", "%d"] + Interleave(l[2..], d[2..]);
    assert Interleave(l, d) == ["", "%b"] + Interleave(l[1..], d[1..]);
    RfcPartsNested();
  }

  lemma RfcLayoutConcat()
    ensures "" + "%b" + (" " + "%d" + (" " + "%Y" + (" " + "%H" + (":" + "%M" + (":" + "%S"
      + ("." + "%f" + (" " + "%-z" + ""))))))) == Rfc822Layout
  {
  }

  lemma RfcPiecesSpell()
    ensures Layout(RfcLiterals, RfcDirectives) == Rfc822Layout
  {
    var l, d := RfcLiterals, RfcDirectives;
    assert Layout(l[8..], d[8..]) == "";
    assert Layout(l[7..], d[7..]) == " " + "%-z" + "";
    assert Layout(l[6..], d[6..]) == "." + "%f" + Layout(l[7..], d[7..]);
    assert Layout(l[5..], d[5..]) == ":" + "%S" + Layout(l[6..], d[6..]);
    assert Layout(l[4..], d[4..]) == ":" + "%M" + Layout(l[5..], d[5..]);
    assert Layout(l[3..], d[3..]) == " " + "%H" + Layout(l[4..], d[4..]);
    assert Layout(l[2..], d[2..]) == " " + "%Y" + Layout(l[3..], d[3..]);
    assert Layout(l[1..], d[1..]) == " " + "%d" + Layout(l[2..], d[2..]);
    assert Layout(l, d) == "" + "%b" + Layout(l[1..], d[1..]);
    RfcLayoutConcat();
  }

  lemma RfcLayoutSplits()
    ensures Split(Rfc822Layout) == RfcParts
  {
    RfcPiecesPlain();
    RfcPiecesInterleave();
    RfcPiecesSpell();
    LayoutSplits(RfcLiterals, RfcDirectives);
  }

  /** What `to822` prints: the locale's short month name, the day, the
      year, the time to the millisecond and the zone without its colon. */
  function RfcString(r: Reading, names: (NameKind, int) -> string): string
  {
    LocaleName(names, ShortMonth, MonthIndex(r.month)) + (" " + Padded(NumberText(r.date), 2)
    + (" " + NumberText(r.year) + (" " + Padded(NumberText(r.hours), 2)
    + (":" + Padded(NumberText(r.minutes), 2) + (":" + Padded(NumberText(r.seconds), 2)
    + ("." + Padded(NumberText(r.ms), 3) + (" " + RemoveFirst(r.zone, ':'))))))))
  }

  lemma RfcRenders(r: Reading, names: (NameKind, int) -> string)
    ensures Render("%b", r, names) == Success(LocaleName(names, ShortMonth, MonthIndex(r.month)))
    ensures Render("%-z", r, names) == Success(RemoveFirst(r.zone, ':'))
  {
    ZoneRenders(r, names);
  }

  /** The fraction and the zone of the RFC 822 layout. */
  lemma FormatRfcFraction(r: Reading, names: (NameKind, int) -> string)
    ensures FormatParts([".", "%f"] + ([" ", "%-z"] + [""]), r, names)
         == Success("." + Padded(NumberText(r.ms), 3) + (" " + RemoveFirst(r.zone, ':')))
  {
    IsoTimeRenders(r, names);
    RfcRenders(r, names);
    var z := RemoveFirst(r.zone, ':');
    FormatPartsCons(" ", "%-z", [""], r, names, z, "");
    assert " " + z + "" == " " + z;
    FormatPartsCons(".", "%f", [" ", "%-z"] + [""], r, names, Padded(NumberText(r.ms), 3), " " + z);
  }

  /** The minutes to the zone of the RFC 822 layout. */
  lemma FormatRfcClock(r: Reading, names: (NameKind, int) -> string)
    ensures FormatParts([":", "%M"] + ([":", "%S"] + ([".", "%f"] + ([" ", "%-z"] + [""]))), r, names)
         == Success(":" + Padded(NumberText(r.minutes), 2) + (":" + Padded(NumberText(r.seconds), 2)
                    + ("." + Padded(NumberText(r.ms), 3) + (" " + RemoveFirst(r.zone, ':')))))
  {
    FormatRfcFraction(r, names);
    IsoTimeRenders(r, names);
    var t6 := [".", "%f"] + ([" ", "%-z"] + [""]);
    var u6 := "." + Padded(NumberText(r.ms), 3) + (" " + RemoveFirst(r.zone, ':'));
    FormatPartsCons(":", "%S", t6, r, names, Padded(NumberText(r.seconds), 2), u6);
    FormatPartsCons(":", "%M", [":", "%S"] + t6, r, names, Padded(NumberText(r.minutes), 2),
                    ":" + Padded(NumberText(r.seconds), 2) + u6);
  }

  lemma FormatRfcTime(r: Reading, names: (NameKind, int) -> string)
    ensures FormatParts([" ", "%Y"] + ([" ", "%H"] + ([":", "%M"] + ([":", "%S"] + ([".", "%f"] + ([" ", "%-z"] + [""]))))), r, names)
         == Success(" " + NumberText(r.year) + (" " + Padded(NumberText(r.hours), 2)
                    + (":" + Padded(NumberText(r.minutes), 2) + (":" + Padded(NumberText(r.seconds), 2)
                    + ("." + Padded(NumberText(r.ms), 3) + (" " + RemoveFirst(r.zone, ':')))))))
  {
    IsoTimeRenders(r, names);
    IsoDateRenders(r, names);
    FormatRfcClock(r, names);
    var t4 := [":", "%M"] + ([":", "%S"] + ([".", "%f"] + ([" ", "%-z"] + [""])));
    var t3 := [" ", "%H"] + t4;
    var u4 := ":" + Padded(NumberText(r.minutes), 2) + (":" + Padded(NumberText(r.seconds), 2)
              + ("." + Padded(NumberText(r.ms), 3) + (" " + RemoveFirst(r.zone, ':'))));
    var u3 := " " + Padded(NumberText(r.hours), 2) + u4;
    FormatPartsCons(" ", "%H", t4, r, names, Padded(NumberText(r.hours), 2), u4);
    FormatPartsCons(" ", "%Y", t3, r, names, NumberText(r.year), u3);
  }

  /** The day of the month onwards of the RFC 822 layout. */
  lemma FormatRfcDay(r: Reading, names: (NameKind, int) -> string)
    ensures FormatParts([" ", "%d"] + ([" ", "%Y"] + ([" ", "%H"] + ([":", "%M"] + ([":", "%S"] + ([".", "%f"] + ([" ", "%-z"] + [""])))))), r, names)
         == Success(" " + Padded(NumberText(r.date), 2) + (" " + NumberText(r.year) + (" " + Padded(NumberText(r.hours), 2)
                    + (":" + Padded(NumberText(r.minutes), 2) + (":" + Padded(NumberText(r.seconds), 2)
                    + ("." + Padded(NumberText(r.ms), 3) + (" " + RemoveFirst(r.zone, ':'))))))))
  {
    IsoDateRenders(r, names);
    FormatRfcTime(r, names);
    var t2 := [" ", "%Y"] + ([" ", "%H"] + ([":", "%M"] + ([":", "%S"] + ([".", "%f"] + ([" ", "%-z"] + [""])))));
    var u2 := " " + NumberText(r.year) + (" " + Padded(NumberText(r.hours), 2)
              + (":" + Padded(NumberText(r.minutes), 2) + (":" + Padded(NumberText(r.seconds), 2)
              + ("." + Padded(NumberText(r.ms), 3) + (" " + RemoveFirst(r.zone, ':'))))));
    FormatPartsCons(" ", "%d", t2, r, names, Padded(NumberText(r.date), 2), u2);
  }

  lemma FormatRfcParts(r: Reading, names: (NameKind, int) -> string)
    ensures FormatParts(RfcParts, r, names) == Success(RfcString(r, names))
  {
    RfcRenders(r, names);
    FormatRfcDay(r, names);
    var t1 := [" ", "%d"] + ([" ", "%Y"] + ([" ", "%H"] + ([":", "%M"] + ([":", "%S"] + ([".", "%f"] + ([" ", "%-z"] + [""]))))));
    var m := LocaleName(names, ShortMonth, MonthIndex(r.month));
    var u1 := " " + Padded(NumberText(r.date), 2) + (" " + NumberText(r.year) + (" " + Padded(NumberText(r.hours), 2)
              + (":" + Padded(NumberText(r.minutes), 2) + (":" + Padded(NumberText(r.seconds), 2)
              + ("." + Padded(NumberText(r.ms), 3) + (" " + RemoveFirst(r.zone, ':')))))));
    FormatPartsFront("%b", t1, r, names, m, u1);
    RfcPartsNested();
  }

  /** `to822()` of any date, valid or NaN. */
  lemma To822Text(w: When, hostOffset: int, names: (NameKind, int) -> string)
    ensures To822(w, hostOffset, names) == Success(RfcString(Read(w, hostOffset), names))
  {
    RfcLayoutSplits();
    FormatRfcParts(Read(w, hostOffset), names);
  }
}
