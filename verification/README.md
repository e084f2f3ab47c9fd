# when.js in Dafny

A model of `when.js`, a small immutable wrapper around the JavaScript
`Date` with a local variant (`When`) and a UTC variant (`WhenUTC`), and
proofs about it.  The model covers:

- the ISO 8601 front end that `when.js` installs as `Date.parse`;
- the calendar arithmetic of `Date` behind the getters and setters;
- the getters, setters, `fromTime`, `toLocal`, `toUTC` and `add`;
- `pad0` and the strftime-like `format`, with the fixed layouts of
  `to8601` and `to822`;
- the round trip from `to8601` back through `Date.parse`.

Files and modules:

| file | module | what it holds |
|---|---|---|
| wrappers.dfy | Wrappers | `Option` (NaN is `None`) and `Result` (a thrown value is `Failure`) |
| text.dfy | Text | digits, the decimal text of a number, ASCII lower-casing, `replace(/0+$/, '')` and `replace(':', '')` |
| errors.dfy | Errors | the values `when.js` throws |
| calendar.dfy | Calendar | section 15.9.1 of ECMAScript 5.1: Day, YearFromTime, MonthFromTime, DateFromTime, WeekDay, MakeTime, MakeDay, MakeDate, TimeClip, `Date.UTC` |
| iso8601.dfy | Iso8601 | the regular expression of when.js:14 as a printer `Spell` and a recogniser `ParseIso`, the defaulting of when.js:16-27, and `Date.UTC` |
| temporal.dfy | Temporal | the `When` value: a view tag and a time value; getters, setters, conversions, `add` |
| tokens.dfy | Tokens | `fmt.split(/(%-?.)/)` |
| format.dfy | Format | `pad0`, the zone text, each directive of the `switch`, `format`, `to8601`, `to822` |
| roundtrip.dfy | RoundTrip | where `Date.parse(w.to8601())` is `w.getTime()`, and which printed texts fall outside the ISO 8601 grammar |

Things the model takes as parameters:

- **Host time zone.** `hostOffset` is the host's offset in minutes east
  of UTC, the negation of `getTimezoneOffset()`.  It is constant over
  time, so there is no daylight saving time.  A local getter reads the
  UTC breakdown of `t + hostOffset * 60000`.
- **Month and weekday names.** `toLocaleString` is the parameter `names`.
- **Host parser.** The `origParse` fallback of `Date.parse` is the
  parameter `fallback`.

A `Date` is its time value: an integer within the range of section
15.9.1.1 of ECMAScript 5.1, or `None` for NaN.

Where the code does not do what it evidently means to, the model
follows the code:

- **`%w`.** Next to `getDOW`, whose comment reads `0=Sun, 6=Sat`, the
  `%w` case calls `this.getDay()`, which `When` does not define.  So
  `format` throws a `TypeError` for any layout containing `%w`.  See
  `Format.Render` and `Format.FormatFails`.
- **`%z`.** The code builds the zone as `prefix + pad0(hh) + ':' +
  pad0(mm)`, the shape of `±HH:MM`.  Its arithmetic at when.js:122-127
  gives that text only for whole-hour offsets and for offsets of an
  hour or more east of UTC.  `Format.Zone`, and with it `format`,
  `to8601` and `to822`, uses the arithmetic as written
  (`Format.ZoneAsWritten`).  `Format.ZoneText` is the corrected text,
  and `Format.ZoneAsWrittenAgrees` shows where the two agree.  See the
  finding below.
- **Round trip.** `Date.parse(w.to8601())` gives back `w`'s time value
  only where the printed text is in the grammar of when.js:14.
  - The code prints `%Y` as the bare year, so the year must have four
    digits: years 1000 to 9999.
  - For a `When`, the zone must be an ISO 8601 zone: the host's offset
    is zero, or a whole number of hours, or an hour or more east of UTC.
  - `RoundTrip.To8601ParsesBack` proves the round trip under those two
    conditions.
  - `RoundTrip.ShortYearLeavesGrammar` and
    `RoundTrip.MangledZoneLosesRoundTrip` show that outside them the
    text falls through to the host parser.

## Model

| member | source | states |
|---|---|---|
| Iso8601.ParseIso | when.js:14 | A string is accepted only as the spelling of a well-formed parse tree (a year of four digits or a sign and six, an optional `-MM`, an optional `-DD` after it, and an optional `THH:mm[:ss[.sss]][Z\|±HH[:mm]]`); the tree returned spells exactly the input |
| Iso8601.ParseIsoComplete | when.js:14 | Every well-formed tree's spelling is accepted and gives back that same tree, so with `ParseIso` the recogniser accepts exactly the language of the regular expression |
| Iso8601.YearIsFourOrSignedSix | when.js:14 | `21`, `20210`, `+02021` and `02021-06` are rejected: the year is four digits or a sign and six digits |
| Iso8601.OnlyTimeFollowsDate | when.js:14 | After the date, only a `T` time group may follow |
| Iso8601.ZoneNeedsTime | when.js:14 | A `Z` or `+HH[:mm]` straight after a date without a time part is rejected, and so is `-HH[:mm]` after a full date; after a bare year or a year and month, `-NN` reads as the month or the day |
| Iso8601.WestZoneAfterDate | when.js:14 | `2021-06-15-05:00` is rejected |
| Iso8601.TimeNeedsMinutes | when.js:14 | `T` with hours but no `:mm` is rejected |
| Iso8601.FractionNeedsSeconds | when.js:14 | A fraction directly after the minutes is rejected: milliseconds need seconds |
| Iso8601.FractionIsThreeDigits | when.js:14 | A fraction of any digit count other than three is rejected |
| Iso8601.BadFractionRejected | when.js:14 | A `.` after the seconds not followed by exactly three digits and then a zone or the end is rejected |
| Iso8601.ZoneOffset | when.js:22-27 | `Z` and no designator give offset 0; `+HH[:mm]` gives 60·HH+mm minutes and `-HH[:mm]` its negation, with absent minutes 0 |
| Iso8601.Resolve | when.js:16-27 | The year is the year's value; an absent or `00` month resolves to January (index 0), otherwise to its number less one; an absent or `00` day to 1, otherwise to its number; hours, minutes, seconds and milliseconds are their digits' values when present and 0 when absent; the offset is the zone's, 0 without a time part |
| Iso8601.Instant | when.js:28 | Putting the offset into the minutes argument of `Date.UTC` gives the wall-clock time value moved back by the offset, then TimeClip (NaN out of range) |
| Iso8601.Parse | when.js:8-34 | A string outside the grammar goes to the host parser untouched; one inside it gives a time value within the range of section 15.9.1.1 of ECMAScript 5.1, or NaN |
| Iso8601.ParseSpelled | when.js:14-28 | The spelling of any well-formed tree parses to the instant of its resolved fields |
| Iso8601.NoZoneIsUtc | when.js:22-28 | A date-time with no designator and the same one with `Z` denote the same instant, the UTC reading of the fields |
| Iso8601.ZoneShiftsInstant | when.js:22-28 | A date-time with a numeric offset denotes its `Z` reading moved back by the offset |
| Iso8601.ResolveWithZone | when.js:16-27 | Changing the zone of a date-time changes the resolved offset to the new zone's and no other field |
| Iso8601.TwoDigitYearsAreTwentiethCentury | when.js:28 | `0050` parses to 1950-01-01T00:00:00Z, by the 0-99 rule of `Date.UTC` |
| Iso8601.YearOnlyDefaults | when.js:16-21 | `2021` parses to 2021-01-01T00:00:00.000Z |
| Iso8601.YearMonthDefaults | when.js:16-21 | `2021-06` parses to 2021-06-01T00:00:00.000Z |
| Iso8601.DateOnlyIsUtcMidnight | when.js:16-21 | `2021-06-15` parses to 2021-06-15T00:00:00.000Z, UTC and not local midnight |
| Iso8601.ZuluExample | when.js:14-28 | `2021-06-15T08:00:00Z` parses to 1623744000000 |
| Iso8601.OffsetExample | when.js:22-28 | `2021-06-15T10:00:00+02:00` parses to the same instant as `2021-06-15T08:00:00Z` |
| Calendar.YearFromDay | when.js:266 | The year of a day number is the one year whose first day is at or before it and whose successor's first day is after it |
| Calendar.BreakdownRecomposes | when.js:266-272 | The fields the getters read from any time value are a valid civil date and compose back to that time value |
| Calendar.BreakdownCompose | when.js:274-315 | Composing a valid civil date and breaking it down again gives the same fields |
| Calendar.TimeClip | when.js:28 | A time value is kept exactly when its magnitude is at most 8.64e15 ms, otherwise it becomes NaN |
| Temporal.FromTime | when.js:49 | `fromTime(ms)` keeps an in-range integer as the time value and is NaN otherwise; it keeps the class |
| Temporal.ToLocal | when.js:56 | `toLocal()` is a `When` with the same instant |
| Temporal.ToUtc | when.js:57 | `toUTC()` is a `WhenUTC` with the same instant |
| Temporal.ConversionsKeepInstant | when.js:56-57 | Converting never changes the instant, converting twice is converting once, and the last conversion alone decides the class |
| Temporal.Get | when.js:60-66 | A getter is NaN exactly on a NaN date; otherwise it is within its range: month 1 to 12, date 1 to 31, hours 0 to 23, minutes and seconds 0 to 59, milliseconds 0 to 999 |
| Temporal.GettersCompose | when.js:60-66 | The seven getters, put back together, give the wall-clock time value of the view |
| Temporal.DayOfWeek | when.js:68 | `getDOW()` is NaN exactly on a NaN date, and otherwise 0 (Sunday) to 6 |
| Temporal.DayOfWeekEpoch | when.js:68 | 0 is Sunday: `getDOW()` of the epoch in UTC is 4, a Thursday |
| Temporal.DayOfWeekNextDay | when.js:68 | One day later `getDOW()` is the next weekday, 6 (Saturday) wrapping round to 0 (Sunday) |
| Temporal.DayOfWeekPeriodic | when.js:68 | Seven days later `getDOW()` is the same |
| Temporal.TimezoneOffset | when.js:67 | `getTimezoneOffset()` is the negation of the host's offset east of UTC |
| Temporal.Set | when.js:69-110 | A setter returns a value of the same class with a valid time value; on a NaN date every setter but `setYear` leaves it NaN |
| Temporal.SetReadsBack | when.js:274-315 | When the new field is within its range and the result is in range, the getter reads back exactly the value set (`setMonth` takes 1 to 12) and every other field is as before |
| Temporal.SetToSameValue | when.js:274-315 | Setting a field to the value its getter reads gives back the same date |
| Temporal.SetYearOfNaN | when.js:274-279 | `setYear(y)` on a NaN date gives January 1 of year `y` at midnight, as `setFullYear` takes the time as +0 |
| Temporal.UnitNamed | when.js:226-250 | A unit is known exactly when its lower-cased text is a singular unit name or that name followed by `s`, and it names that field |
| Temporal.UnitNamesIgnoreCase | when.js:226 | Unit names are matched without regard to case |
| Temporal.Add | when.js:219-254 | `add` returns a value of the receiver's class; it succeeds exactly when the loop over the pairs does, and its time value is the loop's |
| Temporal.AddTimeAppend | when.js:222-252 | Pairs are applied left to right: adding `a` then `b` is adding `a + b`, and an error in `a` stops before `b` |
| Temporal.AddTimeFailure | when.js:249-250 | When `add` throws, the error is `invalid time unit:` followed by the first unknown unit as written, after only known ones |
| Temporal.AddTimeUnknownFails | when.js:249-250 | Any unknown unit anywhere in the arguments, including the `undefined` of an odd trailing amount, makes `add` throw |
| Temporal.AddOneStep | when.js:228-248 | One known pair reads the field with the local getter, adds the amount and writes it back with the local setter |
| Temporal.AddShifts | when.js:234-248 | Adding days, hours, minutes, seconds or milliseconds moves the instant by that fixed duration (clipped), whatever the class |
| Temporal.MonthAfterJanuary31 | when.js:231-233 | One month after January 31 of a common year is March 3, because `setMonth` lets the day overflow |
| Temporal.AddNothing | when.js:219-254 | `add()` with no arguments is a copy of the receiver |
| Text.Lower | when.js:226 | `toLowerCase` (ASCII): same length, each character lowered |
| Text.StripTrailingZeros | when.js:164 | `replace(/0+$/, '')` removes exactly the trailing run of zeros: the result is a prefix, what it drops is all zeros, and it does not end in `0` |
| Text.RemoveFirst | when.js:210 | `replace(':', '')` leaves a text without `:` alone and otherwise drops one character |
| Text.RemoveFirstAt | when.js:210 | A text holding `:` is `a + ':' + b` with no `:` in `a`, and `replace(':', '')` of it is exactly `a + b`: the first `:` goes and the rest stays in order |
| Format.Pad0 | when.js:323-331 | `pad0` throws exactly when the width is 1 or less; otherwise it prefixes zeros up to the width and never truncates |
| Format.PadIdempotent | when.js:323-331 | Padding an already padded text again changes nothing |
| Format.PadNumber | when.js:323-331 | A number below 10^n, padded to width n, is n digits reading that number |
| Format.JsRem | when.js:123 | JavaScript's `%`: the remainder takes the sign of the dividend, its magnitude is that of the magnitudes' remainder, and a zero divisor gives NaN |
| Format.ZoneAsWrittenWest | when.js:122-127 | As written, a host at -3:30 prints the zone `-04:-210` where `-03:30` is meant |
| Format.ZoneAsWrittenEast | when.js:122-127 | As written, a host at +0:30 prints the zone `-00:NaN` |
| Format.MangledZonesRejected | when.js:14 | Neither mangled zone is accepted by the zone grammar of `Date.parse` |
| Format.ZoneAsWrittenAgrees | when.js:122-127 | For whole-hour offsets, and for offsets of an hour or more east of UTC, the code as written prints the corrected zone text |
| Format.ZoneTextEast | when.js:122-127 | The corrected zone text of +0:30 is `+00:30` |
| Format.ZoneTextRoundTrip | when.js:22-27 | The corrected zone text of any nonzero offset under 100 hours is accepted by the zone grammar and reads back as the same offset |
| Format.Zone | when.js:119-128 | The zone is `Z` for a `WhenUTC` or a zero offset, and otherwise the text of the arithmetic as written; at whole-hour offsets and offsets of an hour or more east of UTC that is the `±HH:MM` text of the offset |
| Tokens.SplitJoins | when.js:129 | Joining the pieces of the split gives back the layout |
| Tokens.SplitIsWellSplit | when.js:129 | The pieces alternate literal and directive; every directive is `%`, an optional `-` and a character that is not a line terminator; no literal hides a match; `%-` is a directive only at the end or before a line terminator |
| Tokens.SplitUnique | when.js:129 | Any decomposition with those properties is the one the split finds |
| Tokens.LayoutSplits | when.js:129 | A layout written as `%`-free literals around directives splits into exactly those pieces |
| Format.Render | when.js:132-215 | Replacing a piece throws exactly for `%w`, with the `TypeError` of calling the missing `getDay`; every other piece renders |
| Format.PaddedDirective | when.js:154-201 | `%d %H %I %M %m %S` print exactly two digits and `%f` three, reading the getter's value |
| Format.UnpaddedDirective | when.js:157-195 | `%-d %-H %-I %-M %-m %-S` print the getter's value with no leading zero, and the padded form is that text behind zeros |
| Format.TwelveHourClock | when.js:172-178 | `%I` takes `(h + 11) % 12 + 1`, which lies in 1 to 12 and agrees with the hour modulo 12 |
| Format.TwelveHourMidnight | when.js:172-178 | `%I` at hour 0 prints `12` |
| Format.TwelveHourAfternoon | when.js:172-178 | `%I` at hour 13 prints `01` |
| Format.FractionDirective | when.js:160-165 | `%-f` is `%f` with exactly its trailing zeros removed |
| Format.FractionExample | when.js:163-164 | `%-f` at 500 ms prints `5` |
| Format.FractionQuarter | when.js:163-164 | `%-f` at 250 ms prints `25` |
| Format.FractionWhole | when.js:163-164 | `%-f` at 0 ms prints nothing |
| Format.FractionLeadingZeros | when.js:163-164 | `%-f` at 5 ms prints `005`: leading zeros stay |
| Format.YearNotTruncated | when.js:200-202 | `%y` prints a year of two or more digits whole, since `pad0` never truncates |
| Format.YearExample | when.js:200-202 | `%y` in 2021 prints `2021` |
| Format.ZoneDirectives | when.js:206-211 | `%z` prints the zone; for a `WhenUTC` or a zero offset both `%z` and `%-z` print `Z` |
| Format.CompactZone | when.js:209-211 | Without its colon the `±HH:MM` text of a nonzero offset is the sign, two hour digits and two minute digits; a local `When` prints that for `%-z` at whole-hour offsets and offsets of an hour or more east of UTC |
| Format.CompactZoneAsWritten | when.js:122-127 | As written, `%-z` on a host at -3:30 prints `-04-210` |
| Format.OtherDirectives | when.js:132-215 | `%%` prints `%`; `%` followed by any character the `switch` does not list after `%` (`aAbBdfHIMmSwyYz%`), and `%-` followed by any character it does not list after `%-` (`dfHIMmSz`), pass through unchanged |
| Format.NaNDirectives | when.js:134-205 | On a NaN date the numeric directives print `NaN` and the name directives `Invalid Date` |
| Format.FormatFails | when.js:129-217 | `format` throws exactly when a directive piece of the split layout is `%w` |
| Format.FormatInert | when.js:129-217 | A layout holding no directive comes out unchanged |
| Format.IsoLayoutSplits | when.js:111 | The `to8601` layout splits into its eight directives between the literals `-`, `-`, `T`, `:`, `:`, `.` |
| Format.To8601Text | when.js:111 | `to8601()` never throws and prints year, zero-padded month, date, hours, minutes, seconds, three-digit milliseconds, then the zone |
| Format.RfcLayoutSplits | when.js:112 | The `to822` layout splits into its eight directives between spaces, colons and a dot |
| Format.To822Text | when.js:112 | `to822()` never throws and prints the short month name, the date, the year, the time with milliseconds and the zone without its colon |
| RoundTrip.ZoneSpelled | when.js:119-128 | For a `WhenUTC`, and for a `When` on a host whose offset is zero, or below 100 hours and a whole number of hours or at least an hour east of UTC, the zone `to8601` prints is an ISO 8601 zone whose offset is exactly the shift of the view's wall clock |
| RoundTrip.TextParsesBack | when.js:14-28 | The text `to8601` prints for a four-digit year parses to the instant of its fields at its zone's offset |
| RoundTrip.To8601ParsesBack | when.js:111 | For a valid date in years 1000 to 9999, `Date.parse(w.to8601())` is `w.getTime()` for a `WhenUTC`, and for a `When` on a host whose offset is zero, or below 100 hours and a whole number of hours or at least an hour east of UTC |
| RoundTrip.ZoneRejectedLeavesGrammar | when.js:14 | A printed text whose zone the zone grammar refuses is outside the grammar, and `Date.parse` hands it to the host parser |
| RoundTrip.MangledZoneLosesRoundTrip | when.js:111-128 | As written, for a `When` on a host at -3:30 or +0:30, `Date.parse(w.to8601())` is whatever the host parser makes of the text |
| RoundTrip.ShortYearLeavesGrammar | when.js:203-205 | For a year 0 to 999 the `to8601` text is outside the ISO grammar and `Date.parse` hands it to the host parser |

## Left out

- Daylight saving time and any host offset that varies with the date: `hostOffset` is one constant.
- `fromParts` (when.js:50-53 and 261-264): it composes from local fields with the host's rules, and a constant offset says nothing useful about that.
- The constructor's argument checks and the `Date` default of `now()` (when.js:42-47): the clock is outside the model, and the check at when.js:46 never fires.
- `When.parse` and `WhenUTC.parse` (when.js:48 and 259): they wrap a number rather than a `Date`. Values are built from a time value as `fromTime` does.
- The replacement of the global `Date.parse` (when.js:8): `Iso8601.Parse` is a standalone function.
- `valueOf`, `getTime`, `isUTC` and `isLocal` (when.js:54-59 and 265): they read the time value or the view tag directly.
- `toLocaleString` (when.js:113-116 and 316-320): it is the parameter `names`.
- Temporal.Add: amounts are integers. A string amount, which JavaScript would concatenate, and a fractional amount, which the setters truncate, are not modelled.
- Text.Lower: lower-cases ASCII letters only. No other character lower-cases to a letter of a unit name, so which units `add` accepts is unaffected.
- RoundTrip.To8601ParsesBack: holds only for years 1000 to 9999 (see `ShortYearLeavesGrammar`), for local host offsets under 6000 minutes (the most the two-digit hours of the zone grammar can carry), and for local offsets at which the zone arithmetic of when.js:122-127 is right (see `MangledZoneLosesRoundTrip`).
- Temporal.Set: the new value is an integer. `setMonth()` with no argument, which gives NaN as `undefined - 1`, and a fractional value, which the `Date` setters truncate with ToInteger, are not modelled.
- Temporal.FromTime: the argument is an integer time value. A string argument, which `new Date(string)` would hand to the host's parser, is not modelled.
- Errors.Message: the text of the `TypeError` for `%w` belongs to the engine; the model fixes one common wording.

## Findings

| source | as written | input that shows it | evidently intended | confidence | as-written member | corrected member |
|---|---|---|---|---|---|---|
| when.js:122-127 | `tzh = Math.floor(tzoff / 60)` and `tzm = tzoff % (tzh * 60)` | a local `When` on a host at -210 minutes prints `-04:-210`; at +30 minutes it prints `-00:NaN` | `-03:30` and `+00:30`: hours and minutes of the offset's magnitude with its sign | not executed | Format.ZoneAsWrittenWest | Format.ZoneTextRoundTrip |
