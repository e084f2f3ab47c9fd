/** `to8601` and the patched `Date.parse` of when.js are inverses where
    the printed zone is an ISO 8601 zone: the text `to8601` prints for a
    valid date with a four-digit year is in the grammar the parser
    accepts, and it parses back to the same instant, for a `WhenUTC`, and
    for a `When` on a host whose offset is below 100 hours and is a whole
    number of hours or at least an hour east of UTC.  On the other hosts
    the zone arithmetic of when.js:122-127 prints a zone outside the
    grammar and the text goes to the host's own parser. */
module RoundTrip {
  import opened Wrappers
  import opened Text
  import opened Calendar
  import opened Temporal
  import opened Format
  import Iso8601

  /** A number padded to width `n` as a run of digits. */
  function PaddedDigits(v: int, n: int): (s: string)
    requires 2 <= n && 0 <= v < Pow10(n)
    ensures Iso8601.Digits(s, n) && DigitsValue(s) == v
  {
    PadNumber(v, n);
    Padded(IntText(v), n)
  }

  /** The views and host offsets at which `format` prints an ISO 8601
      zone: a `WhenUTC`, a host at UTC, and a host whose offset is below
      100 hours and at which the zone arithmetic is right. */
  predicate IsoZoneHost(view: View, hostOffset: int)
  {
    view == Local && hostOffset != 0 ==> Abs(hostOffset) < 6000 && HourAligned(hostOffset)
  }

  /** The zone `to8601` prints, as an ISO 8601 zone. */
  function ZoneOf(view: View, hostOffset: int): (z: Iso8601.Zone)
    requires IsoZoneHost(view, hostOffset)
    ensures Iso8601.WellFormedZone(Some(z))
  {
    if view == Local && hostOffset != 0 then ZoneTree(hostOffset) else Iso8601.Zulu
  }

  /** What a reading with every field present is allowed to print for the
      text to parse back: a four-digit year. */
  predicate Printable(r: Reading)
  {
    Plausible(r) && 1000 <= r.year.value <= 9999
  }

  /** A four-digit year as a run of digits. */
  function YearDigits(y: int): (s: string)
    requires 1000 <= y <= 9999
    ensures Iso8601.Digits(s, 4) && DigitsValue(s) == y && s == NumberText(Some(y))
  {
    assert Pow10(3) == 1000 && Pow10(4) == 10000;
    NatTextLength(y, 4);
    NatText(y)
  }

  /** The parse tree of the text `to8601` prints for reading `r`. */
  function TreeOf(r: Reading, z: Iso8601.Zone): (x: Iso8601.IsoText)
    requires Printable(r)
  {
    assert Pow10(2) == 100 && Pow10(3) == 1000;
    Iso8601.IsoText(
      Iso8601.Basic(YearDigits(r.year.value)),
      Some(PaddedDigits(r.month.value, 2)), Some(PaddedDigits(r.date.value, 2)),
      Some(Iso8601.TimeText(PaddedDigits(r.hours.value, 2), PaddedDigits(r.minutes.value, 2),
                            Some(Iso8601.Seconds(PaddedDigits(r.seconds.value, 2), Some(PaddedDigits(r.ms.value, 3)))),
                            Some(z))))
  }

  /** The tree is in the grammar when its zone is. */
  lemma TreeWellFormed(r: Reading, z: Iso8601.Zone)
    requires Printable(r)
    ensures Iso8601.WellFormed(TreeOf(r, z)) <==> Iso8601.WellFormedZone(Some(z))
  {
  }

  /** The time part of the tree spells the time part of the text. */
  lemma TimeSpelled(r: Reading, z: Iso8601.Zone)
    requires Printable(r)
    ensures var t := TreeOf(r, z).time;
            Iso8601.SpellTime(t) ==
              "T" + Padded(NumberText(r.hours), 2) + (":" + Padded(NumberText(r.minutes), 2)
              + (":" + Padded(NumberText(r.seconds), 2) + ("." + Padded(NumberText(r.ms), 3)
              + Iso8601.SpellZone(Some(z)))))
  {
    var x := TreeOf(r, z).time.value;
    var h := Padded(NumberText(r.hours), 2);
    var sec := ":" + Padded(NumberText(r.seconds), 2);
    var ms := "." + Padded(NumberText(r.ms), 3);
    assert Iso8601.SpellSeconds(x.seconds) == sec + ms;
    RegroupTime("T" + h, ":", Padded(NumberText(r.minutes), 2), sec, ms, Iso8601.SpellZone(Some(z)));
  }

  lemma Regroup(a: string, b: string, c: string, d: string)
    ensures a + b + c + d == a + (b + (c + d))
  {
  }

  lemma RegroupTime(a: string, b: string, c: string, d: string, e: string, f: string)
    ensures a + b + c + (d + e) + f == a + (b + c + (d + (e + f)))
  {
    Regroup(a + b, c, d + e, f);
    Regroup(d, e, f, []);
    assert d + e + f + [] == d + e + f;
    assert (d + e) + f == d + (e + f);
    Regroup(a, b, c, d + (e + f));
  }

  /** The whole tree spells what `to8601` prints. */
  lemma TreeSpelled(r: Reading, z: Iso8601.Zone)
    requires Printable(r) && r.zone == Iso8601.SpellZone(Some(z))
    ensures Iso8601.Spell(TreeOf(r, z)) == IsoString(r)
  {
    TimeSpelled(r, z);
    var x := TreeOf(r, z);
    var y := NumberText(r.year);
    var m := "-" + Padded(NumberText(r.month), 2);
    var d := "-" + Padded(NumberText(r.date), 2);
    var t := Iso8601.SpellTime(x.time);
    assert Iso8601.SpellYear(x.year) == y;
    assert Iso8601.SpellOpt('-', x.month) == m;
    assert Iso8601.SpellOpt('-', x.day) == d;
    Regroup(y, m, d, t);
  }

  /** The tree resolves to the fields the getters read, with the offset
      of the zone. */
  lemma TreeResolves(r: Reading, z: Iso8601.Zone)
    requires Printable(r) && Iso8601.WellFormedZone(Some(z))
    ensures Iso8601.Resolve(TreeOf(r, z)) ==
              Iso8601.Fields(r.year.value, r.month.value - 1, r.date.value, r.hours.value,
                             r.minutes.value, r.seconds.value, r.ms.value, Iso8601.ZoneOffset(Some(z)))
  {
    var x := TreeOf(r, z);
    assert DigitsValue(x.year.digits) == r.year.value;
    assert DigitsValue(x.month.value) == r.month.value != 0;
    assert DigitsValue(x.day.value) == r.date.value != 0;
  }

  /** The zone `to8601` prints spells the zone of `ZoneOf`, and its
      offset is the shift of the view's wall clock. */
  lemma ZoneSpelled(w: When, hostOffset: int)
    requires w.time.Some? && IsoZoneHost(w.view, hostOffset)
    ensures Read(w, hostOffset).zone == Iso8601.SpellZone(Some(ZoneOf(w.view, hostOffset)))
    ensures Iso8601.ZoneOffset(Some(ZoneOf(w.view, hostOffset))) * MsPerMinute == Shift(w.view, hostOffset)
  {
    if w.view == Local && hostOffset != 0 {
      assert Read(w, hostOffset).zone == ZoneText(Some(hostOffset));
      ZoneTextSpells(hostOffset);
      ZoneTextRoundTrip(hostOffset);
    }
  }

  /** The instant of the resolved fields is the date's own time value. */
  lemma InstantOfReading(w: When, hostOffset: int, offset: int)
    requires w.time.Some? && ValidTime(w.time)
    requires offset * MsPerMinute == Shift(w.view, hostOffset)
    requires 100 <= Get(w, hostOffset, Year).value
    ensures var r := Read(w, hostOffset);
            Iso8601.Instant(Iso8601.Fields(r.year.value, r.month.value - 1, r.date.value, r.hours.value,
                                           r.minutes.value, r.seconds.value, r.ms.value, offset)) == w.time
  {
    WallClockOfGetters(w, hostOffset, offset);
    InstantShifted(Iso8601.Fields(Read(w, hostOffset).year.value, Read(w, hostOffset).month.value - 1,
                                  Read(w, hostOffset).date.value, Read(w, hostOffset).hours.value,
                                  Read(w, hostOffset).minutes.value, Read(w, hostOffset).seconds.value,
                                  Read(w, hostOffset).ms.value, offset),
                   w.time.value, Shift(w.view, hostOffset));
  }

  /** The getters' fields, read as `Date.UTC` arguments, give the wall
      clock of the view. */
  lemma WallClockOfGetters(w: When, hostOffset: int, offset: int)
    requires w.time.Some? && 100 <= Get(w, hostOffset, Year).value
    ensures Iso8601.WallClock(Iso8601.Fields(Read(w, hostOffset).year.value, Read(w, hostOffset).month.value - 1,
                                             Read(w, hostOffset).date.value, Read(w, hostOffset).hours.value,
                                             Read(w, hostOffset).minutes.value, Read(w, hostOffset).seconds.value,
                                             Read(w, hostOffset).ms.value, offset))
            == w.time.value + Shift(w.view, hostOffset)
  {
    GettersCompose(w, hostOffset);
  }

  /** Fields whose wall clock is a valid time value moved forward by
      their own offset denote that time value. */
  lemma InstantShifted(f: Iso8601.Fields, t: int, shift: int)
    requires -MaxTime <= t <= MaxTime && Iso8601.WallClock(f) == t + shift && f.offset * MsPerMinute == shift
    ensures Iso8601.Instant(f) == Some(t)
  {
  }

  /** The printed text of a reading parses to the instant of its fields
      with the offset of its zone. */
  lemma TextParsesBack(r: Reading, z: Iso8601.Zone, fallback: string -> Option<int>)
    requires Printable(r) && Iso8601.WellFormedZone(Some(z)) && r.zone == Iso8601.SpellZone(Some(z))
    ensures Iso8601.Parse(IsoString(r), fallback) ==
              Iso8601.Instant(Iso8601.Fields(r.year.value, r.month.value - 1, r.date.value, r.hours.value,
                                             r.minutes.value, r.seconds.value, r.ms.value, Iso8601.ZoneOffset(Some(z))))
  {
    TreeSpelled(r, z);
    TreeWellFormed(r, z);
    Iso8601.ParseSpelled(TreeOf(r, z), fallback);
    TreeResolves(r, z);
  }

  /** The round trip: `Date.parse(w.to8601())` is `w`'s time value. */
  lemma To8601ParsesBack(w: When, hostOffset: int, names: (NameKind, int) -> string, fallback: string -> Option<int>)
    requires w.time.Some? && ValidTime(w.time) && IsoZoneHost(w.view, hostOffset)
    requires 1000 <= Get(w, hostOffset, Year).value <= 9999
    ensures To8601(w, hostOffset, names).Success?
    ensures Iso8601.Parse(To8601(w, hostOffset, names).value, fallback) == w.time
  {
    var r := Read(w, hostOffset);
    var z := ZoneOf(w.view, hostOffset);
    ReadPlausible(w, hostOffset);
    To8601Text(w, hostOffset, names);
    ZoneSpelled(w, hostOffset);
    TextParsesBack(r, z, fallback);
    InstantOfReading(w, hostOffset, Iso8601.ZoneOffset(Some(z)));
  }

  /** A printed text whose zone the zone grammar refuses is outside the
      grammar of when.js:14: the date and the time before the zone are
      read as they should be, and then the zone is not. */
  lemma ZoneRejectedLeavesGrammar(r: Reading, fallback: string -> Option<int>)
    requires Printable(r) && Iso8601.ParseZone(r.zone).None?
    ensures Iso8601.ParseIso(IsoString(r)).None?
    ensures Iso8601.Parse(IsoString(r), fallback) == fallback(IsoString(r))
  {
    assert Pow10(2) == 100 && Pow10(3) == 1000;
    var y := YearDigits(r.year.value);
    var mo := PaddedDigits(r.month.value, 2);
    var d := PaddedDigits(r.date.value, 2);
    var h := PaddedDigits(r.hours.value, 2);
    var mi := PaddedDigits(r.minutes.value, 2);
    var sec := PaddedDigits(r.seconds.value, 2);
    var ms := PaddedDigits(r.ms.value, 3);
    var rest := ":" + sec + ("." + ms + r.zone);
    var time := "T" + h + (":" + mi + rest);
    var day := "-" + d + time;
    var date := "-" + mo + day;
    assert IsoString(r) == y + date;
    SecondsRejected(sec, ms, r.zone);
    TimeRejected(h, mi, rest);
    DayRejected(mo, d, time);
    Iso8601.BasicYearComplete(y, date);
  }

  lemma SecondsRejected(sec: string, ms: string, zone: string)
    requires Iso8601.Digits(sec, 2) && Iso8601.Digits(ms, 3) && Iso8601.ParseZone(zone).None?
    ensures Iso8601.ParseSeconds(":" + sec + ("." + ms + zone)).None?
  {
    var rest := "." + ms + zone;
    Iso8601.ParseSecondsAfterDigits(sec, rest);
    assert rest[1..4] == ms && rest[4..] == zone;
  }

  lemma TimeRejected(h: string, mi: string, rest: string)
    requires Iso8601.Digits(h, 2) && Iso8601.Digits(mi, 2) && Iso8601.ParseSeconds(rest).None?
    ensures Iso8601.ParseRest("T" + h + (":" + mi + rest)).None?
  {
    var s := "T" + h + (":" + mi + rest);
    assert s[1..3] == h && s[3] == ':' && s[4..6] == mi && s[6..] == rest;
  }

  lemma DayRejected(mo: string, d: string, time: string)
    requires Iso8601.Digits(mo, 2) && Iso8601.Digits(d, 2) && Iso8601.ParseRest(time).None?
    ensures forall y :: Iso8601.WellFormedYear(y) ==> Iso8601.ParseMonthDay(y, "-" + mo + ("-" + d + time)).None?
  {
    var day := "-" + d + time;
    var date := "-" + mo + day;
    assert day[1..3] == d && day[3..] == time;
    assert date[1..3] == mo && date[3..] == day;
  }

  /** As written, a `When` on a host at -3:30 or at +0:30 prints a zone
      the parser refuses (`-04:-210`, `-00:NaN`), so `Date.parse(w.to8601())`
      is whatever the host's own parser makes of the text. */
  lemma MangledZoneLosesRoundTrip(w: When, hostOffset: int, names: (NameKind, int) -> string,
                                  fallback: string -> Option<int>)
    requires w.view == Local && w.time.Some? && (hostOffset == -210 || hostOffset == 30)
    requires 1000 <= Get(w, hostOffset, Year).value <= 9999
    ensures To8601(w, hostOffset, names).Success?
    ensures Iso8601.Parse(To8601(w, hostOffset, names).value, fallback) == fallback(To8601(w, hostOffset, names).value)
  {
    var r := Read(w, hostOffset);
    ReadPlausible(w, hostOffset);
    To8601Text(w, hostOffset, names);
    assert r.zone == ZoneAsWritten(Some(hostOffset));
    ZoneAsWrittenWest();
    ZoneAsWrittenEast();
    MangledZonesRejected();
    ZoneRejectedLeavesGrammar(r, fallback);
  }

  /** A text starting with one to three digits and then `-` has no year
      the grammar accepts. */
  lemma ShortYearText(y: string, rest: string)
    requires 1 <= |y| <= 3 && IsDigit(y[0]) && 4 <= |y + rest| && rest != [] && rest[0] == '-'
    ensures Iso8601.ParseIso(y + rest).None?
  {
    var s := y + rest;
    assert s[0] == y[0] && s[|y|] == '-';
    assert !AllDigits(s[..4]) by { assert s[..4][|y|] == '-'; }
  }

  /** Below the year 1000 the round trip is lost: `%Y` prints the year
      with fewer than four digits, the text is outside the grammar of
      when.js:14, and `Date.parse` hands it to the host's own parser. */
  lemma ShortYearLeavesGrammar(r: Reading, fallback: string -> Option<int>)
    requires r.year.Some? && 0 <= r.year.value < 1000
    ensures Iso8601.ParseIso(IsoString(r)).None?
    ensures Iso8601.Parse(IsoString(r), fallback) == fallback(IsoString(r))
  {
    var v := r.year.value;
    var y := NumberText(r.year);
    assert Pow10(1) == 10 && Pow10(2) == 100 && Pow10(3) == 1000;
    if v < 10 { NatTextLength(v, 1); } else if v < 100 { NatTextLength(v, 2); } else { NatTextLength(v, 3); }
    assert y == NatText(v);
    var rest := "-" + Padded(NumberText(r.month), 2) + ("-" + Padded(NumberText(r.date), 2)
                + ("T" + Padded(NumberText(r.hours), 2) + (":" + Padded(NumberText(r.minutes), 2)
                + (":" + Padded(NumberText(r.seconds), 2) + ("." + Padded(NumberText(r.ms), 3) + r.zone)))));
    assert IsoString(r) == y + rest;
    assert rest[0] == '-' && |rest| >= 3;
    ShortYearText(y, rest);
  }
}
