/** Points in time at minute resolution, and the part of Python's `datetime.fromisoformat`
    that the listing dates reach.

    An instant is a count of minutes since 0001-01-01 00:00 UTC. A wall-clock reading is a
    count of minutes since 0001-01-01 00:00 on some clock; a fixed UTC offset (in minutes)
    turns one into the other: instant = wall - offset. */
module IsoTime {
  import opened Wrappers
  import opened Text
  import opened Calendar

  /** A parsed `datetime`: naive (a wall-clock reading with no zone) or aware (a fixed
      offset was written, so the instant is known). */
  datatype Stamp = Naive(wall: int) | Aware(instant: int)

  /** The instant a wall-clock reading denotes at a fixed UTC offset. */
  function AtOffset(wall: int, offset: int): int {
    wall - offset
  }

  /** The instant a parsed stamp denotes once a naive one is localized at `localizeOffset`
      (`TZ.localize(dt)`); an aware one keeps its instant (`dt.astimezone(TZ)`). */
  function InstantOf(st: Stamp, localizeOffset: int): (t: int)
    ensures st.Aware? ==> t == st.instant
    ensures st.Naive? ==> t + localizeOffset == st.wall
  {
    match st
    case Naive(wall) => AtOffset(wall, localizeOffset)
    case Aware(instant) => instant
  }

  /** Whether a reading in minutes names a `datetime` of years 1 through 9999. */
  predicate InDatetimeRange(m: int) {
    0 <= m < LastOrdinal * MinutesPerDay
  }

  /** `TZ.localize(dt)` for a naive stamp and `dt.astimezone(TZ)` for an aware one, at the fixed
      offset `localizeOffset`, with the OverflowError pytz lets escape at the ends of the range:
      - localize looks up the zone one day before and one day after the reading, so it raises
        for every reading on 0001-01-01 or on 9999-12-31;
      - astimezone first goes to UTC and then to the zone, and raises when either reading
        leaves the range. */
  function Localize(st: Stamp, localizeOffset: int): (r: Result<int>)
    ensures r.Ok? ==> r.value == InstantOf(st, localizeOffset)
  {
    match st
    case Naive(wall) =>
      if wall < MinutesPerDay || wall >= (LastOrdinal - 1) * MinutesPerDay
      then Raised(OverflowError("date value out of range"))
      else Ok(AtOffset(wall, localizeOffset))
    case Aware(instant) =>
      if !InDatetimeRange(instant) || !InDatetimeRange(instant + localizeOffset)
      then Raised(OverflowError("date value out of range"))
      else Ok(instant)
  }

  /** A bare date localizes exactly when it is neither the first nor the last day. */
  lemma LocalizeBareDate(d: Date, localizeOffset: int)
    requires ValidDate(d)
    ensures Localize(Naive(MidnightMinutes(d)), localizeOffset).Raised? <==> d == FirstDate || d == LastDate
  {
    FirstOrdinal(d);
    LastOrdinalBound(d);
  }

  /** Any reading on a day strictly between the first and the last localizes. */
  lemma LocalizeInside(d: Date, minute: int, localizeOffset: int)
    requires ValidDate(d) && d != FirstDate && d != LastDate && 0 <= minute < MinutesPerDay
    ensures Localize(Naive(MidnightMinutes(d) + minute), localizeOffset)
         == Ok(MidnightMinutes(d) + minute - localizeOffset)
  {
    FirstOrdinal(d);
    LastOrdinalBound(d);
  }

  /** Local calendar day (as an ordinal) and minute of the day at which an instant falls. */
  function LocalDay(instant: int, offset: int): int {
    (instant + offset) / MinutesPerDay + 1
  }

  function LocalMinuteOfDay(instant: int, offset: int): int {
    (instant + offset) % MinutesPerDay
  }

  /** The instant of local midnight starting day `d` at a fixed offset. */
  function LocalMidnight(d: Date, offset: int): (t: int)
    requires ValidDate(d)
    ensures LocalDay(t, offset) == Ordinal(d)
    ensures LocalMinuteOfDay(t, offset) == 0
  {
    AtOffset(MidnightMinutes(d), offset)
  }

  // ---------------------------------------------------------------------------------------
  // HH:MM
  // ---------------------------------------------------------------------------------------

  /** `HH:MM` in ASCII digits, as minutes; the hour and minute fields are not range-checked. */
  function ParseClock(s: string): (r: Option<(nat, nat)>)
    ensures r.Some? ==> r.value.0 < 100 && r.value.1 < 100
  {
    if |s| == 5 && s[2] == ':' && AllDigits(s[..2]) && AllDigits(s[3..])
    then Some((ParseDigits(s[..2]), ParseDigits(s[3..])))
    else None
  }

  /** `HH:MM` zero-padded. */
  function FormatClock(hour: nat, minute: nat): (s: string)
    requires hour < 100 && minute < 100
    ensures |s| == 5
  {
    PadDigits(hour, 2) + ":" + PadDigits(minute, 2)
  }

  lemma ParseFormatClock(hour: nat, minute: nat)
    requires hour < 100 && minute < 100
    ensures ParseClock(FormatClock(hour, minute)) == Some((hour, minute))
  {
    var s := FormatClock(hour, minute);
    assert s[..2] == PadDigits(hour, 2);
    assert s[3..] == PadDigits(minute, 2);
  }

  // ---------------------------------------------------------------------------------------
  // fromisoformat, restricted to the shapes listing dates take
  // ---------------------------------------------------------------------------------------

  /** `datetime.fromisoformat(s)` for three shapes, and None (Python's ValueError) otherwise:
      - `YYYY-MM-DD`                       naive, at midnight;
      - `YYYY-MM-DD?HH:MM`                 naive, any separator character `?`;
      - `YYYY-MM-DD?HH:MM±HH:MM`           aware, the offset strictly less than a day.
      The clock must name a valid time of day (hour < 24, minute < 60). */
  function ParseIso(s: string): (r: Option<Stamp>)
    ensures r.Some? ==> |s| >= 10 && ParseDate(s[..10]).Some?
    ensures |s| == 10 ==> (r.Some? <==> ParseDate(s).Some?)
  {
    if |s| == 10 then
      assert s[..10] == s;
      match ParseDate(s)
      case None => None
      case Some(d) => Some(Naive(MidnightMinutes(d)))
    else if |s| != 16 && |s| != 22 then None
    else
      var date := ParseDate(s[..10]);
      var clock := ParseClock(s[11..16]);
      if date.None? || clock.None? then None
      else
        var (hh, mm) := clock.value;
        if hh >= 24 || mm >= 60 then None
        else
          var wall := MidnightMinutes(date.value) + hh * 60 + mm;
          if |s| == 16 then Some(Naive(wall))
          else if s[16] != '+' && s[16] != '-' then None
          else
            var zone := ParseClock(s[17..]);
            if zone.None? then None
            else
              var (oh, om) := zone.value;
              var offset := (if s[16] == '+' then 1 else -1) * (oh * 60 + om);
              if oh * 60 + om >= MinutesPerDay then None
              else Some(Aware(AtOffset(wall, offset)))
  }

  /** A bare `YYYY-MM-DD` parses to midnight of that day, naive. */
  lemma ParseIsoDate(d: Date)
    requires ValidDate(d)
    ensures ParseIso(FormatDate(d)) == Some(Naive(MidnightMinutes(d)))
  {
    ParseDateFormat(FormatDate(d), d);
  }

  /** A 16-character string whose date part and clock part parse is the naive wall-clock
      reading they name. */
  lemma ParseIsoClockShape(s: string, d: Date, hour: nat, minute: nat)
    requires |s| == 16 && hour < 24 && minute < 60
    requires ParseDate(s[..10]) == Some(d)
    requires ParseClock(s[11..16]) == Some((hour, minute))
    ensures ParseIso(s) == Some(Naive(MidnightMinutes(d) + hour * 60 + minute))
  {
  }

  /** `YYYY-MM-DD HH:MM` (the shape `strftime('%Y-%m-%d %H:%M')` writes) parses back to the same
      wall-clock reading, naive. */
  lemma ParseIsoDateTime(d: Date, hour: nat, minute: nat)
    requires ValidDate(d) && hour < 24 && minute < 60
    ensures ParseIso(FormatDate(d) + " " + FormatClock(hour, minute))
         == Some(Naive(MidnightMinutes(d) + hour * 60 + minute))
  {
    var s := FormatDate(d) + " " + FormatClock(hour, minute);
    assert ParseDate(s[..10]) == Some(d) by {
      assert s[..10] == FormatDate(d);
      ParseDateFormat(FormatDate(d), d);
    }
    assert ParseClock(s[11..16]) == Some((hour, minute)) by {
      assert s[11..16] == FormatClock(hour, minute);
      ParseFormatClock(hour, minute);
    }
    ParseIsoClockShape(s, d, hour, minute);
  }

  /** A string without the date shape (such as the placeholder `Unknown`) does not parse. */
  lemma ParseIsoRejectsShort(s: string)
    requires |s| < 10
    ensures ParseIso(s) == None
  {
  }
}
