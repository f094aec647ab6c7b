/** The daily report (src/poller/poller.py): the previous-day window, the count of a shop's
    feed entries created inside it, and the one message per group that `send_daily_summary`
    sends.

    The clock, the feeds and the message sending are not modelled: today's local date is a
    parameter, the feed of a shop is given by `feeds`, and the messages sent are the result.
    Two UTC offsets are kept apart on purpose:
      - `windowOffset` is the offset of the window boundaries. `datetime.combine(..., tzinfo=TZ)`
        attaches pytz's zone object itself, whose offset is the zone's first one (local mean
        time, +06:42);
      - `localizeOffset` is the offset `TZ.localize` gives a naive create date (+07:00 for
        present-day Asia/Bangkok). */
module Poller {
  import opened Wrappers
  import opened Text
  import opened Calendar
  import opened IsoTime
  import opened Client
  import opened Postgres

  /** Asia/Bangkok local mean time, +06:42, as pytz attaches it through `tzinfo=TZ`. */
  const LmtOffset: int := 402
  /** Asia/Bangkok standard time, +07:00, as `TZ.localize` applies it. */
  const BangkokOffset: int := 420

  // ---------------------------------------------------------------------------------------
  // The window
  // ---------------------------------------------------------------------------------------

  /** `[start, end)` as instants, with the local date `start` falls on (which labels the report). */
  datatype Window = Window(startDay: Date, start: int, end: int)

  /** `get_prev_day_window` for the local date `today`: local midnight of yesterday to local
      midnight of today, both read at `windowOffset`. */
  function GetPrevDayWindow(today: Date, windowOffset: int): (r: Result<Window>)
    requires ValidDate(today)
    ensures r.Raised? <==> today == Date(MinYear, 1, 1)
    ensures r.Ok? ==>
      var w := r.value;
      && ValidDate(w.startDay) && Ordinal(w.startDay) == Ordinal(today) - 1
      && w.start < w.end && w.end - w.start == MinutesPerDay
      && LocalDay(w.start, windowOffset) == Ordinal(today) - 1 && LocalMinuteOfDay(w.start, windowOffset) == 0
      && LocalDay(w.end, windowOffset) == Ordinal(today) && LocalMinuteOfDay(w.end, windowOffset) == 0
  {
    PrevDayOrdinal(today);
    var yesterday :- PrevDay(today);
    Ok(Window(yesterday, LocalMidnight(yesterday, windowOffset), LocalMidnight(today, windowOffset)))
  }

  // ---------------------------------------------------------------------------------------
  // Counting one shop's listings
  // ---------------------------------------------------------------------------------------

  /** What the loop body of `count_listings_between` does with one entry. */
  datatype Verdict = Skipped | Counted | Failed(exc: Exception)

  /** The verdict on one entry: skipped unless its link is a listing link, failed when scraping
      its page raises, skipped when its create date does not parse or cannot be localized (both
      caught by `except Exception`), and counted exactly when the localized instant lies in
      `[start, end)`. */
  function Classify(e: FeedEntry, w: Window, localizeOffset: int): Verdict {
    if !IsListingLink(e.link) then Skipped
    else
      match ScrapeListingPage(e.page)
      case Raised(exc) => Failed(exc)
      case Ok(details) =>
        match ParseIso(details.createDate)
        case None => Skipped
        case Some(st) =>
          match Localize(st, localizeOffset)
          case Raised(_) => Skipped
          case Ok(dt) => if w.start <= dt < w.end then Counted else Skipped
  }

  /** The instant a listing entry's create date localizes to, when it parses and localizes. */
  function CreatedAt(e: FeedEntry, localizeOffset: int): Option<int> {
    match ScrapeListingPage(e.page)
    case Raised(_) => None
    case Ok(details) =>
      match ParseIso(details.createDate)
      case None => None
      case Some(st) =>
        match Localize(st, localizeOffset)
        case Raised(_) => None
        case Ok(dt) => Some(dt)
  }

  /** The verdicts on a feed's entries, in feed order. */
  function Verdicts(entries: seq<FeedEntry>, w: Window, localizeOffset: int): (vs: seq<Verdict>)
    ensures |vs| == |entries|
  {
    seq(|entries|, k requires 0 <= k < |entries| => Classify(entries[k], w, localizeOffset))
  }

  /** Judging one more entry extends the verdicts by its verdict. */
  lemma VerdictsSnoc(entries: seq<FeedEntry>, i: int, w: Window, localizeOffset: int)
    requires 0 <= i < |entries|
    ensures Verdicts(entries[..i + 1], w, localizeOffset)
         == Verdicts(entries[..i], w, localizeOffset) + [Classify(entries[i], w, localizeOffset)]
  {
  }

  /** The verdicts on a prefix are a prefix of the verdicts. */
  lemma VerdictsPrefix(entries: seq<FeedEntry>, i: int, w: Window, localizeOffset: int)
    requires 0 <= i < |entries|
    ensures Verdicts(entries, w, localizeOffset)[..i] == Verdicts(entries[..i], w, localizeOffset)
    ensures Verdicts(entries, w, localizeOffset)[i] == Classify(entries[i], w, localizeOffset)
  {
  }

  /** `n` added to a count, an exception passed through. */
  function Plus(n: nat, r: Result<nat>): Result<nat> {
    match r
    case Ok(m) => Ok(n + m)
    case Raised(exc) => Raised(exc)
  }

  /** The count over a run of verdicts, entry by entry: the first failure's exception escapes,
      otherwise the number of counted entries. */
  function Tally(vs: seq<Verdict>): (r: Result<nat>)
    ensures r.Raised? <==> exists k :: 0 <= k < |vs| && vs[k].Failed?
    ensures r.Ok? ==> r.value <= |vs|
  {
    if |vs| == 0 then Ok(0)
    else
      var rest := Tally(vs[1..]);
      assert forall k :: 1 <= k < |vs| ==> vs[1..][k - 1] == vs[k];
      assert rest.Raised? ==> exists k :: 1 <= k < |vs| && vs[k].Failed? by {
        if rest.Raised? {
          var k :| 0 <= k < |vs[1..]| && vs[1..][k].Failed?;
          assert vs[k + 1].Failed?;
        }
      }
      match vs[0]
      case Failed(exc) => Raised(exc)
      case Counted => Plus(1, rest)
      case Skipped => rest
  }

  /** The positions of the counted entries. */
  function CountedIndices(vs: seq<Verdict>): set<int> {
    set k | 0 <= k < |vs| && vs[k] == Counted
  }

  /** One more verdict adds its own position to the counted ones exactly when it counts. */
  lemma CountedIndicesSnoc(vs: seq<Verdict>, v: Verdict)
    ensures |CountedIndices(vs + [v])| == |CountedIndices(vs)| + (if v == Counted then 1 else 0)
  {
    var extra: set<int> := if v == Counted then {|vs|} else {};
    assert CountedIndices(vs + [v]) == CountedIndices(vs) + extra;
    assert |vs| !in CountedIndices(vs);
  }

  /** The tally of a run without failures, followed by more verdicts: its count is added to
      the rest's tally. */
  lemma {:induction false} TallyAppend(a: seq<Verdict>, b: seq<Verdict>)
    requires forall k :: 0 <= k < |a| ==> !a[k].Failed?
    ensures Tally(a).Ok?
    ensures Tally(a + b) == Plus(Tally(a).value, Tally(b))
    decreases |a|
  {
    if |a| == 0 {
      assert a + b == b;
    } else {
      TallyAppend(a[1..], b);
      assert (a + b)[1..] == a[1..] + b;
      assert (a + b)[0] == a[0];
    }
  }

  /** When no entry before position `i` fails and entry `i` does, the count raises entry `i`'s
      exception. */
  lemma TallyStopsAt(entries: seq<FeedEntry>, i: int, w: Window, localizeOffset: int)
    requires 0 <= i < |entries|
    requires Tally(Verdicts(entries[..i], w, localizeOffset)).Ok?
    requires Classify(entries[i], w, localizeOffset).Failed?
    ensures Tally(Verdicts(entries, w, localizeOffset)) == Raised(Classify(entries[i], w, localizeOffset).exc)
  {
    var all := Verdicts(entries, w, localizeOffset);
    VerdictsPrefix(entries, i, w, localizeOffset);
    assert forall k :: 0 <= k < i ==> !all[..i][k].Failed?;
    assert all == all[..i] + all[i..];
    TallyAppend(all[..i], all[i..]);
  }

  /** A verdict that does not fail extends a clean tally by one exactly when it counts. */
  lemma TallyStep(judged: seq<Verdict>, v: Verdict, count: nat)
    requires Tally(judged) == Ok(count)
    requires !v.Failed?
    ensures Tally(judged + [v]) == Ok(count + (if v == Counted then 1 else 0))
  {
    assert forall k :: 0 <= k < |judged| ==> !judged[k].Failed?;
    TallyAppend(judged, [v]);
  }

  /** A clean tally is the number of counted positions. */
  lemma {:induction false} TallyCountsCounted(vs: seq<Verdict>)
    requires Tally(vs).Ok?
    ensures Tally(vs).value == |CountedIndices(vs)|
    decreases |vs|
  {
    if |vs| > 0 {
      var init := vs[..|vs| - 1];
      var last := vs[|vs| - 1];
      assert vs == init + [last];
      assert forall k :: 0 <= k < |init| ==> !init[k].Failed? by {
        assert forall k :: 0 <= k < |init| ==> init[k] == vs[k];
      }
      TallyAppend(init, []);
      assert init + [] == init;
      TallyCountsCounted(init);
      assert !last.Failed?;
      TallyStep(init, last, Tally(init).value);
      CountedIndicesSnoc(init, last);
    }
  }

  /** One turn of the counting loop: a failing verdict makes the whole count raise its
      exception, and any other verdict extends the tally of the entries judged so far. */
  lemma CountStep(entries: seq<FeedEntry>, i: int, w: Window, localizeOffset: int,
                  count: nat, v: Verdict)
    requires 0 <= i < |entries|
    requires Tally(Verdicts(entries[..i], w, localizeOffset)) == Ok(count)
    requires v == Classify(entries[i], w, localizeOffset)
    ensures v.Failed? ==> Tally(Verdicts(entries, w, localizeOffset)) == Raised(v.exc)
    ensures !v.Failed? ==>
      Tally(Verdicts(entries[..i + 1], w, localizeOffset)) == Ok(count + (if v == Counted then 1 else 0))
  {
    var judged := Verdicts(entries[..i], w, localizeOffset);
    VerdictsSnoc(entries, i, w, localizeOffset);
    if v.Failed? {
      TallyStopsAt(entries, i, w, localizeOffset);
    } else {
      TallyStep(judged, v, count);
    }
  }

  /** The body of the loop of `count_listings_between` for one entry, step by step: the
      listing-link check, the page scrape (whose exception escapes), the create-date parse
      (whose failure skips the entry) and the half-open window test. */
  method JudgeEntry(entry: FeedEntry, w: Window, localizeOffset: int) returns (v: Verdict)
    ensures v == Classify(entry, w, localizeOffset)
    ensures !IsListingLink(entry.link) ==> v == Skipped
    ensures v.Failed? <==> IsListingLink(entry.link) && ScrapeListingPage(entry.page).Raised?
    ensures v.Failed? ==> v.exc == ScrapeListingPage(entry.page).exc
    ensures v == Counted <==> && IsListingLink(entry.link)
                              && CreatedAt(entry, localizeOffset).Some?
                              && w.start <= CreatedAt(entry, localizeOffset).value < w.end
  {
    if !IsListingLink(entry.link) {
      return Skipped;
    }
    var details := ScrapeListingPage(entry.page);
    if details.Raised? {
      return Failed(details.exc);
    }
    var parsed := ParseIso(details.value.createDate);
    if parsed.None? {
      return Skipped;
    }
    var localized := Localize(parsed.value, localizeOffset);
    if localized.Raised? {
      return Skipped;
    }
    var dt := localized.value;
    if w.start <= dt < w.end {
      return Counted;
    }
    return Skipped;
  }

  /** `count_listings_between` for a feed already fetched. The result is the entry-by-entry
      tally, and when nothing raises it is the number of entries counted. */
  method CountListingsBetween(entries: seq<FeedEntry>, w: Window, localizeOffset: int)
    returns (r: Result<nat>)
    ensures r == Tally(Verdicts(entries, w, localizeOffset))
    ensures r.Ok? ==> r.value == |CountedIndices(Verdicts(entries, w, localizeOffset))| <= |entries|
  {
    var count: nat := 0;
    var i := 0;
    while i < |entries|
      invariant 0 <= i <= |entries|
      invariant Tally(Verdicts(entries[..i], w, localizeOffset)) == Ok(count)
    {
      var v := JudgeEntry(entries[i], w, localizeOffset);
      CountStep(entries, i, w, localizeOffset, count, v);
      if v.Failed? {
        return Raised(v.exc);
      }
      if v == Counted {
        count := count + 1;
      }
      i := i + 1;
    }
    assert entries[..i] == entries;
    TallyCountsCounted(Verdicts(entries, w, localizeOffset));
    return Ok(count);
  }

  /** A skipped verdict can be inserted anywhere without changing the tally. */
  lemma {:induction false} SkippedVerdictIgnored(a: seq<Verdict>, b: seq<Verdict>)
    ensures Tally(a + [Skipped] + b) == Tally(a + b)
    decreases |a|
  {
    if |a| == 0 {
      assert a + [Skipped] + b == [Skipped] + b;
      assert ([Skipped] + b)[1..] == b;
      assert a + b == b;
    } else {
      SkippedVerdictIgnored(a[1..], b);
      assert (a + [Skipped] + b)[1..] == a[1..] + [Skipped] + b;
      assert (a + b)[1..] == a[1..] + b;
      assert (a + [Skipped] + b)[0] == a[0] == (a + b)[0];
    }
  }

  /** An entry that is skipped can be inserted anywhere in a feed without changing the count. */
  lemma SkippedEntryIgnored(a: seq<FeedEntry>, e: FeedEntry, b: seq<FeedEntry>, w: Window, localizeOffset: int)
    requires Classify(e, w, localizeOffset) == Skipped
    ensures Tally(Verdicts(a + [e] + b, w, localizeOffset)) == Tally(Verdicts(a + b, w, localizeOffset))
  {
    var va := Verdicts(a, w, localizeOffset);
    var vb := Verdicts(b, w, localizeOffset);
    assert Verdicts(a + [e] + b, w, localizeOffset) == va + [Skipped] + vb;
    assert Verdicts(a + b, w, localizeOffset) == va + vb;
    SkippedVerdictIgnored(va, vb);
  }

  /** Entries whose link is not a listing link are skipped. */
  lemma NonListingSkipped(e: FeedEntry, w: Window, localizeOffset: int)
    requires !IsListingLink(e.link)
    ensures Classify(e, w, localizeOffset) == Skipped
  {
  }

  /** A listing whose create date does not parse (such as `Unknown`) is skipped, not failed. */
  lemma UnparseableDateSkipped(e: FeedEntry, w: Window, localizeOffset: int)
    requires ScrapeListingPage(e.page).Ok?
    requires ParseIso(ScrapeListingPage(e.page).value.createDate).None?
    ensures Classify(e, w, localizeOffset) == Skipped
  {
  }

  /** The window is half-open: a listing stamped at its start is counted (unless localizing its
      stamp overflows), one at its end is not. */
  lemma WindowHalfOpen(e: FeedEntry, w: Window, localizeOffset: int, st: Stamp)
    requires w.start < w.end
    requires IsListingLink(e.link) && ScrapeListingPage(e.page).Ok?
    requires ParseIso(ScrapeListingPage(e.page).value.createDate) == Some(st)
    ensures InstantOf(st, localizeOffset) == w.start ==>
      (Classify(e, w, localizeOffset) == Counted <==> Localize(st, localizeOffset).Ok?)
    ensures InstantOf(st, localizeOffset) == w.end ==> Classify(e, w, localizeOffset) == Skipped
  {
  }

  /** A naive create date is read at `localizeOffset` and is skipped on the first and last days
      of the datetime range; an aware one keeps its own instant and is skipped when it or its
      reading in the zone leaves the range. Between those edges `localizeOffset` does not affect
      an aware date. */
  lemma StampInterpretation(e: FeedEntry, w: Window, off1: int, off2: int)
    requires IsListingLink(e.link) && ScrapeListingPage(e.page).Ok?
    requires ParseIso(ScrapeListingPage(e.page).value.createDate).Some?
    ensures var st := ParseIso(ScrapeListingPage(e.page).value.createDate).value;
      && (st.Aware? ==>
            (Classify(e, w, off1) == Counted <==>
               InDatetimeRange(st.instant) && InDatetimeRange(st.instant + off1)
               && w.start <= st.instant < w.end))
      && (st.Aware? && InDatetimeRange(st.instant + off1) && InDatetimeRange(st.instant + off2) ==>
            Classify(e, w, off1) == Classify(e, w, off2))
      && (st.Naive? ==>
            (Classify(e, w, off1) == Counted <==>
               MinutesPerDay <= st.wall < (LastOrdinal - 1) * MinutesPerDay
               && w.start <= st.wall - off1 < w.end))
  {
  }

  // ---------------------------------------------------------------------------------------
  // Report text
  // ---------------------------------------------------------------------------------------

  const ReportBullet: string := "• "
  const NewListingsOn: string := " sản phẩm mới ngày "
  const EmptyHeading: string := "📊 Báo cáo ngày "
  const NoShopsTracked: string := "Nhóm chưa theo dõi shop nào."
  const Heading: string := "📊 *Báo cáo ngày* "

  /** `f"• {shop}: {cnt} sản phẩm mới ngày {label}"`. */
  function ReportLine(shop: string, count: nat, tag: string): string {
    ReportBullet + shop + ": " + NatToString(count) + NewListingsOn + tag
  }

  /** The first line of a report. */
  function HeadingLine(tag: string, empty: bool): string {
    if empty then EmptyHeading + tag + ":" else Heading + tag + ":"
  }

  /** The report text for a group: the fixed no-shops text when there are no lines, otherwise
      the heading, a blank line, and the lines joined by line breaks. */
  function ReportText(tag: string, lines: seq<string>): string {
    if lines == [] then HeadingLine(tag, true) + "\n" + NoShopsTracked
    else HeadingLine(tag, false) + "\n\n" + Join(lines, '\n')
  }

  /** Neither heading holds a line break of its own. */
  lemma HeadingUnbroken(tag: string, empty: bool)
    requires '\n' !in tag
    ensures '\n' !in HeadingLine(tag, empty)
  {
    var fixed := if empty then EmptyHeading else Heading;
    assert forall i :: 0 <= i < |fixed| ==> fixed[i] != '\n';
    assert HeadingLine(tag, empty) == fixed + tag + ":";
  }

  /** Read line by line, a report for a group without shops is its heading and the no-shops
      text (for a label without line breaks). */
  lemma EmptyReportLines(tag: string)
    requires '\n' !in tag
    ensures Split(ReportText(tag, []), '\n') == [HeadingLine(tag, true), NoShopsTracked]
  {
    var h := HeadingLine(tag, true);
    HeadingUnbroken(tag, true);
    assert forall i :: 0 <= i < |NoShopsTracked| ==> NoShopsTracked[i] != '\n';
    assert ReportText(tag, []) == h + ['\n'] + NoShopsTracked;
    SplitFront(h, NoShopsTracked, '\n');
    assert Split(NoShopsTracked, '\n') == [NoShopsTracked];
  }

  /** Read line by line, a report for a group with shops is its heading, a blank line and
      exactly the given lines, in order (for a label and lines without line breaks). */
  lemma ReportLines(tag: string, lines: seq<string>)
    requires '\n' !in tag
    requires lines != []
    requires forall i :: 0 <= i < |lines| ==> '\n' !in lines[i]
    ensures Split(ReportText(tag, lines), '\n') == [HeadingLine(tag, false), ""] + lines
  {
    var h := HeadingLine(tag, false);
    assert ReportText(tag, lines) == h + ['\n'] + ([] + ['\n'] + Join(lines, '\n'));
    HeadingUnbroken(tag, false);
    SplitHeadBlank(h, lines, '\n');
    ConsTwo(h, "", lines);
  }

  /** A report line holds a line break only where the shop name or the label does. */
  lemma ReportLineUnbroken(shop: string, count: nat, tag: string)
    requires '\n' !in shop && '\n' !in tag
    ensures '\n' !in ReportLine(shop, count, tag)
  {
    var digits := NatToString(count);
    assert forall k :: 0 <= k < |digits| ==> IsDigit(digits[k]);
    assert forall k :: 0 <= k < |ReportBullet| ==> ReportBullet[k] != '\n';
    assert forall k :: 0 <= k < |NewListingsOn| ==> NewListingsOn[k] != '\n';
    assert ReportLine(shop, count, tag) == ReportBullet + shop + ": " + digits + NewListingsOn + tag;
  }

  /** The line for a shop holds its count in decimal, which reads back as the count. */
  lemma ReportLineCount(shop: string, count: nat, tag: string)
    ensures var line := ReportLine(shop, count, tag);
      var at := |ReportBullet + shop + ": "|;
      var digits := NatToString(count);
      && at + |digits| <= |line|
      && line[at..at + |digits|] == digits
      && ParseDigits(line[at..at + |digits|]) == count
  {
    var line := ReportLine(shop, count, tag);
    var at := |ReportBullet + shop + ": "|;
    assert line == (ReportBullet + shop + ": ") + NatToString(count) + (NewListingsOn + tag);
  }

  // ---------------------------------------------------------------------------------------
  // The daily summary
  // ---------------------------------------------------------------------------------------

  /** The report lines for a group's shops, in order, given each shop's count; the first shop
      whose count raises stops the report. */
  function ShopLines(shops: seq<string>, count: string -> Result<nat>, tag: string): (r: Result<seq<string>>)
    ensures r.Raised? <==> exists shop :: shop in shops && count(shop).Raised?
    ensures r.Ok? ==>
      && |r.value| == |shops|
      && forall i :: 0 <= i < |shops| ==> r.value[i] == ReportLine(shops[i], count(shops[i]).value, tag)
    decreases |shops|
  {
    if |shops| == 0 then Ok([])
    else
      var n :- count(shops[0]);
      var rest := ShopLines(shops[1..], count, tag);
      MembersOfTail(shops);
      if rest.Raised? then Raised(rest.exc)
      else
        var lines := [ReportLine(shops[0], n, tag)] + rest.value;
        assert forall i :: 1 <= i < |shops| ==> lines[i] == rest.value[i - 1] && shops[1..][i - 1] == shops[i];
        Ok(lines)
  }

  /** A non-empty sequence holds its head and what its tail holds. */
  lemma MembersOfTail<T>(s: seq<T>)
    requires |s| > 0
    ensures forall x :: x in s <==> x == s[0] || x in s[1..]
  {
    assert s == [s[0]] + s[1..];
  }

  /** `count_listings_between` for each shop, with the feeds, the window and the offset fixed. */
  function FeedCounter(feeds: string -> seq<FeedEntry>, w: Window, localizeOffset: int): (count: string -> Result<nat>)
    ensures forall shop :: count(shop) == Tally(Verdicts(feeds(shop), w, localizeOffset))
  {
    shop => Tally(Verdicts(feeds(shop), w, localizeOffset))
  }

  /** The text sent to one group, or the exception that stops the summary at that group. */
  function GroupReport(db: Db, chat: int, feeds: string -> seq<FeedEntry>, w: Window,
                       localizeOffset: int): (r: Result<string>)
    requires ValidDate(w.startDay)
    ensures r.Raised? <==> exists shop :: Subscribed(db, chat, shop)
                                         && Tally(Verdicts(feeds(shop), w, localizeOffset)).Raised?
    ensures ShopsForGroup(db, chat) == [] ==>
      r == Ok(HeadingLine(FormatDate(w.startDay), true) + "\n" + NoShopsTracked)
  {
    var lines := ShopLines(ShopsForGroup(db, chat), FeedCounter(feeds, w, localizeOffset), FormatDate(w.startDay));
    if lines.Raised? then Raised(lines.exc)
    else Ok(ReportText(FormatDate(w.startDay), lines.value))
  }

  /** When no count raises, a group with shops (none of whose names holds a line break) gets a
      report which, read line by line, is the heading with the window's date, a blank line, and one line per shop in the
      order the store lists them, each with that shop's count. */
  lemma GroupReportLines(db: Db, chat: int, feeds: string -> seq<FeedEntry>, w: Window, localizeOffset: int)
    requires ValidDate(w.startDay)
    requires ShopsForGroup(db, chat) != []
    requires forall shop :: Subscribed(db, chat, shop) ==>
      '\n' !in shop && Tally(Verdicts(feeds(shop), w, localizeOffset)).Ok?
    ensures GroupReport(db, chat, feeds, w, localizeOffset).Ok?
    ensures var text := Split(GroupReport(db, chat, feeds, w, localizeOffset).value, '\n');
      var shops := ShopsForGroup(db, chat);
      && |text| == |shops| + 2
      && text[0] == HeadingLine(FormatDate(w.startDay), false)
      && text[1] == ""
      && forall i :: 0 <= i < |shops| ==>
           text[i + 2] == ReportLine(shops[i], Tally(Verdicts(feeds(shops[i]), w, localizeOffset)).value,
                                     FormatDate(w.startDay))
  {
    var tag := FormatDate(w.startDay);
    var shops := ShopsForGroup(db, chat);
    var count := FeedCounter(feeds, w, localizeOffset);
    assert '\n' !in tag by {
      FormatDateChars(w.startDay);
    }
    assert forall i :: 0 <= i < |shops| ==> '\n' !in shops[i] by {
      forall i | 0 <= i < |shops| ensures '\n' !in shops[i] {
        assert shops[i] in shops;
      }
    }
    ShopReportLines(shops, count, tag);
  }

  /** Read line by line, a report built from the lines of one or more shops is the heading, a
      blank line, and one line per shop in order. */
  lemma ShopReportLines(shops: seq<string>, count: string -> Result<nat>, tag: string)
    requires ShopLines(shops, count, tag).Ok? && shops != []
    requires '\n' !in tag && forall i :: 0 <= i < |shops| ==> '\n' !in shops[i]
    ensures var text := Split(ReportText(tag, ShopLines(shops, count, tag).value), '\n');
      && |text| == |shops| + 2
      && text[0] == HeadingLine(tag, false)
      && text[1] == ""
      && forall i :: 0 <= i < |shops| ==> text[i + 2] == ReportLine(shops[i], count(shops[i]).value, tag)
  {
    var lines := ShopLines(shops, count, tag).value;
    forall i | 0 <= i < |lines| ensures '\n' !in lines[i] {
      ReportLineUnbroken(shops[i], count(shops[i]).value, tag);
    }
    ReportLines(tag, lines);
  }

  datatype Message = Message(chat: int, text: string)

  /** The messages sent, and the exception that ended the job early, if any. */
  datatype Summary = Summary(sent: seq<Message>, failure: Option<Exception>)

  /** The loop over the group ids, given the report each group gets: one message per group, in
      order, until a group's report raises. */
  function SendToGroups(chats: seq<int>, report: int -> Result<string>): (r: Summary)
    ensures |r.sent| <= |chats|
    ensures forall i :: 0 <= i < |r.sent| ==>
      r.sent[i].chat == chats[i] && report(chats[i]) == Ok(r.sent[i].text)
    ensures r.failure.None? <==> |r.sent| == |chats|
    ensures r.failure.Some? ==> report(chats[|r.sent|]) == Raised(r.failure.value)
    decreases |chats|
  {
    if |chats| == 0 then Summary([], None)
    else
      match report(chats[0])
      case Raised(exc) => Summary([], Some(exc))
      case Ok(text) =>
        var rest := SendToGroups(chats[1..], report);
        Summary([Message(chats[0], text)] + rest.sent, rest.failure)
  }

  /** `send_daily_summary` for the local date `today`. */
  function SendDailySummary(db: Db, today: Date, feeds: string -> seq<FeedEntry>,
                            windowOffset: int, localizeOffset: int): (r: Summary)
    requires ValidDate(today)
    ensures today == Date(MinYear, 1, 1) ==> r == Summary([], Some(OverflowError("date value out of range")))
    ensures r.failure.None? ==>
      && |r.sent| == |AllGroupIds(db)|
      && forall i :: 0 <= i < |r.sent| ==> r.sent[i].chat == AllGroupIds(db)[i]
    ensures today != Date(MinYear, 1, 1) ==>
      var w := GetPrevDayWindow(today, windowOffset).value;
      var ids := AllGroupIds(db);
      && |r.sent| <= |ids|
      && (forall i :: 0 <= i < |r.sent| ==>
            r.sent[i].chat == ids[i] && GroupReport(db, ids[i], feeds, w, localizeOffset) == Ok(r.sent[i].text))
      && (r.failure.None? <==> |r.sent| == |ids|)
      && (r.failure.Some? ==> GroupReport(db, ids[|r.sent|], feeds, w, localizeOffset) == Raised(r.failure.value))
  {
    match GetPrevDayWindow(today, windowOffset)
    case Raised(exc) => Summary([], Some(exc))
    case Ok(w) => SendToGroups(AllGroupIds(db), chat => GroupReport(db, chat, feeds, w, localizeOffset))
  }

  /** The report as written: window boundaries at pytz's +06:42, create dates localized at +07:00. */
  function DailySummaryAsWritten(db: Db, today: Date, feeds: string -> seq<FeedEntry>): (r: Summary)
    requires ValidDate(today)
    ensures r.failure.None? ==> |r.sent| == |AllGroupIds(db)|
  {
    SendDailySummary(db, today, feeds, LmtOffset, BangkokOffset)
  }

  /** The report as intended: both offsets +07:00. */
  function DailySummary(db: Db, today: Date, feeds: string -> seq<FeedEntry>): (r: Summary)
    requires ValidDate(today)
    ensures r.failure.None? ==> |r.sent| == |AllGroupIds(db)|
  {
    SendDailySummary(db, today, feeds, BangkokOffset, BangkokOffset)
  }

  /** When no followed shop's count raises, every group gets exactly its report, in the order of the group ids,
      and a group without shops gets the fixed no-shops text. */
  lemma SummaryOnePerGroup(db: Db, today: Date, feeds: string -> seq<FeedEntry>,
                           windowOffset: int, localizeOffset: int)
    requires ValidDate(today) && today != Date(MinYear, 1, 1)
    requires forall c, s :: Subscribed(db, c, s) ==>
      Tally(Verdicts(feeds(s), GetPrevDayWindow(today, windowOffset).value, localizeOffset)).Ok?
    ensures var r := SendDailySummary(db, today, feeds, windowOffset, localizeOffset);
      var w := GetPrevDayWindow(today, windowOffset).value;
      && r.failure == None
      && |r.sent| == |AllGroupIds(db)|
      && (forall i :: 0 <= i < |r.sent| ==> r.sent[i].chat == AllGroupIds(db)[i])
      && (forall i :: 0 <= i < |r.sent| && ShopsForGroup(db, r.sent[i].chat) == [] ==>
            r.sent[i].text == HeadingLine(FormatDate(w.startDay), true) + "\n" + NoShopsTracked)
  {
    var w := GetPrevDayWindow(today, windowOffset).value;
    var r := SendDailySummary(db, today, feeds, windowOffset, localizeOffset);
    forall c ensures GroupReport(db, c, feeds, w, localizeOffset).Ok? {
    }
  }

  // ---------------------------------------------------------------------------------------
  // Which calendar day is counted
  // ---------------------------------------------------------------------------------------

  /** A listing whose page gives the bare create date `d` (the `YYYY-MM-DD` the client keeps). */
  predicate DatedListing(e: FeedEntry, d: Date)
    requires ValidDate(d)
  {
    && IsListingLink(e.link)
    && ScrapeListingPage(e.page).Ok?
    && ScrapeListingPage(e.page).value.createDate == FormatDate(d)
  }

  /** A listing with the bare date `d`, read at +07:00, is counted exactly when `d` is neither
      the first nor the last day of the datetime range (where localizing overflows) and `d`'s
      midnight lies in the window. */
  lemma DatedListingInstant(e: FeedEntry, d: Date, w: Window)
    requires ValidDate(d) && DatedListing(e, d)
    ensures Classify(e, w, BangkokOffset) == Counted
            <==> d != FirstDate && d != LastDate && w.start <= MidnightMinutes(d) - BangkokOffset < w.end
  {
    ParseIsoDate(d);
    LocalizeBareDate(d, BangkokOffset);
  }

  /** As written, the report labelled with yesterday's date counts the listings dated today:
      a bare create date `d` is counted exactly when `d` is `today` (and not 9999-12-31, whose
      localizing overflows). */
  lemma AsWrittenCountsToday(today: Date, e: FeedEntry, d: Date)
    requires ValidDate(today) && today != Date(MinYear, 1, 1)
    requires ValidDate(d) && DatedListing(e, d)
    ensures Classify(e, GetPrevDayWindow(today, LmtOffset).value, BangkokOffset) == Counted
            <==> d == today && d != LastDate
  {
    var w := GetPrevDayWindow(today, LmtOffset).value;
    DatedListingInstant(e, d, w);
    PrevDayOrdinal(today);
    var x := Ordinal(d) - Ordinal(today);
    assert w.start == (Ordinal(today) - 2) * MinutesPerDay - LmtOffset;
    assert w.end == (Ordinal(today) - 1) * MinutesPerDay - LmtOffset;
    assert MidnightMinutes(d) - BangkokOffset == (Ordinal(d) - 1) * MinutesPerDay - BangkokOffset;
    assert w.start <= MidnightMinutes(d) - BangkokOffset < w.end <==> x == 0;
    if x == 0 {
      OrdinalInjective(d, today);
    }
  }

  /** As written, a listing dated with the report's own label (yesterday) is never counted,
      whatever the date: on 2024-05-02, a listing dated 2024-05-01 is missing from the report
      labelled 2024-05-01. */
  lemma AsWrittenMissesYesterday(today: Date, e: FeedEntry)
    requires ValidDate(today) && today != Date(MinYear, 1, 1)
    requires DatedListing(e, GetPrevDayWindow(today, LmtOffset).value.startDay)
    ensures Classify(e, GetPrevDayWindow(today, LmtOffset).value, BangkokOffset) == Skipped
  {
    var w := GetPrevDayWindow(today, LmtOffset).value;
    AsWrittenCountsToday(today, e, w.startDay);
    assert w.startDay != today;
  }

  /** With both offsets +07:00, the report labelled with yesterday's date counts exactly the
      listings dated yesterday (except 0001-01-01, whose localizing overflows). */
  lemma CorrectedCountsYesterday(today: Date, e: FeedEntry, d: Date)
    requires ValidDate(today) && today != Date(MinYear, 1, 1)
    requires ValidDate(d) && DatedListing(e, d)
    ensures var w := GetPrevDayWindow(today, BangkokOffset).value;
      Classify(e, w, BangkokOffset) == Counted <==> d == w.startDay && d != FirstDate
  {
    var w := GetPrevDayWindow(today, BangkokOffset).value;
    WindowBounds(today, BangkokOffset);
    DatedListingInstant(e, d, w);
    MidnightInDay(d, w.startDay, BangkokOffset, w.start);
    PrevDayNotLast(today);
  }

  /** The window of `today` starts at yesterday's midnight read at `windowOffset` and lasts a day. */
  lemma WindowBounds(today: Date, windowOffset: int)
    requires ValidDate(today) && today != Date(MinYear, 1, 1)
    ensures var w := GetPrevDayWindow(today, windowOffset).value;
      && w.startDay == PrevDay(today).value
      && w.start == (Ordinal(w.startDay) - 1) * MinutesPerDay - windowOffset
      && w.end == w.start + MinutesPerDay
  {
    PrevDayOrdinal(today);
  }

  /** Midnight of `d`, read at an offset, falls in the day starting at midnight of `day` read at
      the same offset exactly when `d` is `day`. */
  lemma MidnightInDay(d: Date, day: Date, offset: int, start: int)
    requires ValidDate(d) && ValidDate(day)
    requires start == (Ordinal(day) - 1) * MinutesPerDay - offset
    ensures start <= MidnightMinutes(d) - offset < start + MinutesPerDay <==> d == day
  {
    if start <= MidnightMinutes(d) - offset < start + MinutesPerDay {
      assert Ordinal(d) == Ordinal(day);
      OrdinalInjective(d, day);
    }
  }
}
