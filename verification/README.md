# TeleBot daily-report core in Dafny

TeleBot is a Telegram bot. Group chats follow Etsy shops. Every morning the bot posts a report
to each group: how many new listings each shop it follows created on the previous day. This
project models the sequential logic behind that, as pure functions over immutable data, and
proves properties of it:

- **Poller**: the daily job (`src/poller/poller.py`). It covers the previous-day window, the
  count of a shop's feed entries created inside it, and the one report text per group.
- **Client**: the extraction logic of the storefront client (`src/api/client.py`). It covers the
  listing id and publication date of the newest feed entry, and the create date, price,
  currency and thumbnail read off a listing page, with their fallbacks and defaults.
- **Handlers**: the chat commands `/start`, `/follow`, `/unfollow` and `/list`
  (`src/bot/handlers.py`). Each is a function returning the store effect and the reply text.
- **Postgres**: the subscription store (`src/db/postgres.py`). It is a state machine over the
  three tables `groups`, `shops` and `group_subscriptions`, and each query is given its
  relational meaning.

Support modules:

- **Wrappers**: `Option`, and `Result`, which is a value or a raised Python exception.
- **Text**: `strip`, `split`, `join`, `rstrip` and decimal digits.
- **Calendar**: proleptic Gregorian dates with Python's `toordinal`, the previous day, and
  `YYYY-MM-DD`.
- **IsoTime**: instants as integer minutes with explicit UTC offsets, and the part of
  `datetime.fromisoformat` that listing dates reach.

Time is modelled as integer minutes since 0001-01-01 00:00 UTC. A wall-clock reading at a
fixed UTC offset denotes the instant `wall - offset`. Two offsets are kept apart:

- **The window offset.** `datetime.combine(day, time(0, 0), tzinfo=TZ)` attaches pytz's zone
  object directly. That object carries the zone's first offset, which is local mean time
  +06:42 (402 minutes).
- **The localize offset.** `TZ.localize(dt)` applies the present-day offset of Asia/Bangkok,
  +07:00 (420 minutes).

The model keeps both offsets as parameters. `Poller.DailySummaryAsWritten` instantiates them
as the code does (402, 420). `Poller.DailySummary` uses the intended +07:00 for both (see
Findings).

The database schema is not part of the repository. The uniqueness constraints that the
`ON CONFLICT` clauses rely on are stated as the invariant `Postgres.Valid`:

- unique `groups.chat_id`;
- unique `shops.shop_name`;
- a unique `(group_id, shop_name)` pair in `group_subscriptions`;
- serial ids below the next value;
- every subscription naming an existing group.

A serial column draws its next value even when the insert then hits `ON CONFLICT DO NOTHING`.
The id counters therefore advance on every insert attempt. Idempotence is stated on the
visible tables (`SameTables`), not on the counters.

## Model

| member | source | states |
|---|---|---|
| Poller.GetPrevDayWindow | src/poller/poller.py:14-18 | Raises OverflowError exactly on 0001-01-01. Otherwise the start day is the valid date before today. Start and end are local midnights (minute 0) of yesterday and today at the window offset, exactly one day apart, start < end. |
| Poller.Tally | src/poller/poller.py:25-43 | The entry-by-entry count raises exactly when some entry's verdict is a failure. Otherwise it is at most the number of entries. |
| Poller.TallyAppend | src/poller/poller.py:25-43 | A run without failures can be counted on its own, and its count adds to the count of whatever follows. |
| Poller.TallyStopsAt | src/poller/poller.py:29 | If entry i is the first whose scrape raises, the whole count raises that exception. |
| Poller.TallyStep | src/poller/poller.py:40-41 | A non-failing verdict raises the count by one exactly when it is Counted. |
| Poller.TallyCountsCounted | src/poller/poller.py:25-43 | A count that does not raise equals the number of positions judged Counted. |
| Poller.CountStep | src/poller/poller.py:27-41 | One turn of the loop: a failing entry makes the whole feed's count raise its exception, and any other entry extends the prefix count by one exactly when it is Counted. |
| Poller.JudgeEntry | src/poller/poller.py:26-41 | A non-listing link is skipped. The verdict is a failure exactly when the page scrape raises, and then carries that exception. The entry is counted exactly when its create date parses and localizes to an instant inside the window. |
| Poller.CountListingsBetween | src/poller/poller.py:20-43 | The loop returns the entry-by-entry count, raising the first scrape exception. Without one, it is the number of entries judged Counted, at most the number of entries. |
| Poller.SkippedVerdictIgnored | src/poller/poller.py:27-28 | Inserting a skipped verdict anywhere leaves the count unchanged. |
| Poller.SkippedEntryIgnored | src/poller/poller.py:27-38 | Inserting a skipped feed entry anywhere leaves the count unchanged, so an unparseable entry never aborts the loop. |
| Poller.NonListingSkipped | src/poller/poller.py:27-28 | An entry whose link lacks "/listing/" is skipped. |
| Poller.UnparseableDateSkipped | src/poller/poller.py:30-38 | A create date that does not parse (such as "Unknown") makes the entry skipped, not failed. |
| Poller.WindowHalfOpen | src/poller/poller.py:31-40 | A listing at the window end is never counted. One at the window start is counted exactly when localizing its create date does not overflow. |
| Poller.StampInterpretation | src/poller/poller.py:31-40 | An aware create date is counted exactly when its instant is in the window and neither its UTC reading nor its zone reading leaves the datetime range. Between those edges the localize offset does not matter. A naive one is counted exactly when it is not on 0001-01-01 or 9999-12-31 and wall minus localize offset lies in the window. |
| Poller.ReportLineUnbroken | src/poller/poller.py:56 | A shop line contains a line break only if the shop name or label does. |
| Poller.EmptyReportLines | src/poller/poller.py:58-59 | Read line by line, the no-shops report is the heading with the label, then the fixed no-shops text. |
| Poller.ReportLines | src/poller/poller.py:60-61 | Read line by line, a report with shop lines is the heading, a blank line, then exactly the given lines in order. |
| Poller.ReportLineCount | src/poller/poller.py:56 | The shop's line holds, after "• shop: ", the count in decimal, which reads back as the count. |
| Poller.ShopLines | src/poller/poller.py:53-56 | One line per shop in order, each with that shop's count. The report raises exactly when some shop's count raises. |
| Poller.GroupReport | src/poller/poller.py:52-61 | A group's report raises exactly when the count of one of its subscribed shops raises. A group without shops gets the fixed no-shops text. |
| Poller.ShopReportLines | src/poller/poller.py:53-61 | For one or more shops, the report splits into the heading, a blank line, and each shop's line with its count, in order. |
| Poller.GroupReportLines | src/poller/poller.py:52-61 | For a group with shops whose counts all succeed, the report is produced. Its text splits into the heading with the window's date, a blank line, and one line per subscribed shop in store order, each with that shop's count. |
| Poller.SendToGroups | src/poller/poller.py:51-63 | One message per group id, in order, each carrying that group's report. It stops at the first group whose report raises, and that exception is the failure. |
| Poller.SendDailySummary | src/poller/poller.py:45-63 | On 0001-01-01 it sends nothing and fails with OverflowError. Otherwise it sends each group's own report, in the order the ids are returned. It stops exactly at the first group whose report raises, and fails with that group's exception. Without a failure every group gets its message. |
| Poller.SummaryOnePerGroup | src/poller/poller.py:45-63 | When no followed shop's count raises, every group gets its message, in id order, and a group without shops gets the fixed no-shops text. |
| Poller.WindowBounds | src/poller/poller.py:16-17 | The window starts at midnight of the day before today, read at the window offset, and lasts one day. |
| Poller.MidnightInDay | src/poller/poller.py:40 | A date's midnight lies in the day-long window starting at another date's midnight exactly when the two dates are the same. |
| Poller.DatedListingInstant | src/poller/poller.py:31-40 | A listing with the bare create date d is counted exactly when d is neither 0001-01-01 nor 9999-12-31 (where localize overflows) and d's midnight at +07:00 lies in the window. |
| Poller.AsWrittenCountsToday | src/poller/poller.py:16-17 | With the boundaries at +06:42 and dates localized at +07:00, a bare create date is counted exactly when it is today, and today is not 9999-12-31. |
| Poller.AsWrittenMissesYesterday | src/poller/poller.py:16-17 | As written, a listing dated with the report's own label (yesterday) is never counted. |
| Poller.CorrectedCountsYesterday | src/poller/poller.py:16-17 | With both offsets +07:00, a bare create date is counted exactly when it is the report's label day, and that day is not 0001-01-01. |
| Poller.DailySummaryAsWritten | src/poller/poller.py:12-17 | The job with pytz's offsets: boundaries at +06:42, dates localized at +07:00. Without failure, one message per group. |
| Poller.DailySummary | src/poller/poller.py:12-17 | The job with both offsets +07:00. Without failure, one message per group. |
| Client.DatePart | src/api/client.py:30 | The date part is a prefix of the value and contains no 'T'. |
| Client.ContentOr | src/api/client.py:43-45 | A missing tag gives the default, and a tag with content gives the content. A tag without content raises KeyError, and nothing else raises. |
| Client.ScrapeListingPage | src/api/client.py:20-47 | Raises exactly when a price, currency or image tag lacks content. Otherwise the four fields have a create date that is non-empty and has no 'T'. |
| Client.ScrapeDefaults | src/api/client.py:42-47 | Missing tags give price "?", currency "", thumbnail None, and create date "Unknown" when no date route applies. Present ones are copied. |
| Client.TimeTagPreferred | src/api/client.py:28-32 | A non-empty date from the time tag is the create date, and the meta tags are then not consulted. |
| Client.MetaFallbackOrder | src/api/client.py:32-36 | When the time route gives nothing or "", original_publish_date is used if present. published_time is used only when original_publish_date is absent. |
| Client.CreateDateProvenance | src/api/client.py:26-46 | The create date is "Unknown" or the date part of one of the three date attributes. |
| Client.ListingLinkHasTwoSegments | src/api/client.py:13 | For a link with "/listing/", the rstripped link splits into at least two pieces, so index -2 exists. |
| Client.ListingId | src/api/client.py:13 | A listing link's id contains no '/'. Any other link gives the entry id. |
| Client.ListingIdSecondToLast | src/api/client.py:13 | For a listing link a/x/y whose last two pieces hold no '/', the id is x. |
| Client.ListingIdOfSluggedLink | src/api/client.py:13 | `.../listing/<id>/<slug>` yields `<id>`. |
| Client.ListingIdOfBareLink | src/api/client.py:13 | `.../listing/<id>` with no slug yields the word "listing". |
| Client.PubDate | src/api/client.py:14-17 | "Unknown" when the attribute is not a tuple. AttributeError when the attribute is absent. ValueError for a tuple with an out-of-range field. No other case raises. |
| Client.PubDateReadsBack | src/api/client.py:15 | A formatted pub date parses back through fromisoformat as the tuple's wall-clock minute, with seconds dropped. |
| Client.FetchLatestFromRss | src/api/client.py:6-18 | None exactly for an empty feed. Raises exactly when the first entry has no publish attribute, or has a time tuple with an out-of-range field. Otherwise it carries the first entry's link, title, listing id and pub date. |
| Client.LatestIgnoresLaterEntries | src/api/client.py:9-11 | Entries after the first never change the result. |
| Handlers.CmdStart | src/bot/handlers.py:9-17 | /start always registers the chat's group. |
| Handlers.CmdFollow | src/bot/handlers.py:19-25 | A blank argument gives the usage text and no effect, and only a blank one does. Otherwise it subscribes the stripped name, and the reply holds that name. |
| Handlers.CmdUnfollow | src/bot/handlers.py:27-33 | A blank argument gives the usage text and no effect, and only a blank one does. Otherwise it unsubscribes the stripped name, and the reply holds that name. |
| Handlers.Bullets | src/bot/handlers.py:40 | One "• s" line per shop, in order. |
| Handlers.ListText | src/bot/handlers.py:38-40 | The fixed "nothing followed" text is sent exactly when there are no shops. |
| Handlers.CmdList | src/bot/handlers.py:35-41 | No store effect. The nothing-followed text is sent exactly when the chat follows no shop. |
| Handlers.ListTextLines | src/bot/handlers.py:40 | Read line by line, a non-empty list reply is the header followed by one bullet per shop, in order. |
| Handlers.StartRegisters | src/bot/handlers.py:10-11 | After /start the chat is among the group ids, and no subscription changes. |
| Handlers.BlankArgumentsChangeNothing | src/bot/handlers.py:20-22 | Blank /follow and /unfollow leave the store exactly as it was. |
| Handlers.FollowThenListed | src/bot/handlers.py:20-25 | After /follow name, /list shows the stripped name, and exactly that pair was added. |
| Handlers.UnfollowThenNotListed | src/bot/handlers.py:28-33 | After /unfollow name, the name is not listed, exactly that pair was removed, and the shops are unchanged. |
| Postgres.EmptyDbValid | src/db/postgres.py:7-62 | A fresh database satisfies the schema invariant. |
| Postgres.GroupIdOf | src/db/postgres.py:56 | The group-id subquery is non-NULL exactly when the chat has a group row, and it names such a row. |
| Postgres.ShopIdOf | src/db/postgres.py:39-41 | The shop-id query finds a row exactly when the name is present, and it names such a row. |
| Postgres.GroupIdOfUnique | src/db/postgres.py:56 | Under unique chat ids, the subquery returns the id of the chat's row. |
| Postgres.AddGroup | src/db/postgres.py:7-19 | Afterwards the chat is registered, and exactly one chat is added. For a registered chat no table changes. Shops and subscriptions are untouched, and the invariant is kept. |
| Postgres.AddShop | src/db/postgres.py:21-42 | The returned id is the id the name's row has. Exactly that name is added, and an existing name keeps its id with no table change. A new name's id differs from every existing id. The invariant is kept. |
| Postgres.AddShopSameId | src/db/postgres.py:21-42 | add_shop twice returns the same id, and the second call changes no table. |
| Postgres.AddGroupIdempotent | src/db/postgres.py:14-16 | add_group twice leaves the tables as add_group once. |
| Postgres.Subscribe | src/db/postgres.py:44-62 | Afterwards the group and shop exist and the pair is subscribed. Only that chat and shop name are added, and the invariant is kept. |
| Postgres.SubscribeIdempotent | src/db/postgres.py:44-62 | subscribe_group twice leaves the tables as subscribe_group once. |
| Postgres.SubscribeEffect | src/db/postgres.py:44-62 | On a valid store, subscribe adds exactly the (chat, shop) pair to the subscription relation. |
| Postgres.AddGroupKeepsSubscriptions | src/db/postgres.py:7-19 | add_group changes no subscription. |
| Postgres.AddSubRowEffect | src/db/postgres.py:52-61 | Inserting the pair row adds exactly that pair to the subscription relation. |
| Postgres.RemoveSub | src/db/postgres.py:71-73 | Deleting keeps exactly the rows other than the pair, and keeps rows unique. |
| Postgres.Unsubscribe | src/db/postgres.py:64-76 | The groups and shops tables and the id counters are unchanged, and the invariant is kept. |
| Postgres.UnsubscribeEffect | src/db/postgres.py:64-76 | On a valid store, unsubscribe removes exactly the (chat, shop) pair from the subscription relation. |
| Postgres.UnsubscribeAbsent | src/db/postgres.py:64-76 | Removing a pair that is not subscribed changes nothing. |
| Postgres.RemoveSubNoop | src/db/postgres.py:71-73 | Deleting an absent row leaves the table unchanged. |
| Postgres.JoinOne | src/db/postgres.py:87 | The joined rows of one subscription are exactly its group rows. |
| Postgres.JoinAll | src/db/postgres.py:86-87 | The join holds exactly the joined rows of some subscription. |
| Postgres.JoinedIff | src/db/postgres.py:86-88 | A (chat, shop) row is in the join exactly when the pair is subscribed. |
| Postgres.ShopsWhereChat | src/db/postgres.py:85-88 | The selected shop names are exactly those joined with the chat. |
| Postgres.ChatsWhereShop | src/db/postgres.py:109-112 | The selected chat ids are exactly those joined with the shop. |
| Postgres.ShopsForGroup | src/db/postgres.py:78-92 | A shop is listed exactly when the chat is subscribed to it. |
| Postgres.GroupsForShop | src/db/postgres.py:102-116 | A chat is listed exactly when it is subscribed to the shop. |
| Postgres.ShopsGroupsDual | src/db/postgres.py:78-116 | s is among the chat's shops exactly when the chat is among s's groups. |
| Postgres.AllShops | src/db/postgres.py:94-100 | Every shop name, in table order; a name is listed exactly when the shops table has it. |
| Postgres.AllGroupIds | src/db/postgres.py:118-124 | Every chat id, in table order; a chat is listed exactly when the groups table has it. |
| Postgres.GroupsPersist | src/db/postgres.py:7-124 | A registered chat stays among the group ids after any add_group, add_shop, subscribe or unsubscribe. |
| Postgres.ShopsPersist | src/db/postgres.py:64-100 | get_all_shops is unchanged by unsubscribing, so a shop stays listed after its subscriptions go. |
| Calendar.PrevDayOrdinal | src/poller/poller.py:16 | `today - timedelta(days=1)` raises exactly on 0001-01-01. Otherwise it is the valid date whose ordinal is one less. |
| Calendar.DaysBeforeYearFormula | src/poller/poller.py:16-17 | The year-by-year count of days equals Python's closed form p*365 + p/4 - p/100 + p/400. |
| Calendar.DaysBeforeMonthTable | src/poller/poller.py:16-17 | The month count equals Python's days-before-month table plus the leap day. |
| Calendar.OrdinalMonotone | src/poller/poller.py:16-17 | Earlier dates have smaller ordinals. |
| Calendar.OrdinalInjective | src/poller/poller.py:16-17 | Distinct valid dates have distinct ordinals. |
| Calendar.FirstOrdinal | src/poller/poller.py:16 | Every date has ordinal at least 1, and only 0001-01-01 has ordinal 1. |
| Calendar.LastOrdinalBound | src/poller/poller.py:34 | Every date has ordinal at most 3652059, Python's `date.max.toordinal()`, and only 9999-12-31 reaches it. |
| Calendar.PrevDayNotLast | src/poller/poller.py:16 | The day before a date is never 9999-12-31. |
| Calendar.ParseDateFormat | src/poller/poller.py:32 | The date part of fromisoformat accepts exactly the formatted valid dates and reads each back as itself. |
| Calendar.FormatDate | src/poller/poller.py:48 | strftime("%Y-%m-%d") gives ten characters. |
| Calendar.FormatDateChars | src/poller/poller.py:48 | A formatted date holds only ASCII digits and dashes. |
| IsoTime.InstantOf | src/poller/poller.py:33-36 | A naive stamp is read at the localize offset, and an aware one keeps its instant. |
| IsoTime.Localize | src/poller/poller.py:33-38 | When localizing does not overflow, the result is the stamp's instant: a naive reading taken at the localize offset, an aware one unchanged. |
| IsoTime.LocalizeBareDate | src/poller/poller.py:33-38 | A bare date fails to localize exactly when it is 0001-01-01 or 9999-12-31, and the entry is then skipped. |
| IsoTime.LocalizeInside | src/poller/poller.py:33-34 | Any wall-clock reading on a day strictly inside the range localizes to wall minus the localize offset. |
| IsoTime.LocalMidnight | src/poller/poller.py:16-17 | Local midnight of d falls on d's ordinal at minute 0 of the day. |
| IsoTime.ParseFormatClock | src/api/client.py:15 | "%H:%M" parses back to the same hour and minute. |
| IsoTime.ParseIso | src/poller/poller.py:32 | A parse succeeds only with a valid leading date. For a ten-character text it succeeds exactly when the date is valid. |
| IsoTime.ParseIsoDate | src/api/client.py:30 | A bare date parses to naive midnight of that day. |
| IsoTime.ParseIsoDateTime | src/api/client.py:15 | "YYYY-MM-DD HH:MM" parses to the naive wall-clock minute. |
| IsoTime.ParseIsoRejectsShort | src/poller/poller.py:32-38 | A text shorter than a date, such as "Unknown", does not parse. |
| Text.Strip | src/bot/handlers.py:20 | strip() is empty exactly for all-whitespace text, and otherwise neither starts nor ends with whitespace. |
| Text.StripRemovesPadding | src/bot/handlers.py:20 | strip() removes exactly the surrounding whitespace. |
| Text.StripIdempotent | src/bot/handlers.py:20 | strip() twice is strip() once. |
| Text.Split | src/api/client.py:13 | split gives at least one piece, none holding the separator, and exactly one piece when the separator is absent. |
| Text.JoinSplit | src/api/client.py:13 | Joining the pieces of a split gives the text back. |
| Text.SplitJoin | src/poller/poller.py:61 | Splitting a join of separator-free pieces gives the pieces back. |
| Text.SplitBack | src/api/client.py:13 | The text after a last separator is the last piece of the split. |
| Text.RStrip | src/api/client.py:13 | rstrip keeps a prefix that does not end in the character, and drops only that character. |
| Text.NatToString | src/poller/poller.py:56 | The decimal rendering of the count is non-empty digits that read back as the count. |
| Text.PadDigits | src/poller/poller.py:48 | Zero-padded rendering has the given width and reads back as the number. |
| Text.PadParseDigits | src/poller/poller.py:48 | Rendering a digit string's value at its width gives the string back. |

## Left out

- Network and parsing I/O: `feedparser.parse`, the aiohttp request and BeautifulSoup. A feed is the sequence of its entries. A listing page is the result of the six `find` lookups the code makes, each an optional tag with an optional attribute.
- feedparser's AttributeError for an entry without `link`, `id` or `title`: an entry always has all three here. An absent `published_parsed` is modelled (Client.PubDate).
- The asyncpg pool and the SQL engine: only the relational meaning of each statement is modelled.
- SQL row order: queries return rows in table order, which is one order the database may choose.
- Telegram sending: a message is the (chat, text) pair in the result. A failed send, or Telegram rejecting the Markdown of a shop name, is not modelled.
- Redis, the environment settings, the APScheduler job at 07:00 and the event loop (src/poller/poller.py:65-69). src/bot/bot.py and test_fetch.py are not part of this model.
- The clock: today's local date is a parameter.
- The tz database: the two offsets are fixed integers, +06:42 for `tzinfo=TZ` and +07:00 for `TZ.localize`. Historical changes of Asia/Bangkok's offset are not modelled. The OverflowError that pytz raises at the ends of the datetime range is modelled (IsoTime.Localize). localize looks one day before and one day after the reading, so it fails on the first and last days. astimezone fails when the UTC reading or the zone reading leaves the range.
- The Telegram message and reply texts are fixed constants, copied as they are written.
- Markdown parsing of replies: not modelled.
- IsoTime.ParseIso: a partial fromisoformat. It covers `YYYY-MM-DD`, `YYYY-MM-DD?HH:MM` and the same with a `±HH:MM` offset. Other shapes Python accepts (seconds, fractions, `Z`, compact forms) are treated as unparseable and skipped. The client cuts a create date at the first 'T' only. A value with a space separator and seconds, such as "2024-05-01 10:00:00+07:00", reaches fromisoformat whole. Python counts it by its instant, and the model skips it.
- Calendar.FormatDate: `%Y` is written with four digits. This agrees with CPython for years 1000-9999 only; years below 1000 are outside any listing date.
- Client.PubDate: the formatted date is stated through its read-back (Client.PubDateReadsBack), not character by character.
- Client.ScrapeListingPage: src/api/client.py:33 ends in a backslash followed by a space, which Python does not accept as a line continuation. The model takes the evident two-line `or` expression.
- Client.ScrapeListingPage: bs4 tags are taken as always truthy once found. The source relies on that in its `or` between the two meta lookups.
- Calendar.DaysBeforeYear: counted year by year rather than by Python's closed form. Calendar.DaysBeforeYearFormula proves the two agree.
- Postgres.AddGroup: idempotence holds for the tables, not the serial counter. A conflicting insert still consumes a sequence value.

## Findings

| source | as written | input that shows it | evidently intended | confidence | as-written member | corrected member |
|---|---|---|---|---|---|---|
| src/poller/poller.py:16-17 | The window bounds are built with `tzinfo=TZ`, which under pytz is local mean time +06:42. Create dates are localized at +07:00. The 18-minute shift moves every bare date's midnight into the next day's window. | today = 2024-05-02, a listing whose page gives create date 2024-05-01: it is not counted in the report labelled 2024-05-01, while one dated 2024-05-02 is. | Bounds at +07:00 (`TZ.localize(datetime.combine(...))`), so the report labelled yesterday counts the listings dated yesterday. | not executed | Poller.AsWrittenMissesYesterday | Poller.CorrectedCountsYesterday |
