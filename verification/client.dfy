/** The extraction logic of the storefront client (src/api/client.py): what
    `fetch_latest_from_rss` reports about a shop's newest feed entry, and what
    `scrape_listing_page` reads off a listing page.

    The network and the parsers are not modelled: a feed is the sequence of its entries, and
    a listing page is the result of the BeautifulSoup lookups the code performs on it. */
module Client {
  import opened Wrappers
  import opened Text
  import opened Calendar
  import opened IsoTime

  // ---------------------------------------------------------------------------------------
  // Listing pages
  // ---------------------------------------------------------------------------------------

  /** A tag `soup.find` returned, reduced to the one attribute the code reads from it
      (`datetime` on a `<time>` tag, `content` on a `<meta>` tag); None when the tag lacks it. */
  datatype Tag = Tag(attr: Option<string>)

  /** The lookups `scrape_listing_page` makes on a page; None where `find` found no tag. */
  datatype ListingPage = ListingPage(
    time: Option<Tag>,                 // the first <time>
    originalPublishDate: Option<Tag>,  // <meta property="etsym:original_publish_date">
    publishedTime: Option<Tag>,        // <meta property="article:published_time">
    priceAmount: Option<Tag>,          // <meta property="og:price:amount">
    priceCurrency: Option<Tag>,        // <meta property="og:price:currency">
    image: Option<Tag>                 // <meta property="og:image">
  )

  /** The four-key dictionary `scrape_listing_page` returns. */
  datatype ListingDetails = ListingDetails(
    price: string, currency: string, thumbnail: Option<string>, createDate: string)

  const UnknownDate: string := "Unknown"
  const UnknownPrice: string := "?"
  const NoCurrency: string := ""

  /** `value.split('T')[0]`: the date part of an ISO date-time. */
  function DatePart(value: string): (r: string)
    ensures 'T' !in r
    ensures |r| <= |value| && r == value[..|r|]
  {
    BeforeFirst(value, 'T')
  }

  /** The create date read from the `<time datetime=...>` tag, if the page has one with that attribute. */
  function TimeTagDate(page: ListingPage): Option<string> {
    if page.time.Some? && page.time.value.attr.Some? then Some(DatePart(page.time.value.attr.value))
    else None
  }

  /** The fallback `<meta>` tag: `etsym:original_publish_date` if the page has it, else
      `article:published_time` (a found tag is always truthy, so `or` only moves on when the
      first `find` returned nothing). */
  function FallbackMeta(page: ListingPage): Option<Tag> {
    if page.originalPublishDate.Some? then page.originalPublishDate else page.publishedTime
  }

  /** `create_date` just before the defaults are applied: the time-tag route, replaced by the
      meta route when the time-tag route gave nothing or an empty string and the fallback tag
      has content. */
  function RawCreateDate(page: ListingPage): Option<string> {
    var fromTime := TimeTagDate(page);
    if fromTime.Some? && fromTime.value != [] then fromTime
    else
      var meta := FallbackMeta(page);
      if meta.Some? && meta.value.attr.Some? then Some(DatePart(meta.value.attr.value))
      else fromTime
  }

  /** `tag['content'] if tag else default`, which raises KeyError for a tag without content. */
  function ContentOr(tag: Option<Tag>, default: string): (r: Result<string>)
    ensures r.Raised? <==> tag.Some? && tag.value.attr.None?
    ensures tag.None? ==> r == Ok(default)
    ensures tag.Some? && tag.value.attr.Some? ==> r == Ok(tag.value.attr.value)
  {
    match tag
    case None => Ok(default)
    case Some(Tag(None)) => Raised(KeyError("content"))
    case Some(Tag(Some(v))) => Ok(v)
  }

  /** A meta tag present without content. */
  predicate LacksContent(tag: Option<Tag>) {
    tag.Some? && tag.value.attr.None?
  }

  /** `scrape_listing_page` after the page has been fetched and parsed. */
  function ScrapeListingPage(page: ListingPage): (r: Result<ListingDetails>)
    ensures r.Raised? <==> LacksContent(page.priceAmount) || LacksContent(page.priceCurrency)
                            || LacksContent(page.image)
    ensures r.Ok? ==> r.value.createDate != [] && 'T' !in r.value.createDate
  {
    var price :- ContentOr(page.priceAmount, UnknownPrice);
    var currency :- ContentOr(page.priceCurrency, NoCurrency);
    var thumbnail :- match page.image
      case None => Ok(None)
      case Some(Tag(None)) => Raised(KeyError("content"))
      case Some(Tag(Some(v))) => Ok(Some(v));
    var raw := RawCreateDate(page);
    Ok(ListingDetails(price, currency, thumbnail,
                      if raw.None? || raw.value == [] then UnknownDate else raw.value))
  }

  /** Missing tags fall back to the fixed defaults, present ones are copied. */
  lemma ScrapeDefaults(page: ListingPage)
    requires ScrapeListingPage(page).Ok?
    ensures var d := ScrapeListingPage(page).value;
      && (page.priceAmount.None? ==> d.price == UnknownPrice)
      && (page.priceAmount.Some? ==> d.price == page.priceAmount.value.attr.value)
      && (page.priceCurrency.None? ==> d.currency == NoCurrency)
      && (page.priceCurrency.Some? ==> d.currency == page.priceCurrency.value.attr.value)
      && (page.image.None? ==> d.thumbnail == None)
      && (page.image.Some? ==> d.thumbnail == page.image.value.attr)
      && (TimeTagDate(page).None? && FallbackMeta(page).None? ==> d.createDate == UnknownDate)
  {
  }

  /** A non-empty date from the `<time>` tag wins: the meta tags are not consulted. */
  lemma TimeTagPreferred(page: ListingPage, v: string)
    requires ScrapeListingPage(page).Ok?
    requires page.time == Some(Tag(Some(v))) && DatePart(v) != []
    ensures ScrapeListingPage(page).value.createDate == DatePart(v)
    ensures forall m1, m2 :: ScrapeListingPage(page.(originalPublishDate := m1, publishedTime := m2))
                             == ScrapeListingPage(page)
  {
  }

  /** When the `<time>` route yields nothing or an empty string, `etsym:original_publish_date`
      is used if present, and `article:published_time` only when it is absent. */
  lemma MetaFallbackOrder(page: ListingPage)
    requires ScrapeListingPage(page).Ok?
    requires TimeTagDate(page).None? || TimeTagDate(page) == Some([])
    ensures page.originalPublishDate.Some? ==>
      forall m :: ScrapeListingPage(page.(publishedTime := m)) == ScrapeListingPage(page)
    ensures page.originalPublishDate == None && page.publishedTime.Some?
            && page.publishedTime.value.attr.Some? && DatePart(page.publishedTime.value.attr.value) != []
            ==> ScrapeListingPage(page).value.createDate == DatePart(page.publishedTime.value.attr.value)
    ensures page.originalPublishDate.Some? && page.originalPublishDate.value.attr.Some?
            && DatePart(page.originalPublishDate.value.attr.value) != []
            ==> ScrapeListingPage(page).value.createDate == DatePart(page.originalPublishDate.value.attr.value)
  {
  }

  /** The create date is `Unknown` or the date part of one of the three date attributes. */
  lemma CreateDateProvenance(page: ListingPage)
    requires ScrapeListingPage(page).Ok?
    ensures var cd := ScrapeListingPage(page).value.createDate;
      || cd == UnknownDate
      || (page.time.Some? && page.time.value.attr.Some? && cd == DatePart(page.time.value.attr.value))
      || (page.originalPublishDate.Some? && page.originalPublishDate.value.attr.Some?
          && cd == DatePart(page.originalPublishDate.value.attr.value))
      || (page.publishedTime.Some? && page.publishedTime.value.attr.Some?
          && cd == DatePart(page.publishedTime.value.attr.value))
  {
  }

  // ---------------------------------------------------------------------------------------
  // Feed entries
  // ---------------------------------------------------------------------------------------

  /** The first six fields of feedparser's `published_parsed` time tuple. */
  datatype PublishedTime = PublishedTime(year: int, month: int, day: int, hour: int, minute: int, second: int)

  /** An entry's `published_parsed` as feedparser leaves it: absent when the entry had no
      publish date (reading the attribute then raises AttributeError), None when a date was
      present but did not parse, and otherwise the time tuple. */
  datatype Published = Absent | Unparsed | Parsed(time: PublishedTime)

  /** One feed entry: its `link`, `id`, `title` and `published_parsed`, together with the page
      its link serves. */
  datatype FeedEntry = FeedEntry(
    link: string, id: string, title: string, published: Published, page: ListingPage)

  /** The dictionary `fetch_latest_from_rss` returns for the newest entry. */
  datatype LatestListing = LatestListing(listingId: string, title: string, link: string, pubDate: string)

  const ListingMarker: string := "/listing/"

  /** `'/listing/' in link`. */
  predicate IsListingLink(link: string) {
    Contains(link, ListingMarker)
  }

  /** Stripping the trailing slashes of a listing link still leaves a '/', so splitting it
      gives at least two pieces and `[-2]` exists. */
  lemma ListingLinkHasTwoSegments(link: string)
    requires IsListingLink(link)
    ensures |Split(RStrip(link, '/'), '/')| >= 2
  {
    var i :| 0 <= i <= |link| && OccursAt(link, ListingMarker, i);
    assert link[i..i + 9] == ListingMarker;
    assert link[i] == '/' && link[i + 7] == 'g';
    RStripKeeps(link, '/', i + 7, i);
    assert RStrip(link, '/')[i] == '/';
  }

  /** `listing_id`: for a listing link, the second-to-last '/'-separated piece once trailing
      slashes are stripped; otherwise the entry id. */
  function ListingId(link: string, entryId: string): (r: string)
    ensures IsListingLink(link) ==> '/' !in r
    ensures !IsListingLink(link) ==> r == entryId
  {
    if IsListingLink(link) then
      ListingLinkHasTwoSegments(link);
      var parts := Split(RStrip(link, '/'), '/');
      parts[|parts| - 2]
    else entryId
  }

  /** For a listing link of the form `a/x/y` whose last two pieces contain no '/', the id is `x`. */
  lemma ListingIdSecondToLast(a: string, x: string, y: string, entryId: string)
    requires IsListingLink(a + "/" + x + "/" + y)
    requires '/' !in x && '/' !in y && y != []
    ensures ListingId(a + "/" + x + "/" + y, entryId) == x
  {
    var link := a + "/" + x + "/" + y;
    assert link[|link| - 1] == y[|y| - 1];
    assert RStrip(link, '/') == link;
    assert link == (a + "/" + x) + ['/'] + y;
    SplitBack(a + "/" + x, y, '/');
    assert a + "/" + x == a + ['/'] + x;
    SplitBack(a, x, '/');
  }

  /** An Etsy listing link `.../listing/<id>/<slug>` yields `<id>`. */
  lemma ListingIdOfSluggedLink(id: string, slug: string, entryId: string)
    requires '/' !in id && '/' !in slug && slug != []
    ensures ListingId("https://www.etsy.com/listing/" + id + "/" + slug, entryId) == id
  {
    var link := "https://www.etsy.com/listing/" + id + "/" + slug;
    assert "https://www.etsy.com/listing/" + id == "https://www.etsy.com/listing" + "/" + id;
    assert OccursAt(link, ListingMarker, 20);
    ListingIdSecondToLast("https://www.etsy.com/listing", id, slug, entryId);
  }

  /** A listing link that ends in the id, with no slug after it, yields the word `listing`. */
  lemma ListingIdOfBareLink(id: string, entryId: string)
    requires '/' !in id && id != []
    ensures ListingId("https://www.etsy.com/listing/" + id, entryId) == "listing"
  {
    var link := "https://www.etsy.com/listing/" + id;
    assert link == "https://www.etsy.com" + "/" + "listing" + "/" + id;
    assert OccursAt(link, ListingMarker, 20);
    ListingIdSecondToLast("https://www.etsy.com", "listing", id, entryId);
  }

  /** The fields `datetime(*t[:6])` accepts. */
  predicate ValidPublished(t: PublishedTime) {
    && ValidDate(Date(t.year, t.month, t.day))
    && 0 <= t.hour < 24 && 0 <= t.minute < 60 && 0 <= t.second < 60
  }

  /** `pub_date`: `strftime('%Y-%m-%d %H:%M')` of the time tuple, `Unknown` when the value is
      not a tuple, the AttributeError of reading an absent `published_parsed`, and the
      ValueError of `datetime(...)` for out-of-range fields. */
  function PubDate(published: Published): (r: Result<string>)
    ensures published.Unparsed? ==> r == Ok(UnknownDate)
    ensures published.Absent? ==> r.Raised? && r.exc.AttributeError?
    ensures r.Raised? <==> published.Absent? || (published.Parsed? && !ValidPublished(published.time))
    ensures published.Parsed? && r.Raised? ==> r.exc.ValueError?
  {
    match published
    case Absent => Raised(AttributeError("published_parsed"))
    case Unparsed => Ok(UnknownDate)
    case Parsed(t) =>
      if ValidPublished(t)
      then Ok(FormatDate(Date(t.year, t.month, t.day)) + " " + FormatClock(t.hour, t.minute))
      else Raised(ValueError("datetime field out of range"))
  }

  /** A formatted `pub_date` reads back, through `fromisoformat`, as the wall-clock minute of the
      time tuple (the seconds are dropped). */
  lemma PubDateReadsBack(t: PublishedTime)
    requires ValidPublished(t)
    ensures PubDate(Parsed(t)).Ok?
    ensures ParseIso(PubDate(Parsed(t)).value)
         == Some(Naive(MidnightMinutes(Date(t.year, t.month, t.day)) + t.hour * 60 + t.minute))
  {
    PubDateFormats(t);
    ParseIsoDateTime(Date(t.year, t.month, t.day), t.hour, t.minute);
  }

  /** A valid time tuple formats as its date, a space, and its clock reading. */
  lemma PubDateFormats(t: PublishedTime)
    requires ValidPublished(t)
    ensures PubDate(Parsed(t))
         == Ok(FormatDate(Date(t.year, t.month, t.day)) + " " + FormatClock(t.hour, t.minute))
  {
  }

  /** `fetch_latest_from_rss` after the feed has been fetched: None for an empty feed, else a
      description of the first entry. */
  function FetchLatestFromRss(entries: seq<FeedEntry>): (r: Result<Option<LatestListing>>)
    ensures r == Ok(None) <==> entries == []
    ensures r.Raised? <==> entries != [] && (entries[0].published.Absent?
                                             || (entries[0].published.Parsed?
                                                 && !ValidPublished(entries[0].published.time)))
    ensures r.Raised? ==> r.exc == PubDate(entries[0].published).exc
    ensures r.Ok? && r.value.Some? ==>
      && r.value.value.link == entries[0].link
      && r.value.value.title == entries[0].title
      && r.value.value.listingId == ListingId(entries[0].link, entries[0].id)
      && r.value.value.pubDate == PubDate(entries[0].published).value
  {
    if |entries| == 0 then Ok(None)
    else
      var entry := entries[0];
      var pubDate :- PubDate(entry.published);
      Ok(Some(LatestListing(ListingId(entry.link, entry.id), entry.title, entry.link, pubDate)))
  }

  /** Only the first entry matters: later entries never change the result. */
  lemma LatestIgnoresLaterEntries(entries: seq<FeedEntry>, more: seq<FeedEntry>)
    requires entries != []
    ensures FetchLatestFromRss(entries + more) == FetchLatestFromRss([entries[0]])
  {
    assert (entries + more)[0] == entries[0];
  }
}
