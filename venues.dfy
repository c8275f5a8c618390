/** The nine fetchers. Each one is three pieces: what it makes of a
    listing page (the checks on its layout, its entries, the URL of the
    next page), what its loop body does with one entry (the fields it
    reads, the date rule it applies, the show it yields), and the page
    loop of `Paging` run with those two from the venue's first URL. A page
    is given already searched: each element the fetcher looks for is there
    or is None. */
module Venues {
  import opened Wrappers
  import opened Text
  import opened Dates
  import Strptime
  import opened Normalise
  import opened Shows
  import opened Ranges
  import opened Listing
  import opened Paging
  import opened Sources

  /** A child of a container: a string between tags (which `Tag` checks
      skip), or a tag. */
  datatype Child<T> = Loose | Tag(elem: T)

  // ---------------------------------------------------------------------
  // Albany Theatre: one page; entries without a date element are skipped
  // ---------------------------------------------------------------------

  /** The children of the `query_block_content` container, if found. */
  type AlbanyPage = Option<seq<Child<Item>>>

  /** The single page's children; no container is an AttributeError. */
  function AlbanyScan(k: nat, page: AlbanyPage): Scan<Child<Item>>
  {
    if page.None? then Broken(NoElement) else Entries(page.value, None)
  }

  /** The Albany's loop body: the date text is read first, and an entry
      without one is skipped; the title is stripped, the image and link
      are joined to the root. */
  function AlbanyEntry(child: Child<Item>): (st: Step)
    ensures st == Pass <==> child.Loose? || child.elem.date.None?
    ensures st.Halt? ==>
              && child.Tag? && child.elem.date.Some?
              && (if HasFields(child.elem) then AlbanyDates(Lower(child.elem.date.value)) == Raise(st.fault)
                  else st.fault == NoElement)
    ensures st.Emit? ==>
              && child.Tag? && HasFields(child.elem) && child.elem.date.Some?
              && AlbanyDates(Lower(child.elem.date.value)) == Got(Span(st.show.start, st.show.end))
              && st.show.title == Strip(child.elem.title.value)
              && st.show.imageUrl == Absolute(RootUrl(Albany), child.elem.src.value)
              && st.show.linkUrl == Absolute(RootUrl(Albany), child.elem.href.value)
  {
    match child
    case Loose => Pass
    case Tag(it) =>
      if it.date.None? then Pass
      else if !HasFields(it) then Halt(NoElement)
      else
        match AlbanyDates(Lower(it.date.value))
        case Raise(f) => Halt(f)
        case Got(span) =>
          Emit(Show(Strip(it.title.value), Absolute(RootUrl(Albany), it.src.value),
                    Absolute(RootUrl(Albany), it.href.value), span.start, span.end))
  }

  function AlbanyRun(responses: seq<Response<AlbanyPage>>): Run
  {
    Crawl(AlbanyScan, Stateless(AlbanyEntry), 0, (), ListingUrl(Albany), responses)
  }

  // ---------------------------------------------------------------------
  // Belgrade Theatre: one page; month/year panels set the year of the
  // productions listed after them
  // ---------------------------------------------------------------------

  /** The date a month/year panel gives (day 1), always a real date. */
  type PanelDate = d: Date | IsValid(d) witness Date(1900, 1, 1)

  /** A tag of the Belgrade's container: an `h2` month/year panel, or any
      other element, with its class list if it has one. */
  datatype BelgradeElem = Heading(text: string) | Element(classes: Option<seq<string>>, item: Item)

  type BelgradePage = Option<seq<Child<BelgradeElem>>>

  /** An element of class `production-list-item`: a production. */
  predicate Listed(e: BelgradeElem)
  {
    e.Element? && e.classes.Some? && "production-list-item" in e.classes.value
  }

  function BelgradeScan(k: nat, page: BelgradePage): Scan<Child<BelgradeElem>>
  {
    if page.None? then Broken(NoElement) else Entries(page.value, None)
  }

  /** The Belgrade's date text: stripped, lower-cased, ordinals removed. */
  function BelgradeText(raw: string): string
  {
    StripOrdinals(Lower(Strip(raw)))
  }

  /** The Belgrade's loop body. The state is the month/year of the last
      panel met (None before the first). A panel that does not read as
      "%B %Y" raises; other elements without the production class are
      skipped; a production before any panel fails the assertion. */
  function BelgradeEntry(panel: Option<PanelDate>, child: Child<BelgradeElem>): (r: (Option<PanelDate>, Step))
    ensures child.Loose? || (child.elem.Element? && !Listed(child.elem)) ==> r == (panel, Pass)
    ensures child.Tag? && child.elem.Heading? ==>
              match Strptime.Parse(Lower(child.elem.text), Strptime.MonthYear)
              case Ok(d) => r == (Some(d), Pass)
              case Fail(e) => r == (panel, Halt(BadDate(e)))
    ensures child.Tag? && Listed(child.elem) && panel.None? ==> r == (panel, Halt(AssertFailed))
    ensures r.1.Emit? ==>
              && child.Tag? && Listed(child.elem) && panel.Some? && r.0 == panel
              && HasFields(child.elem.item) && child.elem.item.date.Some?
              && BelgradeDates(BelgradeText(child.elem.item.date.value), panel.value.year)
                 == Got(Span(r.1.show.start, r.1.show.end))
              && r.1.show.start.year == panel.value.year
              && NotAfter(r.1.show.start, r.1.show.end)
              && r.1.show.title == Strip(child.elem.item.title.value)
              && r.1.show.imageUrl == Absolute(RootUrl(Belgrade), child.elem.item.src.value)
              && r.1.show.linkUrl == Absolute(RootUrl(Belgrade), child.elem.item.href.value)
  {
    match child
    case Loose => (panel, Pass)
    case Tag(Heading(text)) =>
      (match Strptime.Parse(Lower(text), Strptime.MonthYear)
       case Ok(d) => (Some(d), Pass)
       case Fail(e) => (panel, Halt(BadDate(e))))
    case Tag(Element(classes, it)) =>
      if classes.None? || "production-list-item" !in classes.value then (panel, Pass)
      else if panel.None? then (panel, Halt(AssertFailed))
      else if !HasFields(it) || it.date.None? then (panel, Halt(NoElement))
      else
        match BelgradeDates(BelgradeText(it.date.value), panel.value.year)
        case Raise(f) => (panel, Halt(f))
        case Got(span) =>
          (panel, Emit(Show(Strip(it.title.value), Absolute(RootUrl(Belgrade), it.src.value),
                            Absolute(RootUrl(Belgrade), it.href.value), span.start, span.end)))
  }

  function BelgradeRun(responses: seq<Response<BelgradePage>>): Run
  {
    Crawl(BelgradeScan, BelgradeEntry, 0, None, ListingUrl(Belgrade), responses)
  }

  // ---------------------------------------------------------------------
  // Symphony Hall: pages linked by a "next" link until it is disabled
  // ---------------------------------------------------------------------

  /** One event block: the `h3` text, the event link, the image's
      `data-srcset`, and the `<time>` elements of its time span. */
  datatype SymphonyEvent = SymphonyEvent(title: Option<string>, href: Option<string>, srcset: Option<string>,
                                         times: Option<seq<TimeTag>>)

  /** The `pagination__link--next` anchor: its classes and target. */
  datatype NextLink = NextLink(classes: seq<string>, href: string)

  /** The `grid cf` list's contents, if found, and the next link, if any. */
  datatype SymphonyPage = SymphonyPage(events: Option<seq<SymphonyEvent>>, next: Option<NextLink>)

  /** The next page is the link's target, unless there is no link or it is
      marked disabled. */
  function SymphonyNext(link: Option<NextLink>): (u: Option<string>)
    ensures u.Some? <==> link.Some? && "disabled" !in link.value.classes
    ensures u.Some? ==> u.value == link.value.href
  {
    if link.Some? && "disabled" !in link.value.classes then Some(link.value.href) else None
  }

  /** A page holds at most 16 events, or the assertion fails. */
  function SymphonyScan(k: nat, page: SymphonyPage): (s: Scan<SymphonyEvent>)
    ensures page.events.None? ==> s == Broken(NoElement)
    ensures page.events.Some? ==>
              s == if |page.events.value| <= 16 then Entries(page.events.value, SymphonyNext(page.next))
                   else Broken(AssertFailed)
  {
    if page.events.None? then Broken(NoElement)
    else if |page.events.value| > 16 then Broken(AssertFailed)
    else Entries(page.events.value, SymphonyNext(page.next))
  }

  /** Symphony Hall's loop body: the title in capitalised words, the first
      word of the srcset as the image, the link as it is, the dates from
      the `<time>` elements. No entry is skipped. */
  function SymphonyEntry(e: SymphonyEvent): (st: Step)
    ensures !st.Pass?
    ensures e.title.None? || e.href.None? || e.srcset.None? ==> st == Halt(NoElement)
    ensures e.title.Some? && e.href.Some? && e.srcset.Some? && Words(e.srcset.value) == [] ==> st == Halt(NoIndex)
    ensures st.Emit? ==>
              && e.title.Some? && e.href.Some? && e.srcset.Some? && e.times.Some? && Words(e.srcset.value) != []
              && SymphonyDates(e.times.value) == Got(Span(st.show.start, st.show.end))
              && st.show.title == TitleCase(e.title.value)
              && st.show.imageUrl == Words(e.srcset.value)[0]
              && st.show.linkUrl == e.href.value
  {
    if e.title.None? || e.href.None? || e.srcset.None? then Halt(NoElement)
    else if Words(e.srcset.value) == [] then Halt(NoIndex)
    else if e.times.None? then Halt(NoElement)
    else
      match SymphonyDates(e.times.value)
      case Raise(f) => Halt(f)
      case Got(span) =>
        Emit(Show(TitleCase(e.title.value), Words(e.srcset.value)[0], e.href.value, span.start, span.end))
  }

  function SymphonyRun(responses: seq<Response<SymphonyPage>>): Run
  {
    Crawl(SymphonyScan, Stateless(SymphonyEntry), 0, (), ListingUrl(SymphonyHall), responses)
  }

  // ---------------------------------------------------------------------
  // Birmingham Hippodrome: pages linked by a "next" link
  // ---------------------------------------------------------------------

  /** The image of a Hippodrome entry: no `a.block` link or no `img` in it
      (the AttributeError the fetcher catches), or the `img` tag with its
      `src` attribute when it has one. */
  datatype Picture = NoPicture | Img(src: Option<string>)

  /** One `events-list-item`: its picture and the title, link and date
      text of its `performance-listing`, each None when the element read
      is missing. */
  datatype HippodromeEvent =
    HippodromeEvent(picture: Picture, title: Option<string>, href: Option<string>, date: Option<string>)

  /** The `events-list-item` entries of the `main-events-list`, if found,
      and the target of the `next` link, if any. */
  datatype HippodromePage = HippodromePage(events: Option<seq<HippodromeEvent>>, next: Option<string>)

  function HippodromeScan(k: nat, page: HippodromePage): (s: Scan<HippodromeEvent>)
    ensures page.events.None? ==> s == Broken(NoElement)
    ensures page.events.Some? ==> s == Entries(page.events.value, page.next)
  {
    if page.events.None? then Broken(NoElement) else Entries(page.events.value, page.next)
  }

  /** The Hippodrome's loop body: a missing link or image is the empty
      string, but an image without `src` is a KeyError; the title and link
      are used as they are, and any date error other than a missing year is
      raised again. No entry is skipped. */
  function HippodromeEntry(currentYear: nat, e: HippodromeEvent): (st: Step)
    ensures !st.Pass?
    ensures e.picture == Img(None) ==> st == Halt(NoKey)
    ensures e.picture != Img(None) && (e.href.None? || e.title.None? || e.date.None?) ==> st == Halt(NoElement)
    ensures st.Halt? && st.fault != NoElement && st.fault != NoKey ==> HippodromeDates(e.date.value, currentYear) == Raise(st.fault)
    ensures st.Emit? ==>
              && e.picture != Img(None) && e.href.Some? && e.title.Some? && e.date.Some?
              && HippodromeDates(e.date.value, currentYear) == Got(Span(st.show.start, st.show.end))
              && st.show.title == e.title.value
              && st.show.imageUrl == (if e.picture.Img? then e.picture.src.value else "")
              && st.show.linkUrl == e.href.value
  {
    if e.picture == Img(None) then Halt(NoKey)
    else if e.href.None? || e.title.None? || e.date.None? then Halt(NoElement)
    else
      var image := if e.picture.Img? then e.picture.src.value else "";
      match HippodromeDates(e.date.value, currentYear)
      case Raise(f) => Halt(f)
      case Got(span) => Emit(Show(e.title.value, image, e.href.value, span.start, span.end))
  }

  function HippodromeStep(currentYear: nat): ((), HippodromeEvent) -> ((), Step)
  {
    Stateless((e: HippodromeEvent) => HippodromeEntry(currentYear, e))
  }

  function HippodromeRun(currentYear: nat, responses: seq<Response<HippodromePage>>): Run
  {
    Crawl(HippodromeScan, HippodromeStep(currentYear), 0, (), ListingUrl(Hippodrome), responses)
  }

  // ---------------------------------------------------------------------
  // Resorts World Arena: one page, images from a title-to-URL mapping
  // ---------------------------------------------------------------------

  /** A page whose images come from the embedded event list: the mapping
      from lower-cased event name to thumbnail URL, and the event cards. */
  datatype MappedPage = MappedPage(images: map<string, string>, events: Option<seq<Item>>)

  /** An event card, seen with the page's image mapping. */
  datatype Card = Card(images: map<string, string>, item: Item)

  function Cards(images: map<string, string>, items: seq<Item>): (cs: seq<Card>)
    ensures |cs| == |items|
    ensures forall i :: 0 <= i < |items| ==> cs[i] == Card(images, items[i])
  {
    seq(|items|, i requires 0 <= i < |items| => Card(images, items[i]))
  }

  /** No container, or no event cards in it, is a ValueError. */
  function ResortsWorldScan(k: nat, page: MappedPage): (s: Scan<Card>)
    ensures page.events.None? || page.events.value == [] ==> s == Broken(LayoutChanged)
    ensures page.events.Some? && page.events.value != [] ==> s == Entries(Cards(page.images, page.events.value), None)
  {
    if page.events.None? || page.events.value == [] then Broken(LayoutChanged)
    else Entries(Cards(page.images, page.events.value), None)
  }

  /** The image of a titled card, or the KeyError of a title the mapping
      does not know. */
  function Thumbnail(images: map<string, string>, title: string): (r: Result<string>)
    ensures r.Got? <==> Lower(title) in images
    ensures r.Got? ==> r.value == images[Lower(title)]
    ensures r.Raise? ==> r.fault == NoKey
  {
    if Lower(title) in images then Got(images[Lower(title)]) else Raise(NoKey)
  }

  /** Resorts World's loop body: link and title, then the image looked up
      by title, then the date. No entry is skipped. */
  function ResortsWorldEntry(c: Card): (st: Step)
    ensures !st.Pass?
    ensures c.item.href.None? || c.item.title.None? ==> st == Halt(NoElement)
    ensures c.item.href.Some? && c.item.title.Some? && Lower(c.item.title.value) !in c.images ==> st == Halt(NoKey)
    ensures st.Emit? ==>
              && c.item.href.Some? && c.item.title.Some? && c.item.date.Some?
              && ResortsWorldDates(c.item.date.value) == Got(Span(st.show.start, st.show.end))
              && st.show.title == c.item.title.value
              && Thumbnail(c.images, c.item.title.value) == Got(st.show.imageUrl)
              && st.show.linkUrl == Absolute(RootUrl(ResortsWorld), c.item.href.value)
  {
    var it := c.item;
    if it.href.None? || it.title.None? then Halt(NoElement)
    else
      match Thumbnail(c.images, it.title.value)
      case Raise(f) => Halt(f)
      case Got(image) =>
        if it.date.None? then Halt(NoElement)
        else
          match ResortsWorldDates(it.date.value)
          case Raise(f) => Halt(f)
          case Got(span) =>
            Emit(Show(it.title.value, image, Absolute(RootUrl(ResortsWorld), it.href.value), span.start, span.end))
  }

  function ResortsWorldRun(responses: seq<Response<MappedPage>>): Run
  {
    Crawl(ResortsWorldScan, Stateless(ResortsWorldEntry), 0, (), ListingUrl(ResortsWorld), responses)
  }

  // ---------------------------------------------------------------------
  // Arena Birmingham: as Resorts World, with `start_date` carried over
  // ---------------------------------------------------------------------

  /** The image mapping, whether the `content-area` container was found,
      and the event cards of its `events-wrap`, if that was found. */
  datatype ArenaPage = ArenaPage(images: map<string, string>, contentArea: bool, events: Option<seq<Item>>)

  function ArenaScan(k: nat, page: ArenaPage): (s: Scan<Card>)
    ensures !page.contentArea ==> s == Broken(LayoutChanged)
    ensures page.contentArea && page.events.None? ==> s == Broken(NoElement)
    ensures page.contentArea && page.events.Some? ==>
              s == if page.events.value == [] then Broken(LayoutChanged)
                   else Entries(Cards(page.images, page.events.value), None)
  {
    if !page.contentArea then Broken(LayoutChanged)
    else if page.events.None? then Broken(NoElement)
    else if page.events.value == [] then Broken(LayoutChanged)
    else Entries(Cards(page.images, page.events.value), None)
  }

  /** Arena Birmingham's loop body. The state is `start_date` as the
      earlier entries left it; every show yielded leaves its start there. */
  function ArenaEntry(previous: Option<Date>, c: Card): (r: (Option<Date>, Step))
    ensures !r.1.Pass?
    ensures r.1.Halt? ==> r.0 == previous
    ensures c.item.href.None? || c.item.title.None? ==> r.1 == Halt(NoElement)
    ensures c.item.href.Some? && c.item.title.Some? && Lower(c.item.title.value) !in c.images ==> r.1 == Halt(NoKey)
    ensures r.1.Emit? ==>
              && c.item.href.Some? && c.item.title.Some? && c.item.date.Some?
              && ArenaDates(c.item.date.value, previous) == Got(Span(r.1.show.start, r.1.show.end))
              && r.0 == Some(r.1.show.start)
              && r.1.show.title == c.item.title.value
              && Thumbnail(c.images, c.item.title.value) == Got(r.1.show.imageUrl)
              && r.1.show.linkUrl == Absolute(RootUrl(ArenaBirmingham), c.item.href.value)
  {
    var it := c.item;
    if it.href.None? || it.title.None? then (previous, Halt(NoElement))
    else
      match Thumbnail(c.images, it.title.value)
      case Raise(f) => (previous, Halt(f))
      case Got(image) =>
        if it.date.None? then (previous, Halt(NoElement))
        else
          match ArenaDates(it.date.value, previous)
          case Raise(f) => (previous, Halt(f))
          case Got(span) =>
            (Some(span.start),
             Emit(Show(it.title.value, image, Absolute(RootUrl(ArenaBirmingham), it.href.value), span.start, span.end)))
  }

  function ArenaRun(responses: seq<Response<ArenaPage>>): Run
  {
    Crawl(ArenaScan, ArenaEntry, 0, None, ListingUrl(ArenaBirmingham), responses)
  }

  // ---------------------------------------------------------------------
  // Artrix: pages ?page=1, 2, ... until one has no events
  // ---------------------------------------------------------------------

  /** `self.url + "?" + urlencode({"page": page})`. */
  function ArtrixPageUrl(page: nat): string
  {
    ListingUrl(Artrix) + "?page=" + NatStr(page)
  }

  /** The `Exhib` entries of the `gridview-new` list, if found. Page
      number `k` (from 0) is `?page=k+1`, so the next is `?page=k+2`. */
  function ArtrixScan(k: nat, page: Option<seq<Item>>): (s: Scan<Item>)
    ensures page.None? ==> s == Broken(NoElement)
    ensures page == Some([]) ==> s == Empty
    ensures page.Some? && page.value != [] ==> s == Entries(page.value, Some(ArtrixPageUrl(k + 2)))
    ensures s.Empty? <==> page == Some([])
  {
    if page.None? then Broken(NoElement)
    else if page.value == [] then Empty
    else Entries(page.value, Some(ArtrixPageUrl(k + 2)))
  }

  /** The Artrix's loop body: link and image joined to the root. No entry
      is skipped. */
  function ArtrixEntry(currentYear: nat, it: Item): (st: Step)
    ensures !st.Pass?
    ensures !HasFields(it) || it.date.None? ==> st == Halt(NoElement)
    ensures st.Emit? ==>
              && HasFields(it) && it.date.Some?
              && ArtrixDates(it.date.value, currentYear) == Got(Span(st.show.start, st.show.end))
              && st.show.title == it.title.value
              && st.show.imageUrl == Absolute(RootUrl(Artrix), it.src.value)
              && st.show.linkUrl == Absolute(RootUrl(Artrix), it.href.value)
  {
    if !HasFields(it) || it.date.None? then Halt(NoElement)
    else
      match ArtrixDates(it.date.value, currentYear)
      case Raise(f) => Halt(f)
      case Got(span) =>
        Emit(Show(it.title.value, Absolute(RootUrl(Artrix), it.src.value),
                  Absolute(RootUrl(Artrix), it.href.value), span.start, span.end))
  }

  function ArtrixStep(currentYear: nat): ((), Item) -> ((), Step)
  {
    Stateless((it: Item) => ArtrixEntry(currentYear, it))
  }

  function ArtrixRun(currentYear: nat, responses: seq<Response<Option<seq<Item>>>>): Run
  {
    Crawl(ArtrixScan, ArtrixStep(currentYear), 0, (), ArtrixPageUrl(1), responses)
  }

  // ---------------------------------------------------------------------
  // New Alexandra: one page, `start_date` carried over
  // ---------------------------------------------------------------------

  /** The entries of the `WhatsOnPanel` section, if found. */
  function AlexScan(k: nat, page: Option<seq<Item>>): Scan<Item>
  {
    if page.None? then Broken(NoElement) else Entries(page.value, None)
  }

  /** The Alexandra's loop body: the link joined to the root, the image
      as it is. The state is `start_date` as the earlier entries left it. */
  function AlexEntry(previous: Option<Date>, it: Item): (r: (Option<Date>, Step))
    ensures !r.1.Pass?
    ensures r.1.Halt? ==> r.0 == previous
    ensures !HasFields(it) || it.date.None? ==> r.1 == Halt(NoElement)
    ensures r.1.Emit? ==>
              && HasFields(it) && it.date.Some?
              && AlexDates(it.date.value, previous) == Got(Span(r.1.show.start, r.1.show.end))
              && r.0 == Some(r.1.show.start)
              && r.1.show.title == it.title.value
              && r.1.show.imageUrl == it.src.value
              && r.1.show.linkUrl == Absolute(RootUrl(NewAlexandra), it.href.value)
  {
    if !HasFields(it) || it.date.None? then (previous, Halt(NoElement))
    else
      match AlexDates(it.date.value, previous)
      case Raise(f) => (previous, Halt(f))
      case Got(span) =>
        (Some(span.start),
         Emit(Show(it.title.value, it.src.value, Absolute(RootUrl(NewAlexandra), it.href.value), span.start, span.end)))
  }

  function AlexRun(responses: seq<Response<Option<seq<Item>>>>): Run
  {
    Crawl(AlexScan, AlexEntry, 0, None, ListingUrl(NewAlexandra), responses)
  }

  // ---------------------------------------------------------------------
  // Warwick Arts Centre: pages ?start=0, 10, ... until one has no events;
  // an entry whose date raises ValueError is skipped
  // ---------------------------------------------------------------------

  /** `self.url + "?" + urlencode({"start": start_idx})`. */
  function WarwickPageUrl(start: nat): string
  {
    ListingUrl(WarwickArtsCentre) + "?start=" + NatStr(start)
  }

  /** The `unit-production-entry` articles, if the list was found. Page
      number `k` (from 0) starts at entry `10 * k`. */
  function WarwickScan(k: nat, page: Option<seq<Item>>): (s: Scan<Item>)
    ensures page.None? ==> s == Broken(NoElement)
    ensures page == Some([]) ==> s == Empty
    ensures page.Some? && page.value != [] ==> s == Entries(page.value, Some(WarwickPageUrl(10 * (k + 1))))
    ensures s.Empty? <==> page == Some([])
  {
    if page.None? then Broken(NoElement)
    else if page.value == [] then Empty
    else Entries(page.value, Some(WarwickPageUrl(10 * (k + 1))))
  }

  /** The Warwick's date text: stripped, then cleaned up by `fix_date_text`. */
  function WarwickText(raw: string): string
  {
    FixDateText(Strip(raw))
  }

  /** The Warwick's loop body. The state is `start_date` as the earlier
      entries left it. A ValueError from the dates is caught and the entry
      skipped; any other exception ends the generator. */
  function WarwickEntry(currentYear: nat, previous: Option<Date>, it: Item): (r: (Option<Date>, Step))
    ensures !r.1.Emit? ==> r.0 == previous
    ensures !HasFields(it) || it.date.None? ==> r.1 == Halt(NoElement)
    ensures r.1.Pass? <==>
              HasFields(it) && it.date.Some? &&
              WarwickDates(WarwickText(it.date.value), previous, currentYear).Raise? &&
              WarwickDates(WarwickText(it.date.value), previous, currentYear).fault.BadDate?
    ensures r.1.Halt? && r.1.fault != NoElement ==> r.1.fault == Unassigned && previous.None?
    ensures r.1.Emit? ==>
              && HasFields(it) && it.date.Some?
              && WarwickDates(WarwickText(it.date.value), previous, currentYear) == Got(Span(r.1.show.start, r.1.show.end))
              && r.0 == Some(r.1.show.start)
              && r.1.show.title == it.title.value
              && r.1.show.imageUrl == it.src.value
              && r.1.show.linkUrl == Absolute(RootUrl(WarwickArtsCentre), it.href.value)
  {
    if !HasFields(it) || it.date.None? then (previous, Halt(NoElement))
    else
      match WarwickDates(WarwickText(it.date.value), previous, currentYear)
      case Raise(f) => if f.BadDate? then (previous, Pass) else (previous, Halt(f))
      case Got(span) =>
        (Some(span.start),
         Emit(Show(it.title.value, it.src.value, Absolute(RootUrl(WarwickArtsCentre), it.href.value),
                   span.start, span.end)))
  }

  function WarwickStep(currentYear: nat): (Option<Date>, Item) -> (Option<Date>, Step)
  {
    (p: Option<Date>, it: Item) => WarwickEntry(currentYear, p, it)
  }

  function WarwickRun(currentYear: nat, responses: seq<Response<Option<seq<Item>>>>): Run
  {
    Crawl(WarwickScan, WarwickStep(currentYear), 0, None, WarwickPageUrl(0), responses)
  }
}
