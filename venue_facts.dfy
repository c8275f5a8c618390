/** What the fetchers promise as a whole: which entries they skip, which
    pages they request and in what order, when they stop, and what the
    shows they yield satisfy. */
module VenueFacts {
  import opened Wrappers
  import opened Dates
  import opened Strptime
  import opened StrptimeFacts
  import opened Written
  import opened Shows
  import opened Ranges
  import opened RangesFacts
  import opened Listing
  import opened Paging
  import opened Sources
  import opened Venues

  // ---------------------------------------------------------------------
  // One-page fetchers
  // ---------------------------------------------------------------------

  /** The Albany, Belgrade, Resorts World, Arena Birmingham and Alexandra
      fetchers request their listing URL and nothing else. */
  lemma SinglePage(albany: seq<Response<AlbanyPage>>, belgrade: seq<Response<BelgradePage>>,
                   resorts: seq<Response<MappedPage>>, arena: seq<Response<ArenaPage>>,
                   alex: seq<Response<Option<seq<Item>>>>)
    ensures AlbanyRun(albany).urls == [ListingUrl(Albany)]
    ensures BelgradeRun(belgrade).urls == [ListingUrl(Belgrade)]
    ensures ResortsWorldRun(resorts).urls == [ListingUrl(ResortsWorld)]
    ensures ArenaRun(arena).urls == [ListingUrl(ArenaBirmingham)]
    ensures AlexRun(alex).urls == [ListingUrl(NewAlexandra)]
  {
    AlbanyOnePage(albany);
    BelgradeOnePage(belgrade);
    ResortsWorldOnePage(resorts);
    ArenaOnePage(arena);
    AlexOnePage(alex);
  }

  lemma AlbanyOnePage(albany: seq<Response<AlbanyPage>>)
    ensures AlbanyRun(albany).urls == [ListingUrl(Albany)]
  {
    CrawlOnePage(AlbanyScan, Stateless(AlbanyEntry), 0, (), ListingUrl(Albany), albany);
  }

  lemma BelgradeOnePage(belgrade: seq<Response<BelgradePage>>)
    ensures BelgradeRun(belgrade).urls == [ListingUrl(Belgrade)]
  {
    CrawlOnePage(BelgradeScan, BelgradeEntry, 0, None, ListingUrl(Belgrade), belgrade);
  }

  lemma ResortsWorldOnePage(resorts: seq<Response<MappedPage>>)
    ensures ResortsWorldRun(resorts).urls == [ListingUrl(ResortsWorld)]
  {
    CrawlOnePage(ResortsWorldScan, Stateless(ResortsWorldEntry), 0, (), ListingUrl(ResortsWorld), resorts);
  }

  lemma ArenaOnePage(arena: seq<Response<ArenaPage>>)
    ensures ArenaRun(arena).urls == [ListingUrl(ArenaBirmingham)]
  {
    CrawlOnePage(ArenaScan, ArenaEntry, 0, None, ListingUrl(ArenaBirmingham), arena);
  }

  lemma AlexOnePage(alex: seq<Response<Option<seq<Item>>>>)
    ensures AlexRun(alex).urls == [ListingUrl(NewAlexandra)]
  {
    CrawlOnePage(AlexScan, AlexEntry, 0, None, ListingUrl(NewAlexandra), alex);
  }

  // ---------------------------------------------------------------------
  // Albany: entries without a date are skipped
  // ---------------------------------------------------------------------

  /** Loose text, or a tag without a `show-date` element. */
  predicate Undated(c: Child<Item>)
  {
    c.Loose? || c.elem.date.None?
  }

  /** The Albany yields the same shows, and stops at the same exception,
      as it would with its undated entries taken out. */
  lemma AlbanySkipsUndated(children: seq<Child<Item>>)
    ensures Drain(Stateless(AlbanyEntry), (), children) == Drain(Stateless(AlbanyEntry), (), Kept(children, Undated))
  {
    DrainSkips(Stateless(AlbanyEntry), (), children, Undated);
  }

  // ---------------------------------------------------------------------
  // Belgrade: panels first, and every show in order
  // ---------------------------------------------------------------------

  /** Every show the Belgrade yields ends no earlier than it starts. */
  lemma BelgradeShowsInOrder(responses: seq<Response<BelgradePage>>)
    ensures forall i :: 0 <= i < |BelgradeRun(responses).shows| ==>
              NotAfter(BelgradeRun(responses).shows[i].start, BelgradeRun(responses).shows[i].end)
  {
    CrawlYields(BelgradeScan, BelgradeEntry, 0, None, ListingUrl(Belgrade), responses,
                (sh: Show) => NotAfter(sh.start, sh.end));
  }

  /** A production listed before any month/year panel fails the assertion,
      and nothing is yielded before it. */
  lemma {:induction false} BelgradeNeedsPanel(children: seq<Child<BelgradeElem>>, i: nat)
    requires i < |children| && children[i].Tag? && Listed(children[i].elem)
    requires forall j :: 0 <= j < i ==> children[j].Loose? || !children[j].elem.Heading?
    ensures Drain(BelgradeEntry, None, children) == Outcome([], Some(AssertFailed), None)
    decreases i
  {
    var c := children[0];
    if i > 0 && !(c.Tag? && Listed(c.elem)) {
      assert BelgradeEntry(None, c) == (None, Pass);
      forall j | 0 <= j < i - 1
        ensures children[1..][j].Loose? || !children[1..][j].elem.Heading?
      {
        assert children[1..][j] == children[j + 1];
      }
      BelgradeNeedsPanel(children[1..], i - 1);
    }
  }

  // ---------------------------------------------------------------------
  // Symphony Hall and the Hippodrome: next links
  // ---------------------------------------------------------------------

  /** Symphony Hall goes from a page to the next exactly when that page
      has a next link not marked disabled, and goes to its target; a fetch
      that ends without an exception ends at a page with no such link.
      This holds whatever the entries do, so for `SymphonyRun` too. */
  lemma SymphonyFollowsNext<S>(step: (S, SymphonyEvent) -> (S, Step), s: S, responses: seq<Response<SymphonyPage>>)
    ensures var r := Crawl(SymphonyScan, step, 0, s, ListingUrl(SymphonyHall), responses);
            && r.urls[0] == ListingUrl(SymphonyHall)
            && (forall i :: 0 <= i < |r.urls| - 1 ==>
                  && i < |responses| && responses[i].Page?
                  && responses[i].doc.next.Some?
                  && "disabled" !in responses[i].doc.next.value.classes
                  && responses[i].doc.next.value.href == r.urls[i + 1])
            && (r.fault.None? ==>
                  && |r.urls| - 1 < |responses| && responses[|r.urls| - 1].Page?
                  && (responses[|r.urls| - 1].doc.next.None? ||
                      "disabled" in responses[|r.urls| - 1].doc.next.value.classes))
  {
    CrawlLinks(SymphonyScan, step, 0, s, ListingUrl(SymphonyHall), responses);
    CrawlEnds(SymphonyScan, step, 0, s, ListingUrl(SymphonyHall), responses);
  }

  /** The Hippodrome goes from a page to the next exactly when that page
      has a next link, and goes to its target, whatever the entries do. */
  lemma HippodromeFollowsNext<S>(step: (S, HippodromeEvent) -> (S, Step), s: S, responses: seq<Response<HippodromePage>>)
    ensures var r := Crawl(HippodromeScan, step, 0, s, ListingUrl(Hippodrome), responses);
            && r.urls[0] == ListingUrl(Hippodrome)
            && (forall i :: 0 <= i < |r.urls| - 1 ==>
                  i < |responses| && responses[i].Page? && responses[i].doc.next == Some(r.urls[i + 1]))
            && (r.fault.None? ==>
                  |r.urls| - 1 < |responses| && responses[|r.urls| - 1].Page? &&
                  responses[|r.urls| - 1].doc.next.None?)
  {
    CrawlLinks(HippodromeScan, step, 0, s, ListingUrl(Hippodrome), responses);
    CrawlEnds(HippodromeScan, step, 0, s, ListingUrl(Hippodrome), responses);
  }

  // ---------------------------------------------------------------------
  // Artrix and Warwick: counted pages
  // ---------------------------------------------------------------------

  /** The Artrix requests `?page=1`, `?page=2`, ... in turn; every page but
      the last had events, and a fetch that ends without an exception ends
      at the first page with none. This holds whatever the entries do. */
  lemma ArtrixPages<S>(step: (S, Item) -> (S, Step), s: S, responses: seq<Response<Option<seq<Item>>>>)
    ensures var r := Crawl(ArtrixScan, step, 0, s, ArtrixPageUrl(1), responses);
            && (forall i :: 0 <= i < |r.urls| ==> r.urls[i] == ArtrixPageUrl(i + 1))
            && (forall i :: 0 <= i < |r.urls| - 1 ==>
                  i < |responses| && responses[i].Page? && responses[i].doc.Some? && responses[i].doc.value != [])
            && (r.fault.None? ==> |r.urls| - 1 < |responses| && responses[|r.urls| - 1].Page? && responses[|r.urls| - 1].doc == Some([]))
  {
    CrawlCounted(ArtrixScan, step, 0, s, ArtrixPageUrl(1), responses, (j: nat) => ArtrixPageUrl(j + 1));
  }

  /** The Warwick requests `?start=0`, `?start=10`, ... in turn; every page
      but the last had events, and a fetch that ends without an exception
      ends at the first page with none. This holds whatever the entries do. */
  lemma WarwickPages<S>(step: (S, Item) -> (S, Step), s: S, responses: seq<Response<Option<seq<Item>>>>)
    ensures var r := Crawl(WarwickScan, step, 0, s, WarwickPageUrl(0), responses);
            && (forall i :: 0 <= i < |r.urls| ==> r.urls[i] == WarwickPageUrl(10 * i))
            && (forall i :: 0 <= i < |r.urls| - 1 ==>
                  i < |responses| && responses[i].Page? && responses[i].doc.Some? && responses[i].doc.value != [])
            && (r.fault.None? ==> |r.urls| - 1 < |responses| && responses[|r.urls| - 1].Page? && responses[|r.urls| - 1].doc == Some([]))
  {
    CrawlCounted(WarwickScan, step, 0, s, WarwickPageUrl(0), responses, (j: nat) => WarwickPageUrl(10 * j));
  }

  // ---------------------------------------------------------------------
  // Warwick: entries whose dates raise ValueError are skipped
  // ---------------------------------------------------------------------

  /** Whether the Warwick's date rule raises ValueError does not depend on
      the `start_date` earlier entries left, and when it does the error is
      the same. */
  lemma WarwickBadDateAnyPrevious(text: string, previous: Option<Date>, currentYear: nat)
    requires WarwickDates(text, None, currentYear).Raise? && WarwickDates(text, None, currentYear).fault.BadDate?
    ensures WarwickDates(text, previous, currentYear) == WarwickDates(text, None, currentYear)
  {
  }

  /** An entry with all its fields whose date text raises ValueError. */
  predicate Unreadable(currentYear: nat, it: Item)
  {
    && HasFields(it) && it.date.Some?
    && WarwickDates(WarwickText(it.date.value), None, currentYear).Raise?
    && WarwickDates(WarwickText(it.date.value), None, currentYear).fault.BadDate?
  }

  /** The Warwick yields the same shows, and stops at the same exception,
      as it would with its unreadable entries taken out: skipping one
      leaves `start_date` as it was. */
  lemma WarwickSkipsUnreadable(currentYear: nat, previous: Option<Date>, items: seq<Item>)
    ensures Drain(WarwickStep(currentYear), previous, items)
            == Drain(WarwickStep(currentYear), previous, Kept(items, (it: Item) => Unreadable(currentYear, it)))
  {
    var skip := (it: Item) => Unreadable(currentYear, it);
    forall t: Option<Date>, it: Item | Unreadable(currentYear, it)
      ensures WarwickStep(currentYear)(t, it) == (t, Pass)
    {
      WarwickBadDateAnyPrevious(WarwickText(it.date.value), t, currentYear);
      var r := WarwickEntry(currentYear, t, it);
      assert r.1.Pass? && r.0 == t;
    }
    DrainSkips(WarwickStep(currentYear), previous, items, skip);
  }

  // ---------------------------------------------------------------------
  // Arena Birmingham: `start_date` leaks from one entry to the next
  // ---------------------------------------------------------------------

  /** An entry written "d month - d month year" after one that yielded a
      show starts on that show's start, whatever it says. */
  lemma ArenaStartLeaks(first: Card, second: Card, a: Date, b: Date, w: nat)
    requires ArenaEntry(None, first).1.Emit?
    requires second.item.href.Some? && second.item.title.Some? && Thumbnail(second.images, second.item.title.value).Got?
    requires Writable(a) && Writable(b) && w < 7 && !(a.month == 2 && a.day == 29)
    requires second.item.date == Some(Range(Render(DayMonth, English, a, w), '-', Render(DayMonthYear, English, b, w)))
    ensures var o := Drain(ArenaEntry, None, [first, second]);
            && o.fault.None? && |o.shows| == 2
            && o.shows[0] == ArenaEntry(None, first).1.show
            && o.shows[1].start == o.shows[0].start
            && o.shows[1].end == b
  {
    var one := ArenaEntry(None, first);
    ArenaKeepsPrevious(a, b, one.0, w);
    var two := ArenaEntry(one.0, second);
    assert two.1.Emit? && two.1.show.start == one.1.show.start && two.1.show.end == b;
    DrainTwo(ArenaEntry, None, first, second);
  }

  /** The same entry first in the list raises UnboundLocalError. */
  lemma ArenaFirstUnbound(second: Card, a: Date, b: Date, w: nat)
    requires second.item.href.Some? && second.item.title.Some? && Thumbnail(second.images, second.item.title.value).Got?
    requires Writable(a) && Writable(b) && w < 7 && !(a.month == 2 && a.day == 29)
    requires second.item.date == Some(Range(Render(DayMonth, English, a, w), '-', Render(DayMonthYear, English, b, w)))
    ensures Drain(ArenaEntry, None, [second]) == Outcome([], Some(Unassigned), None)
  {
    ArenaKeepsPrevious(a, b, None, w);
  }
}
