/** The `while True` page loops of the fetchers. A page is requested, its
    structure checked, its entries run through the entry loop, and the next
    URL taken from a "next" link or from a page counter, until there is no
    next page, a page has no entries, or something raises. The network is
    a parameter: the k-th request gets the k-th response, and a request
    past the last response fails as an HTTP error does. */
module Paging {
  import opened Wrappers
  import opened Text
  import opened Shows
  import opened Listing

  /** What a request returns: a parsed page, or an error the fetch
      collaborator raises. */
  datatype Response<D> = Page(doc: D) | HttpError

  /** What a fetcher makes of one page before its entry loop: the page is
      not laid out as expected (an exception), it has no entries (the
      counter-driven loops stop), or its entries and the URL of the next
      page, if there is one. */
  datatype Scan<E> = Broken(fault: Fault) | Empty | Entries(items: seq<E>, next: Option<string>)

  /** The URLs requested, in order, the shows yielded, in order, and the
      exception that ended the generator, if any. */
  datatype Run = Run(urls: seq<string>, shows: seq<Show>, fault: Option<Fault>)

  /** What one turn of the page loop does at `url`: the loop stops with
      what this page gave, or goes on to the next URL with the shows this
      page yielded and the state its entries left. */
  datatype Turn<S> = Stop(run: Run) | Go(shows: seq<Show>, state: S, next: string)

  /** One turn of the page loop, page number `k` (counted from 0), state `s`. */
  function PageTurn<S, D, E>(scan: (nat, D) -> Scan<E>, step: (S, E) -> (S, Step),
                             k: nat, s: S, url: string, responses: seq<Response<D>>): (t: Turn<S>)
    ensures t.Go? ==> responses != [] && responses[0].Page?
    ensures t.Go? ==> scan(k, responses[0].doc).Entries? && scan(k, responses[0].doc).next == Some(t.next)
    ensures t.Stop? ==> t.run.urls == [url]
    ensures t.Stop? && t.run.fault.None? ==>
              && responses != [] && responses[0].Page?
              && (scan(k, responses[0].doc).Empty? ||
                  (scan(k, responses[0].doc).Entries? && scan(k, responses[0].doc).next.None?))
  {
    if responses == [] || responses[0].HttpError? then Stop(Run([url], [], Some(FetchFailed)))
    else
      match scan(k, responses[0].doc)
      case Broken(f) => Stop(Run([url], [], Some(f)))
      case Empty => Stop(Run([url], [], None))
      case Entries(items, next) =>
        var o := Drain(step, s, items);
        if o.fault.Some? || next.None? then Stop(Run([url], o.shows, o.fault))
        else Go(o.shows, o.state, next.value)
  }

  /** The page loop from page number `k` at `url`, with the carried state
      `s`. */
  function Crawl<S, D, E>(scan: (nat, D) -> Scan<E>, step: (S, E) -> (S, Step),
                          k: nat, s: S, url: string, responses: seq<Response<D>>): (r: Run)
    ensures 1 <= |r.urls| <= |responses| + 1 && r.urls[0] == url
    decreases |responses|
  {
    match PageTurn(scan, step, k, s, url, responses)
    case Stop(run) => run
    case Go(shows, state, next) => After([url], shows, Crawl(scan, step, k + 1, state, next, responses[1..]))
  }

  /** `r` after the pages already requested. */
  function After(urls: seq<string>, shows: seq<Show>, r: Run): Run
  {
    Run(urls + r.urls, shows + r.shows, r.fault)
  }

  /** Every page but the last was fetched, had entries and a next link,
      and that link is the next URL requested. */
  lemma {:induction false} CrawlLinks<S, D, E>(scan: (nat, D) -> Scan<E>, step: (S, E) -> (S, Step),
                                              k: nat, s: S, url: string, responses: seq<Response<D>>)
    ensures var r := Crawl(scan, step, k, s, url, responses);
            forall i :: 0 <= i < |r.urls| - 1 ==>
              && i < |responses| && responses[i].Page?
              && scan(k + i, responses[i].doc).Entries?
              && scan(k + i, responses[i].doc).next == Some(r.urls[i + 1])
    decreases |responses|
  {
    var r := Crawl(scan, step, k, s, url, responses);
    var t := PageTurn(scan, step, k, s, url, responses);
    CrawlTurn(scan, step, k, s, url, responses);
    if t.Go? {
      var rest := Crawl(scan, step, k + 1, t.state, t.next, responses[1..]);
      CrawlLinks(scan, step, k + 1, t.state, t.next, responses[1..]);
      assert r.urls == [url] + rest.urls && r.urls[1] == t.next;
      forall i | 1 <= i < |r.urls| - 1
        ensures i < |responses| && responses[i].Page?
        ensures scan(k + i, responses[i].doc).Entries? && scan(k + i, responses[i].doc).next == Some(r.urls[i + 1])
      {
        assert r.urls[i + 1] == rest.urls[i] && responses[1..][i - 1] == responses[i];
        assert k + 1 + (i - 1) == k + i;
      }
    }
  }

  /** A loop that ended without an exception ended at a page it fetched
      that had no entries or no next link. */
  lemma {:induction false} CrawlEnds<S, D, E>(scan: (nat, D) -> Scan<E>, step: (S, E) -> (S, Step),
                                             k: nat, s: S, url: string, responses: seq<Response<D>>)
    ensures var r := Crawl(scan, step, k, s, url, responses);
            var last := |r.urls| - 1;
            r.fault.None? ==>
              && last < |responses| && responses[last].Page?
              && (scan(k + last, responses[last].doc).Empty? ||
                  (scan(k + last, responses[last].doc).Entries? && scan(k + last, responses[last].doc).next.None?))
    decreases |responses|
  {
    var r := Crawl(scan, step, k, s, url, responses);
    var t := PageTurn(scan, step, k, s, url, responses);
    CrawlTurn(scan, step, k, s, url, responses);
    if t.Go? {
      var rest := Crawl(scan, step, k + 1, t.state, t.next, responses[1..]);
      CrawlEnds(scan, step, k + 1, t.state, t.next, responses[1..]);
      var last := |r.urls| - 1;
      assert last == |rest.urls| && r.fault == rest.fault;
      if r.fault.None? {
        assert responses[1..][last - 1] == responses[last];
        assert scan(k + last, responses[last].doc) == scan(k + 1 + (last - 1), responses[1..][last - 1].doc);
      }
    } else {
      assert |r.urls| - 1 == 0 && k + 0 == k;
    }
  }

  /** A loop whose URLs come from a counter: the i-th request is for page
      `k + i`, and the loop stops at the first page without entries. */
  lemma CrawlCounted<S, D, E>(scan: (nat, D) -> Scan<E>, step: (S, E) -> (S, Step),
                              k: nat, s: S, url: string, responses: seq<Response<D>>, at: nat -> string)
    requires url == at(k)
    requires forall j: nat, d: D :: scan(j, d).Entries? ==> scan(j, d).next == Some(at(j + 1))
    ensures var r := Crawl(scan, step, k, s, url, responses);
            && (forall i :: 0 <= i < |r.urls| ==> r.urls[i] == at(k + i))
            && (forall i :: 0 <= i < |r.urls| - 1 ==>
                  i < |responses| && responses[i].Page? && scan(k + i, responses[i].doc).Entries?)
            && (r.fault.None? ==>
                  && |r.urls| - 1 < |responses| && responses[|r.urls| - 1].Page?
                  && scan(k + |r.urls| - 1, responses[|r.urls| - 1].doc).Empty?)
  {
    var r := Crawl(scan, step, k, s, url, responses);
    CrawlLinks(scan, step, k, s, url, responses);
    CrawlEnds(scan, step, k, s, url, responses);
    forall i | 0 <= i < |r.urls|
      ensures r.urls[i] == at(k + i)
    {
      if i > 0 {
        assert scan(k + (i - 1), responses[i - 1].doc).next == Some(r.urls[i]);
      }
    }
  }

  /** A fetcher whose pages never name a next one requests only its first
      URL, and yields what that page's entries yield. */
  lemma CrawlOnePage<S, D, E>(scan: (nat, D) -> Scan<E>, step: (S, E) -> (S, Step),
                              k: nat, s: S, url: string, responses: seq<Response<D>>)
    requires forall j: nat, d: D :: scan(j, d).Entries? ==> scan(j, d).next.None?
    ensures Crawl(scan, step, k, s, url, responses).urls == [url]
    ensures responses != [] && responses[0].Page? && scan(k, responses[0].doc).Entries? ==>
              var o := Drain(step, s, scan(k, responses[0].doc).items);
              Crawl(scan, step, k, s, url, responses) == Run([url], o.shows, o.fault)
  {
  }

  /** Every show the page loop yields satisfies `good` when every step
      that yields one does, whatever the state. */
  lemma {:induction false} CrawlYields<S, D, E>(scan: (nat, D) -> Scan<E>, step: (S, E) -> (S, Step),
                                               k: nat, s: S, url: string, responses: seq<Response<D>>,
                                               good: Show -> bool)
    requires forall t: S, e: E :: step(t, e).1.Emit? ==> good(step(t, e).1.show)
    ensures forall i :: 0 <= i < |Crawl(scan, step, k, s, url, responses).shows| ==>
              good(Crawl(scan, step, k, s, url, responses).shows[i])
    decreases |responses|
  {
    if responses != [] && responses[0].Page? && scan(k, responses[0].doc).Entries? {
      var page := scan(k, responses[0].doc);
      DrainYields(step, s, page.items, good);
      var o := Drain(step, s, page.items);
      if o.fault.None? && page.next.Some? {
        var rest := Crawl(scan, step, k + 1, o.state, page.next.value, responses[1..]);
        CrawlYields(scan, step, k + 1, o.state, page.next.value, responses[1..], good);
        var r := Crawl(scan, step, k, s, url, responses);
        assert r.shows == o.shows + rest.shows;
        forall i | 0 <= i < |r.shows|
          ensures good(r.shows[i])
        {
          if i >= |o.shows| {
            assert r.shows[i] == rest.shows[i - |o.shows|];
            assert good(rest.shows[i - |o.shows|]);
          } else {
            assert r.shows[i] == o.shows[i];
            assert good(o.shows[i]);
          }
        }
      }
    }
  }

  lemma AfterAfter(urls: seq<string>, shows: seq<Show>, url: string, found: seq<Show>, r: Run)
    ensures After(urls, shows, After([url], found, r)) == After(urls + [url], shows + found, r)
  {
    assert urls + ([url] + r.urls) == (urls + [url]) + r.urls;
    assert shows + (found + r.shows) == (shows + found) + r.shows;
  }

  /** The page loop is its first turn, then the rest of the loop. */
  lemma CrawlTurn<S, D, E>(scan: (nat, D) -> Scan<E>, step: (S, E) -> (S, Step),
                           k: nat, s: S, url: string, responses: seq<Response<D>>)
    ensures var t := PageTurn(scan, step, k, s, url, responses);
            && (t.Stop? ==> Crawl(scan, step, k, s, url, responses) == t.run)
            && (t.Go? ==> Crawl(scan, step, k, s, url, responses)
                          == After([url], t.shows, Crawl(scan, step, k + 1, t.state, t.next, responses[1..])))
  {
  }

  /** A turn that goes on: the pages before it, this page, then the rest. */
  lemma CrawlGoes<S, D, E>(scan: (nat, D) -> Scan<E>, step: (S, E) -> (S, Step),
                           k: nat, s: S, url: string, responses: seq<Response<D>>,
                           urls: seq<string>, shows: seq<Show>, found: seq<Show>, after: S, next: string)
    requires PageTurn(scan, step, k, s, url, responses) == Go(found, after, next)
    ensures After(urls, shows, Crawl(scan, step, k, s, url, responses))
            == After(urls + [url], shows + found, Crawl(scan, step, k + 1, after, next, responses[1..]))
  {
    CrawlTurn(scan, step, k, s, url, responses);
    AfterAfter(urls, shows, url, found, Crawl(scan, step, k + 1, after, next, responses[1..]));
  }

  /** A turn that stops: the pages before it, then this one, and the
      loop ends with it. */
  lemma CrawlStops<S, D, E>(scan: (nat, D) -> Scan<E>, step: (S, E) -> (S, Step),
                            k: nat, s: S, url: string, responses: seq<Response<D>>,
                            urls: seq<string>, shows: seq<Show>, found: seq<Show>, fault: Option<Fault>)
    requires PageTurn(scan, step, k, s, url, responses) == Stop(Run([url], found, fault))
    ensures After(urls, shows, Crawl(scan, step, k, s, url, responses)) == Run(urls + [url], shows + found, fault)
  {
    CrawlTurn(scan, step, k, s, url, responses);
  }

  /** One turn of the page loop: request the page, check it, run its
      entries, and say whether the loop goes on, and where. */
  method Visit<S, D, E>(scan: (nat, D) -> Scan<E>, step: (S, E) -> (S, Step),
                        k: nat, s: S, url: string, responses: seq<Response<D>>)
    returns (more: bool, found: seq<Show>, fault: Option<Fault>, after: S, next: string)
    ensures more ==> PageTurn(scan, step, k, s, url, responses) == Go(found, after, next)
    ensures !more ==> PageTurn(scan, step, k, s, url, responses) == Stop(Run([url], found, fault))
  {
    more, found, fault, after, next := false, [], None, s, url;
    if responses == [] || responses[0].HttpError? {
      fault := Some(FetchFailed);
      return;
    }
    match scan(k, responses[0].doc) {
      case Broken(f) =>
        fault := Some(f);
      case Empty =>
      case Entries(items, link) =>
        found, fault, after := DrainItems(step, s, items);
        if fault.None? && link.Some? {
          more, next := true, link.value;
        }
    }
  }

  /** The page loop itself. */
  method Fetch<S, D, E>(scan: (nat, D) -> Scan<E>, step: (S, E) -> (S, Step),
                        k: nat, s: S, url: string, responses: seq<Response<D>>)
    returns (urls: seq<string>, shows: seq<Show>, fault: Option<Fault>)
    ensures Run(urls, shows, fault) == Crawl(scan, step, k, s, url, responses)
  {
    ghost var total := Crawl(scan, step, k, s, url, responses);
    urls, shows, fault := [], [], None;
    var page, state, at, left := k, s, url, responses;
    var going := true;
    while going
      invariant going ==> total == After(urls, shows, Crawl(scan, step, page, state, at, left))
      invariant !going ==> total == Run(urls, shows, fault)
      decreases |left| + (if going then 1 else 0)
    {
      var more, found, failed, after, next := Visit(scan, step, page, state, at, left);
      if more {
        CrawlGoes(scan, step, page, state, at, left, urls, shows, found, after, next);
        urls, shows := urls + [at], shows + found;
        page, state, at, left := page + 1, after, next, left[1..];
      } else {
        CrawlStops(scan, step, page, state, at, left, urls, shows, found, failed);
        urls, shows, fault := urls + [at], shows + found, failed;
        going := false;
      }
    }
  }
}
