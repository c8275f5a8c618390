/** The fetcher classes and the ingestion loop. Every class sets four
    attributes the base class leaves None; making a fetcher checks them in
    a fixed order. The ingestion goes through the classes, passes over the
    ones marked inactive, makes a fetcher of each of the others, and
    uploads every show it yields under the fetcher's name; an exception
    anywhere ends it. */
module Registry {
  import opened Wrappers
  import opened Shows
  import opened Listing
  import opened Paging
  import opened Sources

  /** The class attributes `url`, `root_url`, `name` and `active`. */
  datatype Attributes = Attributes(url: Option<string>, rootUrl: Option<string>, name: Option<string>,
                                   active: Option<bool>)

  /** Which attribute a ValidationError is about. */
  datatype Unset = NoUrl | NoRootUrl | NoName | NoActive

  /** A fetcher instance, every attribute set. */
  datatype Fetcher = Fetcher(url: string, rootUrl: string, name: string, active: bool)

  /** `Fetcher()`: an instance, or the ValidationError it raises. */
  datatype Made = Made(fetcher: Fetcher) | ValidationError(unset: Unset)

  /** The checks of `Fetcher.__init__`: the first attribute still None,
      in the order url, root_url, name, active, is the error. */
  function MakeFetcher(a: Attributes): (m: Made)
    ensures m == ValidationError(NoUrl) <==> a.url.None?
    ensures m == ValidationError(NoRootUrl) <==> a.url.Some? && a.rootUrl.None?
    ensures m == ValidationError(NoName) <==> a.url.Some? && a.rootUrl.Some? && a.name.None?
    ensures m == ValidationError(NoActive) <==> a.url.Some? && a.rootUrl.Some? && a.name.Some? && a.active.None?
    ensures m.Made? <==> a.url.Some? && a.rootUrl.Some? && a.name.Some? && a.active.Some?
    ensures m.Made? ==> m.fetcher == Fetcher(a.url.value, a.rootUrl.value, a.name.value, a.active.value)
  {
    if a.url.None? then ValidationError(NoUrl)
    else if a.rootUrl.None? then ValidationError(NoRootUrl)
    else if a.name.None? then ValidationError(NoName)
    else if a.active.None? then ValidationError(NoActive)
    else Made(Fetcher(a.url.value, a.rootUrl.value, a.name.value, a.active.value))
  }

  /** The attributes of the base class. */
  const Unconfigured := Attributes(None, None, None, None)

  /** The attributes a venue's class sets. */
  function ClassAttributes(v: Venue): Attributes
  {
    Attributes(Some(ListingUrl(v)), Some(RootUrl(v)), Some(Name(v)), Some(true))
  }

  /** The classes defined, in the order they are defined. */
  const Registered: seq<Venue> :=
    [Albany, Belgrade, SymphonyHall, Hippodrome, ResortsWorld, ArenaBirmingham, Artrix, NewAlexandra, WarwickArtsCentre]

  /** Every class defined can be made into an active fetcher; the base
      class cannot. */
  lemma RegisteredMake()
    ensures forall i :: 0 <= i < |Registered| ==>
              MakeFetcher(ClassAttributes(Registered[i])) ==
                Made(Fetcher(ListingUrl(Registered[i]), RootUrl(Registered[i]), Name(Registered[i]), true))
    ensures MakeFetcher(Unconfigured) == ValidationError(NoUrl)
  {
  }

  /** A class as the loop meets it: its attributes, and what its `fetch`
      generator does when run. */
  datatype Source = Source(attributes: Attributes, run: Run)

  /** `upload(name, show)`, one call. */
  datatype Upload = Upload(name: string, show: Show)

  /** The exception that ended the ingestion. */
  datatype Abort = Invalid(unset: Unset) | Raised(fault: Fault)

  /** The uploads made, in order, and the exception that ended it all. */
  datatype Ingested = Ingested(uploads: seq<Upload>, abort: Option<Abort>)

  /** A source the loop passes over: `active is False`. A class whose
      `active` is None is not passed over; making it fails instead. */
  predicate Inactive(src: Source)
  {
    src.attributes.active == Some(false)
  }

  /** The uploads of one fetcher's shows, in the order it yields them. */
  function Uploads(name: string, shows: seq<Show>): (u: seq<Upload>)
    ensures |u| == |shows|
    ensures forall i :: 0 <= i < |shows| ==> u[i] == Upload(name, shows[i])
  {
    seq(|shows|, i requires 0 <= i < |shows| => Upload(name, shows[i]))
  }

  /** `src` is active and ends the loop with `a`: it cannot be made into
      a fetcher, or its fetch raises. */
  predicate AbortedBy(src: Source, a: Abort)
  {
    && !Inactive(src)
    && match a
       case Invalid(unset) => MakeFetcher(src.attributes) == ValidationError(unset)
       case Raised(fault) => MakeFetcher(src.attributes).Made? && src.run.fault == Some(fault)
  }

  /** Some class of `sources` ends the loop with `a`. */
  predicate SomeAbortedBy(sources: seq<Source>, a: Abort)
  {
    exists i :: 0 <= i < |sources| && AbortedBy(sources[i], a)
  }

  /** Some active class of `sources` can be made into a fetcher. */
  predicate SomeMade(sources: seq<Source>)
  {
    exists i :: 0 <= i < |sources| && !Inactive(sources[i]) && MakeFetcher(sources[i].attributes).Made?
  }

  /** What the ingestion loop does over `sources`: an exception that ends
      it comes from an active class, and only a fetcher that was made
      uploads anything. */
  function Ingest(sources: seq<Source>): (r: Ingested)
    ensures r.abort.Some? ==> SomeAbortedBy(sources, r.abort.value)
    ensures r.uploads != [] ==> SomeMade(sources)
    decreases |sources|
  {
    if sources == [] then Ingested([], None)
    else
      var src := sources[0];
      if Inactive(src) then Ingest(sources[1..])
      else
        match MakeFetcher(src.attributes)
        case ValidationError(unset) => Ingested([], Some(Invalid(unset)))
        case Made(f) =>
          var mine := Uploads(f.name, src.run.shows);
          if src.run.fault.Some? then Ingested(mine, Some(Raised(src.run.fault.value)))
          else
            var rest := Ingest(sources[1..]);
            Ingested(mine + rest.uploads, rest.abort)
  }

  /** Inactive classes make no difference to the ingestion. */
  lemma {:induction false} IngestSkipsInactive(sources: seq<Source>)
    ensures Ingest(sources) == Ingest(Kept(sources, Inactive))
    decreases |sources|
  {
    if sources != [] {
      IngestSkipsInactive(sources[1..]);
      if !Inactive(sources[0]) {
        var k := Kept(sources, Inactive);
        assert k[0] == sources[0] && k[1..] == Kept(sources[1..], Inactive);
      }
    }
  }

  /** The ingestion runs to the end exactly when every active class can
      be made into a fetcher whose fetch raises nothing. */
  lemma {:induction false} IngestCompletes(sources: seq<Source>)
    ensures Ingest(sources).abort.None? <==>
              forall i :: 0 <= i < |sources| && !Inactive(sources[i]) ==>
                MakeFetcher(sources[i].attributes).Made? && sources[i].run.fault.None?
    decreases |sources|
  {
    if sources != [] {
      IngestCompletes(sources[1..]);
      assert forall i :: 1 <= i < |sources| ==> sources[i] == sources[1..][i - 1];
    }
  }

  /** Every upload is a show some active source's fetch yielded, under
      that source's name. */
  lemma {:induction false} IngestUploads(sources: seq<Source>)
    ensures forall u :: u in Ingest(sources).uploads ==>
              exists i :: 0 <= i < |sources| && !Inactive(sources[i]) &&
                sources[i].attributes.name == Some(u.name) && u.show in sources[i].run.shows
    decreases |sources|
  {
    if sources != [] {
      IngestUploads(sources[1..]);
      var r := Ingest(sources);
      forall u | u in r.uploads
        ensures exists i :: 0 <= i < |sources| && !Inactive(sources[i]) &&
                  sources[i].attributes.name == Some(u.name) && u.show in sources[i].run.shows
      {
        var src := sources[0];
        if !Inactive(src) && MakeFetcher(src.attributes).Made? {
          var mine := Uploads(MakeFetcher(src.attributes).fetcher.name, src.run.shows);
          if u in mine {
            var j :| 0 <= j < |mine| && mine[j] == u;
            assert u.show == src.run.shows[j];
          } else {
            var i :| 0 <= i < |sources[1..]| && !Inactive(sources[1..][i]) &&
                     sources[1..][i].attributes.name == Some(u.name) && u.show in sources[1..][i].run.shows;
            assert sources[1..][i] == sources[i + 1];
          }
        } else {
          var i :| 0 <= i < |sources[1..]| && !Inactive(sources[1..][i]) &&
                   sources[1..][i].attributes.name == Some(u.name) && u.show in sources[1..][i].run.shows;
          assert sources[1..][i] == sources[i + 1];
        }
      }
    }
  }

  /** The ingestion over the classes defined, each with what its fetch
      does. */
  function ClassSources(runs: Venue -> Run): (srcs: seq<Source>)
    ensures |srcs| == |Registered|
    ensures forall i :: 0 <= i < |Registered| ==> srcs[i] == Source(ClassAttributes(Registered[i]), runs(Registered[i]))
  {
    seq(|Registered|, i requires 0 <= i < |Registered| => Source(ClassAttributes(Registered[i]), runs(Registered[i])))
  }

  /** The inner loop of `main`: `upload(name, show)` for each show, in
      the order the fetch yields them. */
  method UploadEach(name: string, shows: seq<Show>) returns (uploads: seq<Upload>)
    ensures uploads == Uploads(name, shows)
  {
    uploads := [];
    var j := 0;
    while j < |shows|
      invariant 0 <= j <= |shows|
      invariant uploads == Uploads(name, shows[..j])
    {
      assert Uploads(name, shows[..j + 1]) == Uploads(name, shows[..j]) + [Upload(name, shows[j])];
      uploads := uploads + [Upload(name, shows[j])];
      j := j + 1;
    }
    assert shows[..j] == shows;
  }

  /** `main`'s loop: each class in turn; inactive ones are passed over, the
      others are made into fetchers and every show their fetch yields is
      uploaded as it comes; the first exception ends the loop. */
  method IngestAll(sources: seq<Source>) returns (uploads: seq<Upload>, abort: Option<Abort>)
    ensures Ingested(uploads, abort) == Ingest(sources)
  {
    uploads, abort := [], None;
    var i := 0;
    while i < |sources| && abort.None?
      invariant 0 <= i <= |sources|
      invariant abort.None? ==> Ingest(sources) == Ingested(uploads + Ingest(sources[i..]).uploads, Ingest(sources[i..]).abort)
      invariant abort.Some? ==> Ingest(sources) == Ingested(uploads, abort)
      decreases |sources| - i
    {
      var src := sources[i];
      assert sources[i..][0] == src && sources[i..][1..] == sources[i + 1..];
      if !Inactive(src) {
        var made := MakeFetcher(src.attributes);
        if made.ValidationError? {
          abort := Some(Invalid(made.unset));
        } else {
          ghost var before := uploads;
          var mine := UploadEach(made.fetcher.name, src.run.shows);
          uploads := uploads + mine;
          if src.run.fault.Some? {
            abort := Some(Raised(src.run.fault.value));
          } else {
            assert before + (mine + Ingest(sources[i + 1..]).uploads)
                   == uploads + Ingest(sources[i + 1..]).uploads;
          }
        }
      }
      i := i + 1;
    }
    if abort.None? {
      assert sources[i..] == [];
    }
  }
}
