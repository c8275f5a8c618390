/** The records the venue fetchers read and produce, and the exceptions
    they can raise, as values. */
module Shows {
  import opened Wrappers
  import opened Text
  import opened Dates

  /** The exceptions a fetch can end with. */
  datatype Fault =
    | BadDate(why: Failure)  // ValueError from strptime, fromisoformat or date()
    | LayoutChanged          // ValueError("cannot find ...") raised on purpose
    | NoElement              // AttributeError: an element (or end_date) read was None
    | NoIndex                // IndexError: an empty list was indexed
    | NoKey                  // KeyError: a missing mapping key or tag attribute
    | Unassigned             // UnboundLocalError: a variable read before assignment
    | AssertFailed           // AssertionError
    | Unsupported            // NotImplementedError
    | FetchFailed            // the fetch collaborator raised (HTTP error, no response)

  /** A value or the exception raised instead. */
  datatype Result<T> = Got(value: T) | Raise(fault: Fault)

  /** The ValueError strptime or date() raises, or the date. */
  function FromDate(r: DateResult): (o: Result<Date>)
    ensures o.Got? <==> r.Ok?
    ensures o.Got? ==> o.value == r.date
    ensures o.Raise? ==> o.fault == BadDate(r.why)
  {
    match r
    case Ok(d) => Got(d)
    case Fail(why) => Raise(BadDate(why))
  }

  /** The (start_date, end_date) pair of one show. */
  datatype Span = Span(start: Date, end: Date)

  /** One show, as the fetchers yield it. */
  datatype Show = Show(title: string, imageUrl: string, linkUrl: string, start: Date, end: Date)

  /** One listing entry, with the markup already searched: each field is
      the text or attribute the fetcher reads, or None when the element it
      looks for is missing. */
  datatype Item = Item(title: Option<string>, href: Option<string>, src: Option<string>, date: Option<string>)

  /** The fields every fetcher needs besides the date. */
  predicate HasFields(it: Item)
  {
    it.title.Some? && it.href.Some? && it.src.Some?
  }

  /** What the loop body does with one entry: yield a show, go on to the
      next entry, or let an exception out of the generator. */
  datatype Step = Emit(show: Show) | Pass | Halt(fault: Fault)

  /** `"".join([root_url, path])`. */
  function Absolute(root: string, path: string): (u: string)
    ensures |u| == |root| + |path| && u[..|root|] == root && u[|root|..] == path
  {
    root + path
  }

  /** `f"{text} {n}"`: a number appended after a blank. */
  function Appended(text: string, n: nat): (s: string)
    ensures |s| > |text| + 1 && s[..|text|] == text && s[|text|] == ' '
  {
    text + " " + NatStr(n)
  }

  /** `[part.strip() for part in text.split(sep)]`, of which the fetchers
      read the first two. */
  function Halves(text: string, sep: char): (h: (string, string))
    requires sep in text
    ensures h.0 == Strip(Text.Before(text, sep))
    ensures |Text.Before(text, sep)| < |text| && h.1 == Strip(Text.Before(text[|Text.Before(text, sep)| + 1..], sep))
    ensures sep !in h.0 && sep !in h.1
    ensures h.0 == [] || (!IsSpace(h.0[0]) && !IsSpace(h.0[|h.0| - 1]))
    ensures h.1 == [] || (!IsSpace(h.1[0]) && !IsSpace(h.1[|h.1| - 1]))
  {
    var parts := Split(text, sep);
    SplitFirst(text, sep);
    SplitSecond(text, sep);
    (Strip(parts[0]), Strip(parts[1]))
  }
}
