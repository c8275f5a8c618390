/** The date rules of each venue: how one entry's date text becomes the
    (start_date, end_date) pair, with the fallbacks each site uses for a
    side written without a year or a month, and the exception each rule
    lets out when the text does not fit. */
module Ranges {
  import opened Wrappers
  import opened Text
  import opened Dates
  import opened Strptime
  import opened Normalise
  import opened Shows

  /** Both sides of a span are real calendar dates. */
  predicate ValidSpan(s: Span)
  {
    IsValid(s.start) && IsValid(s.end)
  }

  // ---------------------------------------------------------------------
  // Albany Theatre: "%d %B %Y", or "%d %B - %d %B %Y"
  // ---------------------------------------------------------------------

  /** The Albany's rule: the right side has a year, the left side only a
      day and a month, and the start is built in the end's year. */
  function AlbanyDates(text: string): (r: Result<Span>)
    ensures r.Got? ==> ValidSpan(r.value)
    ensures r.Raise? ==> r.fault.BadDate?
    ensures '-' !in text ==> (r.Got? <==> Parse(text, DayMonthYear).Ok?)
    ensures '-' !in text && r.Got? ==> r.value.start == r.value.end && Parse(text, DayMonthYear) == Ok(r.value.start)
  {
    if '-' in text then
      var h := Halves(text, '-'); var left, right := h.0, h.1;
      match Parse(right, DayMonthYear)
      case Fail(e) => Raise(BadDate(e))
      case Ok(end) =>
        match Parse(left, DayMonth)
        case Fail(e) => Raise(BadDate(e))
        case Ok(dm) =>
          match MakeDate(end.year, dm.month, dm.day)
          case Fail(e) => Raise(BadDate(e))
          case Ok(start) => Got(Span(start, end))
    else
      match Parse(text, DayMonthYear)
      case Fail(e) => Raise(BadDate(e))
      case Ok(d) => Got(Span(d, d))
  }

  /** A range at the Albany succeeds exactly when its right side is a full
      date and its left side a day and month; the end is the right side
      and the start is the left side's day and month in the end's year. */
  lemma AlbanyRange(text: string)
    requires '-' in text
    ensures var h := Halves(text, '-');
            AlbanyDates(text).Got? <==> Parse(h.1, DayMonthYear).Ok? && Parse(h.0, DayMonth).Ok?
    ensures var h := Halves(text, '-');
            AlbanyDates(text).Got? ==>
              && Parse(h.1, DayMonthYear) == Ok(AlbanyDates(text).value.end)
              && AlbanyDates(text).value.start.year == AlbanyDates(text).value.end.year
              && AlbanyDates(text).value.start.month == Parse(h.0, DayMonth).date.month
              && AlbanyDates(text).value.start.day == Parse(h.0, DayMonth).date.day
  {
    var h := Halves(text, '-');
    if Parse(h.1, DayMonthYear).Ok? && Parse(h.0, DayMonth).Ok? {
      DayMonthInAnyYear(h.0, Parse(h.1, DayMonthYear).date.year);
    }
  }

  /** A day and month that strptime accepts in 1900 exist in every year:
      1900 is not a leap year, so 29 February never gets through. */
  lemma DayMonthInAnyYear(s: string, y: int)
    requires Parse(s, DayMonth).Ok? && MinYear <= y <= MaxYear
    ensures IsValid(Date(y, Parse(s, DayMonth).date.month, Parse(s, DayMonth).date.day))
  {
    DayMonthIn1900(s);
    ValidFrom1900(Parse(s, DayMonth).date, y);
  }

  lemma DayMonthIn1900(s: string)
    requires Parse(s, DayMonth).Ok?
    ensures Parse(s, DayMonth).date.year == 1900 && IsValid(Parse(s, DayMonth).date)
  {
    assert Year !in DayMonth;
  }

  lemma ValidFrom1900(d: Date, y: int)
    requires d.year == 1900 && IsValid(d) && MinYear <= y <= MaxYear
    ensures IsValid(Date(y, d.month, d.day))
  {
    assert !IsLeapYear(1900);
    ValidInAnyYear(d, y);
  }

  // ---------------------------------------------------------------------
  // Belgrade Theatre: "%d %B" under a "%B %Y" panel heading
  // ---------------------------------------------------------------------

  /** `parse_single_date`: the day and month of the text, in the panel's
      year. A 29 February is out of range in the default year 1900, so it
      is parsed again with the panel year appended; any other mismatch
      leaves `tmp_date` unassigned. */
  function BelgradeDay(text: string, year: int): (r: Result<Date>)
    requires MinYear <= year <= MaxYear
    ensures r.Got? ==> IsValid(r.value) && r.value.year == year
    ensures r == Raise(Unassigned) <==> Parse(text, DayMonth).Fail? && Parse(text, DayMonth).why != DayOutOfRange
    ensures r.Raise? ==> r.fault.BadDate? || r.fault == Unassigned
    ensures Parse(text, DayMonth).Ok? ==>
              r == Got(Date(year, Parse(text, DayMonth).date.month, Parse(text, DayMonth).date.day))
  {
    var p := Parse(text, DayMonth);
    if p.Ok? then
      DayMonthInAnyYear(text, year);
      FromDate(MakeDate(year, p.date.month, p.date.day))
    else if p.why == DayOutOfRange then BelgradeLeapDay(text, year)
    else Raise(Unassigned)
  }

  /** The second reading, with the panel year appended, of a day that is
      out of range in 1900. */
  function BelgradeLeapDay(text: string, year: int): (r: Result<Date>)
    requires MinYear <= year <= MaxYear
    ensures r.Got? ==> IsValid(r.value) && r.value.year == year
    ensures r.Raise? ==> r.fault.BadDate?
  {
    match Parse(Appended(text, year), DayMonthYear)
    case Ok(t) => FromDate(MakeDate(year, t.month, t.day))
    case Fail(e) => Raise(BadDate(e))
  }

  /** The Belgrade's rule: both sides in the panel year, and an end that
      falls before the start is moved one year on. */
  function BelgradeDates(text: string, year: int): (r: Result<Span>)
    requires MinYear <= year <= MaxYear
    ensures r.Got? ==> ValidSpan(r.value)
    ensures r.Got? ==> r.value.start.year == year && NotAfter(r.value.start, r.value.end)
    ensures r.Got? ==> r.value.end.year == year || r.value.end.year == year + 1
    ensures '-' !in text && r.Got? ==> r.value.start == r.value.end
    ensures r.Raise? ==> r.fault.BadDate? || r.fault == Unassigned
  {
    if '-' in text then
      var h := Halves(text, '-');
      BelgradeSpan(h.0, h.1, year)
    else BelgradeSpan(text, text, year)
  }

  /** Both sides read in the panel year, then `assert start_date.year ==
      year` and the rollover of an end that falls before the start. */
  function BelgradeSpan(first: string, second: string, year: int): (r: Result<Span>)
    requires MinYear <= year <= MaxYear
    ensures r.Got? ==> ValidSpan(r.value)
    ensures r.Got? ==> r.value.start.year == year && NotAfter(r.value.start, r.value.end)
    ensures r.Got? ==> r.value.end.year == year || r.value.end.year == year + 1
    ensures first == second && r.Got? ==> r.value.start == r.value.end
    ensures r.Raise? ==> r.fault.BadDate? || r.fault == Unassigned
  {
    match BelgradeDay(first, year)
    case Raise(f) => Raise(f)
    case Got(start) =>
      match BelgradeDay(second, year)
      case Raise(f) => Raise(f)
      case Got(end) =>
        if start.year != year then Raise(AssertFailed)
        else if Dates.Before(end, start) then
          match NextYear(end)
          case Fail(e) => Raise(BadDate(e))
          case Ok(later) => Got(Span(start, later))
        else Got(Span(start, end))
  }

  // ---------------------------------------------------------------------
  // Symphony Hall: <time datetime="YYYY-MM-DD..."> elements
  // ---------------------------------------------------------------------

  /** A `<time>` element: its `datetime` and `itemprop` attributes. */
  datatype TimeTag = TimeTag(datetime: string, itemprop: string)

  /** `datetime.fromisoformat(s).date()`: the date is the first ten
      characters, a full-date `YYYY-MM-DD` as in section 5.6 of RFC 3339;
      a time of day may follow and is not examined here. */
  function IsoDate(s: string): (r: DateResult)
    ensures r.Ok? ==> IsValid(r.date)
    ensures r.Ok? ==> |s| >= 10 && s[4] == '-' && s[7] == '-'
    ensures r.Fail? ==> r.why in {BadIsoFormat, YearOutOfRange, MonthOutOfRange, DayOutOfRange}
    ensures |s| < 10 ==> r == Fail(BadIsoFormat)
  {
    if |s| < 10 || !AllDigits(s[..4]) || s[4] != '-' || !AllDigits(s[5..7]) || s[7] != '-' || !AllDigits(s[8..10])
    then Fail(BadIsoFormat)
    else MakeDate(DigitsValue(s[..4]), DigitsValue(s[5..7]), DigitsValue(s[8..10]))
  }

  /** Symphony Hall's rule: one `<time>` is a one-day show, two are its
      start and end (labelled so, or an AssertionError), and any other
      number is NotImplementedError. */
  function SymphonyDates(times: seq<TimeTag>): (r: Result<Span>)
    ensures r.Got? ==> ValidSpan(r.value)
    ensures r == Raise(Unsupported) <==> |times| != 1 && |times| != 2
    ensures |times| == 1 ==> (r.Got? <==> IsoDate(times[0].datetime).Ok?)
    ensures |times| == 1 && r.Got? ==> r.value.start == r.value.end && IsoDate(times[0].datetime) == Ok(r.value.start)
    ensures |times| == 2 && r.Got? ==>
              && times[0].itemprop == "startDate" && times[1].itemprop == "endDate"
              && IsoDate(times[0].datetime) == Ok(r.value.start)
              && IsoDate(times[1].datetime) == Ok(r.value.end)
    ensures |times| == 2 && (times[0].itemprop != "startDate" || times[1].itemprop != "endDate") ==>
              r == Raise(AssertFailed)
  {
    if |times| == 1 then
      match IsoDate(times[0].datetime)
      case Fail(e) => Raise(BadDate(e))
      case Ok(d) => Got(Span(d, d))
    else if |times| == 2 then
      if times[0].itemprop != "startDate" || times[1].itemprop != "endDate" then Raise(AssertFailed)
      else
        match IsoDate(times[0].datetime)
        case Fail(e) => Raise(BadDate(e))
        case Ok(start) =>
          match IsoDate(times[1].datetime)
          case Fail(e) => Raise(BadDate(e))
          case Ok(end) => Got(Span(start, end))
    else Raise(Unsupported)
  }

  /** `" ".join(w.capitalize() for w in raw_title.split())`. */
  function TitleCase(raw: string): string
  {
    Join(CapitalizeAll(Words(raw)), " ")
  }

  function CapitalizeAll(ws: seq<string>): (r: seq<string>)
    ensures |r| == |ws|
    ensures forall i :: 0 <= i < |ws| ==> r[i] == Capitalize(ws[i])
  {
    if ws == [] then [] else [Capitalize(ws[0])] + CapitalizeAll(ws[1..])
  }

  // ---------------------------------------------------------------------
  // Birmingham Hippodrome: "%a %d %b %Y", the year optional
  // ---------------------------------------------------------------------

  /** The Hippodrome's `parse_single_date`: with the year, or, when the
      text does not match, with CURRENT_YEAR appended; any other error
      is raised again. */
  function HippodromeDay(txt: string, currentYear: nat): (r: Result<Date>)
    ensures r.Got? ==> IsValid(r.value)
    ensures r.Raise? ==> r.fault.BadDate?
    ensures Parse(txt, WeekdayDayMonYear).Ok? ==> r == Got(Parse(txt, WeekdayDayMonYear).date)
    ensures Parse(txt, WeekdayDayMonYear) == Fail(NoMatch) ==>
              r == FromDate(Parse(Appended(txt, currentYear), WeekdayDayMonYear))
    ensures Parse(txt, WeekdayDayMonYear).Fail? && Parse(txt, WeekdayDayMonYear) != Fail(NoMatch) ==>
              r == Raise(BadDate(Parse(txt, WeekdayDayMonYear).why))
  {
    var p := Parse(txt, WeekdayDayMonYear);
    if p.Ok? then Got(p.date)
    else if p.why == NoMatch then FromDate(Parse(Appended(txt, currentYear), WeekdayDayMonYear))
    else Raise(BadDate(p.why))
  }

  /** The Hippodrome's separator: "-" when there is one, else "&". */
  function HippodromeSeparator(text: string): (c: char)
    ensures c == '-' <==> '-' in text
    ensures c in text <==> '-' in text || '&' in text
  {
    if '-' in text then '-' else '&'
  }

  /** The Hippodrome's rule: each side read on its own, the left first. */
  function HippodromeDates(text: string, currentYear: nat): (r: Result<Span>)
    ensures r.Got? ==> ValidSpan(r.value)
    ensures r.Raise? ==> r.fault.BadDate?
    ensures '-' !in text && '&' !in text ==> (r.Got? <==> HippodromeDay(text, currentYear).Got?)
    ensures '-' !in text && '&' !in text && r.Got? ==>
              r.value.start == r.value.end && HippodromeDay(text, currentYear) == Got(r.value.start)
    ensures ('-' in text || '&' in text) ==>
              (r.Got? <==>
                 && HippodromeDay(Halves(text, HippodromeSeparator(text)).0, currentYear).Got?
                 && HippodromeDay(Halves(text, HippodromeSeparator(text)).1, currentYear).Got?)
    ensures ('-' in text || '&' in text) && r.Got? ==>
              && HippodromeDay(Halves(text, HippodromeSeparator(text)).0, currentYear) == Got(r.value.start)
              && HippodromeDay(Halves(text, HippodromeSeparator(text)).1, currentYear) == Got(r.value.end)
  {
    if '-' in text || '&' in text then
      var h := Halves(text, HippodromeSeparator(text)); var left, right := h.0, h.1;
      match HippodromeDay(left, currentYear)
      case Raise(f) => Raise(f)
      case Got(start) =>
        match HippodromeDay(right, currentYear)
        case Raise(f) => Raise(f)
        case Got(end) => Got(Span(start, end))
    else
      match HippodromeDay(text, currentYear)
      case Raise(f) => Raise(f)
      case Got(d) => Got(Span(d, d))
  }

  // ---------------------------------------------------------------------
  // Resorts World Arena: "%d %B %Y", left side without year or month
  // ---------------------------------------------------------------------

  /** Resorts World's rule: the end has a full date; the left side is read
      with the end's year appended, and on any ValueError with the end's
      month number and year appended. */
  function ResortsWorldDates(text: string): (r: Result<Span>)
    ensures r.Got? ==> ValidSpan(r.value)
    ensures r.Raise? ==> r.fault.BadDate?
    ensures '-' !in text ==> (r.Got? <==> Parse(text, DayMonthYear).Ok?)
    ensures '-' !in text && r.Got? ==> r.value.start == r.value.end && Parse(text, DayMonthYear) == Ok(r.value.start)
    ensures '-' in text && r.Got? ==>
              var h := Halves(text, '-');
              var first := Parse(Appended(h.0, r.value.end.year), DayMonthYear);
              && Parse(h.1, DayMonthYear) == Ok(r.value.end)
              && (first.Ok? ==> first.date == r.value.start)
              && (first.Fail? ==>
                    Parse(Appended(Appended(h.0, r.value.end.month), r.value.end.year), DayNumYear) == Ok(r.value.start))
  {
    if '-' in text then
      var h := Halves(text, '-');
      ResortsWorldRange(h.0, h.1)
    else
      match Parse(text, DayMonthYear)
      case Fail(e) => Raise(BadDate(e))
      case Ok(d) => Got(Span(d, d))
  }

  /** The two sides of a Resorts World range: the end is the right side;
      the start is the left side with the end's year appended, or, when
      that raises anything, with the end's month number and year. */
  function ResortsWorldRange(left: string, right: string): (r: Result<Span>)
    ensures r.Got? ==> ValidSpan(r.value)
    ensures r.Raise? ==> r.fault.BadDate?
    ensures r.Got? ==>
              var first := Parse(Appended(left, r.value.end.year), DayMonthYear);
              && Parse(right, DayMonthYear) == Ok(r.value.end)
              && (first.Ok? ==> first.date == r.value.start)
              && (first.Fail? ==>
                    Parse(Appended(Appended(left, r.value.end.month), r.value.end.year), DayNumYear) == Ok(r.value.start))
    ensures r.Got? <==>
              && Parse(right, DayMonthYear).Ok?
              && var end := Parse(right, DayMonthYear).date;
                 || Parse(Appended(left, end.year), DayMonthYear).Ok?
                 || Parse(Appended(Appended(left, end.month), end.year), DayNumYear).Ok?
  {
    match Parse(right, DayMonthYear)
    case Fail(e) => Raise(BadDate(e))
    case Ok(end) =>
      match Parse(Appended(left, end.year), DayMonthYear)
      case Ok(start) => Got(Span(start, end))
      case Fail(_) =>
        match Parse(Appended(Appended(left, end.month), end.year), DayNumYear)
        case Fail(e) => Raise(BadDate(e))
        case Ok(start) => Got(Span(start, end))
  }


  // ---------------------------------------------------------------------
  // Arena Birmingham: as Resorts World, but the first attempt's result is
  // stored in tmp_date, so start_date keeps its value from earlier entries
  // ---------------------------------------------------------------------

  /** Arena Birmingham's rule. `previous` is the generator's `start_date`
      as the earlier entries left it (None before any assignment). When
      the left side parses with the end's year, the parsed date goes to
      `tmp_date` and the show gets `previous`; only the fallback with the
      end's month assigns `start_date`. */
  function ArenaDates(text: string, previous: Option<Date>): (r: Result<Span>)
    ensures r.Raise? ==> r.fault.BadDate? || r.fault == Unassigned
    ensures r == Raise(Unassigned) ==> previous.None?
    ensures '-' !in text ==> (r.Got? <==> Parse(text, DayMonthYear).Ok?)
    ensures '-' !in text && r.Got? ==> r.value.start == r.value.end && Parse(text, DayMonthYear) == Ok(r.value.start)
    ensures '-' in text && r.Got? ==> Parse(Halves(text, '-').1, DayMonthYear) == Ok(r.value.end)
    ensures '-' in text && r.Got? ==>
              var h := Halves(text, '-');
              var first := Parse(Appended(h.0, r.value.end.year), DayMonthYear);
              && (first.Ok? ==> Some(r.value.start) == previous)
              && (first.Fail? ==>
                    && first.why == NoMatch
                    && Parse(Appended(Appended(h.0, r.value.end.month), r.value.end.year), DayNumYear) == Ok(r.value.start))
  {
    if '-' in text then
      var h := Halves(text, '-');
      ArenaRange(h.0, h.1, previous)
    else
      match Parse(text, DayMonthYear)
      case Fail(e) => Raise(BadDate(e))
      case Ok(d) => Got(Span(d, d))
  }

  /** The two sides of an Arena Birmingham range: the end is the right
      side; a left side that reads with the end's year gives the carried
      start, one that does not match is read with the end's month number
      and year, and any other error is raised again. */
  function ArenaRange(left: string, right: string, previous: Option<Date>): (r: Result<Span>)
    ensures r.Raise? ==> r.fault.BadDate? || r.fault == Unassigned
    ensures r == Raise(Unassigned) ==> previous.None?
    ensures r.Got? ==> Parse(right, DayMonthYear) == Ok(r.value.end)
    ensures r.Got? ==>
              var first := Parse(Appended(left, r.value.end.year), DayMonthYear);
              && (first.Ok? ==> Some(r.value.start) == previous)
              && (first.Fail? ==>
                    && first.why == NoMatch
                    && Parse(Appended(Appended(left, r.value.end.month), r.value.end.year), DayNumYear) == Ok(r.value.start))
    ensures r.Got? <==>
              && Parse(right, DayMonthYear).Ok?
              && var end := Parse(right, DayMonthYear).date;
                 var first := Parse(Appended(left, end.year), DayMonthYear);
                 if first.Ok? then previous.Some?
                 else first.why == NoMatch && Parse(Appended(Appended(left, end.month), end.year), DayNumYear).Ok?
  {
    match Parse(right, DayMonthYear)
    case Fail(e) => Raise(BadDate(e))
    case Ok(end) =>
      var first := Parse(Appended(left, end.year), DayMonthYear);
      if first.Ok? then
        (match previous
         case None => Raise(Unassigned)
         case Some(start) => Got(Span(start, end)))
      else if first.why == NoMatch then
        (match Parse(Appended(Appended(left, end.month), end.year), DayNumYear)
         case Fail(e) => Raise(BadDate(e))
         case Ok(start) => Got(Span(start, end)))
      else Raise(BadDate(first.why))
  }

  // ---------------------------------------------------------------------
  // Artrix: "%a %d %b %Y" after ordinal and weekday clean-up
  // ---------------------------------------------------------------------

  /** The Artrix's `parse_date_part`: ordinals and long weekday names are
      cleaned up, then the text is read with its year, else with
      CURRENT_YEAR appended, else with the end date's month number and
      CURRENT_YEAR appended. An error other than a mismatch leaves `date`
      unassigned; a missing end date at the last step is an
      AttributeError. */
  function ArtrixDay(raw: string, end: Option<Date>, currentYear: nat): (r: Result<Date>)
    requires end.Some? ==> IsValid(end.value)
    ensures r.Got? ==> IsValid(r.value)
    ensures r.Raise? ==> r.fault.BadDate? || r.fault == Unassigned || r.fault == NoElement
    ensures r == Raise(NoElement) ==> end.None?
    ensures var t := ReplaceWeekdays(StripOrdinals(raw));
            var first := Parse(t, WeekdayDayMonYear);
            var second := Parse(Appended(t, currentYear), WeekdayDayMonYear);
            && (first.Ok? ==> r == Got(first.date))
            && (first.Fail? && first.why != NoMatch ==> r == Raise(Unassigned))
            && (first == Fail(NoMatch) && second.Ok? ==> r == Got(second.date))
            && (first == Fail(NoMatch) && second.Fail? && second.why != NoMatch ==> r == Raise(Unassigned))
            && (first == Fail(NoMatch) && second == Fail(NoMatch) && end.None? ==> r == Raise(NoElement))
            && (first == Fail(NoMatch) && second == Fail(NoMatch) && end.Some? ==>
                  r == FromDate(Parse(Appended(Appended(t, end.value.month), currentYear), WeekdayDayNumYear)))
  {
    var text := ReplaceWeekdays(StripOrdinals(raw));
    var first := Parse(text, WeekdayDayMonYear);
    if first.Ok? then Got(first.date)
    else if first.why != NoMatch then Raise(Unassigned)
    else
      var second := Parse(Appended(text, currentYear), WeekdayDayMonYear);
      if second.Ok? then Got(second.date)
      else if second.why != NoMatch then Raise(Unassigned)
      else
        match end
        case None => Raise(NoElement)
        case Some(e) => FromDate(Parse(Appended(Appended(text, e.month), currentYear), WeekdayDayNumYear))
  }

  /** The Artrix's rule: the right side first, then the left side with the
      end date to borrow a month from. */
  function ArtrixDates(text: string, currentYear: nat): (r: Result<Span>)
    ensures r.Got? ==> ValidSpan(r.value)
    ensures r.Raise? ==> r.fault.BadDate? || r.fault == Unassigned || r.fault == NoElement
    ensures '-' !in text ==> (r.Got? <==> ArtrixDay(text, None, currentYear).Got?)
    ensures '-' !in text && r.Got? ==> r.value.start == r.value.end && ArtrixDay(text, None, currentYear) == Got(r.value.start)
    ensures '-' in text && r.Got? ==>
              && ArtrixDay(Halves(text, '-').1, None, currentYear) == Got(r.value.end)
              && ArtrixDay(Halves(text, '-').0, Some(r.value.end), currentYear) == Got(r.value.start)
    ensures '-' in text ==>
              (r.Got? <==>
                 && ArtrixDay(Halves(text, '-').1, None, currentYear).Got?
                 && ArtrixDay(Halves(text, '-').0, Some(ArtrixDay(Halves(text, '-').1, None, currentYear).value), currentYear).Got?)
  {
    if '-' in text then
      var h := Halves(text, '-'); var left, right := h.0, h.1;
      match ArtrixDay(right, None, currentYear)
      case Raise(f) => Raise(f)
      case Got(end) =>
        match ArtrixDay(left, Some(end), currentYear)
        case Raise(f) => Raise(f)
        case Got(start) => Got(Span(start, end))
    else
      match ArtrixDay(text, None, currentYear)
      case Raise(f) => Raise(f)
      case Got(d) => Got(Span(d, d))
  }

  // ---------------------------------------------------------------------
  // New Alexandra: "%a %d %b %Y", left side maybe without year
  // ---------------------------------------------------------------------

  /** The Alexandra's rule. The left side is read as it is; on a mismatch
      the end's year is appended. On any other ValueError the except
      clause does nothing, so `start_date` keeps `previous`, its value from
      the earlier entries. */
  function AlexDates(text: string, previous: Option<Date>): (r: Result<Span>)
    ensures r.Raise? ==> r.fault.BadDate? || r.fault == Unassigned
    ensures r == Raise(Unassigned) ==> previous.None?
    ensures '-' !in text ==> (r.Got? <==> Parse(text, WeekdayDayMonYear).Ok?)
    ensures '-' !in text && r.Got? ==> r.value.start == r.value.end && Parse(text, WeekdayDayMonYear) == Ok(r.value.start)
    ensures '-' in text && r.Got? ==> Parse(Halves(text, '-').1, WeekdayDayMonYear) == Ok(r.value.end)
    ensures '-' in text && r.Got? ==>
              var left := Halves(text, '-').0;
              var first := Parse(left, WeekdayDayMonYear);
              && (first.Ok? ==> first.date == r.value.start)
              && (first == Fail(NoMatch) ==> Parse(Appended(left, r.value.end.year), WeekdayDayMonYear) == Ok(r.value.start))
              && (first.Fail? && first.why != NoMatch ==> Some(r.value.start) == previous)
  {
    if '-' in text then
      var h := Halves(text, '-');
      AlexRange(h.0, h.1, previous)
    else
      match Parse(text, WeekdayDayMonYear)
      case Fail(e) => Raise(BadDate(e))
      case Ok(d) => Got(Span(d, d))
  }

  /** The two sides of an Alexandra range: the end is the right side; the
      start is the left side as it is, or with the end's year appended when
      it does not match, or the carried start after any other error. */
  function AlexRange(left: string, right: string, previous: Option<Date>): (r: Result<Span>)
    ensures r.Raise? ==> r.fault.BadDate? || r.fault == Unassigned
    ensures r == Raise(Unassigned) ==> previous.None?
    ensures r.Got? ==> Parse(right, WeekdayDayMonYear) == Ok(r.value.end)
    ensures r.Got? ==>
              var first := Parse(left, WeekdayDayMonYear);
              && (first.Ok? ==> first.date == r.value.start)
              && (first == Fail(NoMatch) ==> Parse(Appended(left, r.value.end.year), WeekdayDayMonYear) == Ok(r.value.start))
              && (first.Fail? && first.why != NoMatch ==> Some(r.value.start) == previous)
    ensures r.Got? <==>
              && Parse(right, WeekdayDayMonYear).Ok?
              && var first := Parse(left, WeekdayDayMonYear);
                 || first.Ok?
                 || (first == Fail(NoMatch) &&
                     Parse(Appended(left, Parse(right, WeekdayDayMonYear).date.year), WeekdayDayMonYear).Ok?)
                 || (first.Fail? && first.why != NoMatch && previous.Some?)
  {
    match Parse(right, WeekdayDayMonYear)
    case Fail(e) => Raise(BadDate(e))
    case Ok(end) =>
      var first := Parse(left, WeekdayDayMonYear);
      if first.Ok? then Got(Span(first.date, end))
      else if first.why == NoMatch then
        (match Parse(Appended(left, end.year), WeekdayDayMonYear)
         case Fail(e) => Raise(BadDate(e))
         case Ok(start) => Got(Span(start, end)))
      else
        (match previous
         case None => Raise(Unassigned)
         case Some(start) => Got(Span(start, end)))
  }


  // ---------------------------------------------------------------------
  // Warwick Arts Centre: "%a %d %b %Y" after fix_date_text
  // ---------------------------------------------------------------------

  /** What the Warwick's parsing makes of a text, before the carried
      `start_date` comes in: a span it read, or an except clause that
      swallowed the error and left `start_date` as it was, with the end
      date if the text had one. */
  datatype Reading = Fresh(span: Span) | Untouched(end: Option<Date>)

  /** The Warwick Arts Centre's parsing. The left side is always read with
      the end's year appended, and on a mismatch with the end's month
      number and year; a lone date is read as it is, and on a mismatch with
      CURRENT_YEAR appended. Any other ValueError in a first attempt is
      swallowed. */
  function WarwickReading(text: string, currentYear: nat): (r: Result<Reading>)
    ensures r.Raise? ==> r.fault.BadDate?
    ensures '-' !in text ==> r == WarwickLoneReading(text, currentYear)
    ensures '-' in text ==> r == WarwickRangeReading(Halves(text, '-').0, Halves(text, '-').1)
    ensures '-' !in text && r.Got? ==> (r.value.Fresh? ==> r.value.span.start == r.value.span.end) && (r.value.Untouched? ==> r.value.end.None?)
    ensures '-' in text && r.Got? ==> r.value.Fresh? || r.value.end.Some?
    ensures '-' in text && r.Got? && r.value.Untouched? ==>
              Parse(Halves(text, '-').1, WeekdayDayMonYear) == Ok(r.value.end.value)
    ensures '-' in text && r.Got? && r.value.Fresh? ==>
              && Parse(Halves(text, '-').1, WeekdayDayMonYear) == Ok(r.value.span.end)
              && (|| Parse(Appended(Halves(text, '-').0, r.value.span.end.year), WeekdayDayMonYear) == Ok(r.value.span.start)
                  || Parse(Appended(Appended(Halves(text, '-').0, r.value.span.end.month), r.value.span.end.year),
                           WeekdayDayNumYear) == Ok(r.value.span.start))
  {
    if '-' in text then
      var h := Halves(text, '-');
      WarwickRangeReading(h.0, h.1)
    else WarwickLoneReading(text, currentYear)
  }

  /** The two sides of a Warwick range: the end is the right side; the
      start is the left side with the end's year appended, or after a
      mismatch with the end's month number and year, whose error is raised
      again; any other error in the first read leaves `start_date` as it
      was. */
  function WarwickRangeReading(left: string, right: string): (r: Result<Reading>)
    ensures r.Raise? ==> r.fault.BadDate?
    ensures Parse(right, WeekdayDayMonYear).Fail? ==> r == Raise(BadDate(Parse(right, WeekdayDayMonYear).why))
    ensures Parse(right, WeekdayDayMonYear).Ok? ==>
              var end := Parse(right, WeekdayDayMonYear).date;
              var first := Parse(Appended(left, end.year), WeekdayDayMonYear);
              var second := Parse(Appended(Appended(left, end.month), end.year), WeekdayDayNumYear);
              && (first.Ok? ==> r == Got(Fresh(Span(first.date, end))))
              && (first == Fail(NoMatch) && second.Ok? ==> r == Got(Fresh(Span(second.date, end))))
              && (first == Fail(NoMatch) && second.Fail? ==> r == Raise(BadDate(second.why)))
              && (first.Fail? && first.why != NoMatch ==> r == Got(Untouched(Some(end))))
    ensures r.Got? <==>
              && Parse(right, WeekdayDayMonYear).Ok?
              && var end := Parse(right, WeekdayDayMonYear).date;
                 var first := Parse(Appended(left, end.year), WeekdayDayMonYear);
                 || first != Fail(NoMatch)
                 || Parse(Appended(Appended(left, end.month), end.year), WeekdayDayNumYear).Ok?
    ensures r.Got? ==> r.value.Fresh? || r.value.end.Some?
    ensures r.Got? && r.value.Untouched? ==> Parse(right, WeekdayDayMonYear) == Ok(r.value.end.value)
    ensures r.Got? && r.value.Fresh? ==>
              && Parse(right, WeekdayDayMonYear) == Ok(r.value.span.end)
              && (|| Parse(Appended(left, r.value.span.end.year), WeekdayDayMonYear) == Ok(r.value.span.start)
                  || Parse(Appended(Appended(left, r.value.span.end.month), r.value.span.end.year),
                           WeekdayDayNumYear) == Ok(r.value.span.start))
  {
    match Parse(right, WeekdayDayMonYear)
    case Fail(e) => Raise(BadDate(e))
    case Ok(end) =>
      var first := Parse(Appended(left, end.year), WeekdayDayMonYear);
      if first.Ok? then Got(Fresh(Span(first.date, end)))
      else if first.why == NoMatch then
        (match Parse(Appended(Appended(left, end.month), end.year), WeekdayDayNumYear)
         case Fail(e) => Raise(BadDate(e))
         case Ok(start) => Got(Fresh(Span(start, end))))
      else Got(Untouched(Some(end)))
  }

  /** A Warwick date without a range. */
  function WarwickLoneReading(text: string, currentYear: nat): (r: Result<Reading>)
    ensures r.Raise? ==> r.fault.BadDate?
    ensures r.Got? && r.value.Fresh? ==> r.value.span.start == r.value.span.end
    ensures r.Got? && r.value.Untouched? ==> r.value.end.None?
    ensures var first := Parse(text, WeekdayDayMonYear);
            var second := Parse(Appended(text, currentYear), WeekdayDayMonYear);
            && (first.Ok? ==> r == Got(Fresh(Span(first.date, first.date))))
            && (first == Fail(NoMatch) && second.Ok? ==> r == Got(Fresh(Span(second.date, second.date))))
            && (first == Fail(NoMatch) && second.Fail? ==> r == Raise(BadDate(second.why)))
            && (first.Fail? && first.why != NoMatch ==> r == Got(Untouched(None)))
  {
    var first := Parse(text, WeekdayDayMonYear);
    if first.Ok? then Got(Fresh(Span(first.date, first.date)))
    else if first.why == NoMatch then
      (match Parse(Appended(text, currentYear), WeekdayDayMonYear)
       case Fail(e) => Raise(BadDate(e))
       case Ok(d) => Got(Fresh(Span(d, d))))
    else Got(Untouched(None))
  }

  /** The Warwick Arts Centre's rule: the parsing, then `start_date` as
      `previous`, its value from the earlier entries, where the parsing
      left it untouched; a lone date then also ends on it. */
  function WarwickDates(text: string, previous: Option<Date>, currentYear: nat): (r: Result<Span>)
    ensures r.Raise? ==> r.fault.BadDate? || r.fault == Unassigned
    ensures r == Raise(Unassigned) ==> previous.None?
    ensures '-' !in text && r.Got? ==> r.value.start == r.value.end
    ensures var reading := WarwickReading(text, currentYear);
            && (reading.Raise? ==> r == Raise(reading.fault))
            && (reading.Got? && reading.value.Fresh? ==> r == Got(reading.value.span))
            && (reading.Got? && reading.value.Untouched? && previous.None? ==> r == Raise(Unassigned))
            && (reading.Got? && reading.value.Untouched? && previous.Some? ==>
                  r == Got(Span(previous.value, reading.value.end.GetOr(previous.value))))
    ensures '-' !in text ==>
              var first := Parse(text, WeekdayDayMonYear);
              var second := Parse(Appended(text, currentYear), WeekdayDayMonYear);
              && (first.Ok? ==> r == Got(Span(first.date, first.date)))
              && (first == Fail(NoMatch) && second.Ok? ==> r == Got(Span(second.date, second.date)))
              && (first == Fail(NoMatch) && second.Fail? ==> r == Raise(BadDate(second.why)))
              && (first.Fail? && first.why != NoMatch && previous.Some? ==> r == Got(Span(previous.value, previous.value)))
              && (first.Fail? && first.why != NoMatch && previous.None? ==> r == Raise(Unassigned))
    ensures '-' in text && r.Got? ==> Parse(Halves(text, '-').1, WeekdayDayMonYear) == Ok(r.value.end)
    ensures '-' in text && r.Got? ==>
              || Some(r.value.start) == previous
              || Parse(Appended(Halves(text, '-').0, r.value.end.year), WeekdayDayMonYear) == Ok(r.value.start)
              || Parse(Appended(Appended(Halves(text, '-').0, r.value.end.month), r.value.end.year), WeekdayDayNumYear)
                   == Ok(r.value.start)
  {
    var reading := WarwickReading(text, currentYear);
    if reading.Raise? then Raise(reading.fault)
    else if reading.value.Fresh? then Got(reading.value.span)
    else if previous.None? then Raise(Unassigned)
    else Got(Span(previous.value, reading.value.end.GetOr(previous.value)))
  }
}
