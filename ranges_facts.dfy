/** What each venue's range rule makes of the texts its site writes: which
    side lends the year or the month to the other, where CURRENT_YEAR is
    used instead, when the Belgrade's year rollover applies, and where an
    earlier entry's start date leaks into a later one. */
module RangesFacts {
  import opened Wrappers
  import opened Text
  import opened Dates
  import opened Strptime
  import opened StrptimeFacts
  import opened Normalise
  import opened Shows
  import opened Ranges
  import opened Written

  /** "%a %d %b": a weekday, a day and a month, no year. */
  const WeekdayDayMon: Format := [Weekday, Space, Day, Space, MonthAbbr]
  /** "%a %d": a weekday and a day only. */
  const WeekdayDay: Format := [Weekday, Space, Day]
  /** "%d": a day only. */
  const DayOnly: Format := [Day]

  /** Any day but 29 February exists in every year. */
  lemma NotLeapDay(a: Date, y: int)
    requires IsValid(a) && !(a.month == 2 && a.day == 29) && MinYear <= y <= MaxYear
    ensures IsValid(Date(y, a.month, a.day))
  {
  }

  /** The text of a date written with `fmt`, as a side of a range. */
  lemma RenderedSide(fmt: Format, d: Date, w: nat)
    requires Writable(d) && w < 7 && Alternating(fmt)
    ensures Tidy(Render(fmt, English, d, w))
    ensures Side(Render(fmt, English, d, w), '-') && Side(Render(fmt, English, d, w), '&')
    ensures '-' !in Render(fmt, English, d, w) && '&' !in Render(fmt, English, d, w)
  {
    RenderTidy(fmt, d, w);
    TidySide(Render(fmt, English, d, w), '-');
    TidySide(Render(fmt, English, d, w), '&');
  }

  lemma ShortFormats()
    ensures Alternating(WeekdayDayMon) && Alternating(WeekdayDay) && Alternating(DayOnly)
    ensures WeekdayDayMon + [Space, Year] == WeekdayDayMonYear
    ensures WeekdayDay + ([Space, MonthAbbr] + [Space, Year]) == WeekdayDayMonYear
    ensures DayOnly + ([Space, MonthName] + [Space, Year]) == DayMonthYear
    ensures DayMonth + [Space, Year] == DayMonthYear
    ensures DayOnly + [Space, MonthNumber, Space, Year] == DayNumYear
    ensures WeekdayDay + [Space, MonthNumber, Space, Year] == WeekdayDayNumYear
    ensures Day in DayOnly && !HasMonth(DayOnly) && Year !in DayOnly
    ensures Day in WeekdayDay && !HasMonth(WeekdayDay) && Year !in WeekdayDay
    ensures Year !in WeekdayDayMon && Year !in DayMonth
  {
    FormatsAlternate();
    assert DayOnly[0] == Day && WeekdayDay[2] == Day;
  }

  /** A date written without its year, with `y` appended, reads back as
      that day in year `y`. */
  lemma AppendedYearReads(p: Format, d: Date, y: nat, w: nat)
    requires Writable(d) && w < 7 && Writable(Date(y, d.month, d.day))
    requires p == DayMonth || p == WeekdayDayMon
    ensures Parse(Appended(Render(p, English, d, w), y), p + [Space, Year]) == Ok(Date(y, d.month, d.day))
  {
    ShortFormats();
    RenderWithYear(p, d, y, w);
    FormatsRoundTrip(p + [Space, Year], Date(y, d.month, d.day), w);
  }

  // ---------------------------------------------------------------------
  // Albany Theatre
  // ---------------------------------------------------------------------

  /** "d1 month1 - d2 month2 year": the start is built in the end's year,
      whatever the order of the two days. */
  lemma AlbanyBorrowsYear(a: Date, b: Date, w: nat)
    requires Writable(a) && Writable(b) && w < 7 && !(a.month == 2 && a.day == 29)
    ensures AlbanyDates(Range(Render(DayMonth, English, a, w), '-', Render(DayMonthYear, English, b, w)))
            == Got(Span(Date(b.year, a.month, a.day), b))
  {
    var left := Render(DayMonth, English, a, w);
    var right := Render(DayMonthYear, English, b, w);
    FormatsAlternate();
    RenderedSide(DayMonth, a, w);
    RenderedSide(DayMonthYear, b, w);
    HalvesOfRange(left, '-', right);
    FormatsRoundTrip(DayMonthYear, b, w);
    DayMonthRoundTrip(a, w);
    NotLeapDay(a, 1900);
    NotLeapDay(a, b.year);
  }

  /** A single date is both the start and the end. */
  lemma AlbanySingle(d: Date, w: nat)
    requires Writable(d) && w < 7
    ensures AlbanyDates(Render(DayMonthYear, English, d, w)) == Got(Span(d, d))
  {
    FormatsAlternate();
    RenderedSide(DayMonthYear, d, w);
    FormatsRoundTrip(DayMonthYear, d, w);
  }

  // ---------------------------------------------------------------------
  // Belgrade Theatre
  // ---------------------------------------------------------------------

  /** One side of a Belgrade range lands in the panel year. */
  lemma BelgradeDayInPanelYear(a: Date, year: int, w: nat)
    requires Writable(a) && w < 7 && MinYear <= year <= MaxYear && !(a.month == 2 && a.day == 29)
    ensures BelgradeDay(Render(DayMonth, English, a, w), year) == Got(Date(year, a.month, a.day))
  {
    DayMonthRoundTrip(a, w);
    NotLeapDay(a, 1900);
    NotLeapDay(a, year);
  }

  /** Two sides already read in the panel year: the rollover. */
  lemma BelgradeSpanRolls(first: string, second: string, a: Date, b: Date, year: int)
    requires 1000 <= year < MaxYear
    requires BelgradeDay(first, year) == Got(Date(year, a.month, a.day))
    requires BelgradeDay(second, year) == Got(Date(year, b.month, b.day))
    requires IsValid(Date(year + 1, b.month, b.day))
    ensures var start := Date(year, a.month, a.day);
            var end := Date(year, b.month, b.day);
            BelgradeSpan(first, second, year)
            == Got(Span(start, if Dates.Before(end, start) then Date(year + 1, b.month, b.day) else end))
  {
  }

  /** Both sides land in the panel year; an end that would fall before the
      start moves to the next year. */
  lemma BelgradeRollover(a: Date, b: Date, year: int, w: nat)
    requires Writable(a) && Writable(b) && w < 7 && 1000 <= year < MaxYear
    requires !(a.month == 2 && a.day == 29) && !(b.month == 2 && b.day == 29)
    ensures var start := Date(year, a.month, a.day);
            var end := Date(year, b.month, b.day);
            BelgradeDates(Range(Render(DayMonth, English, a, w), '-', Render(DayMonth, English, b, w)), year)
            == Got(Span(start, if Dates.Before(end, start) then Date(year + 1, b.month, b.day) else end))
  {
    var left := Render(DayMonth, English, a, w);
    var right := Render(DayMonth, English, b, w);
    BelgradeSides(a, b, year, w);
    BelgradeDayInPanelYear(a, year, w);
    BelgradeDayInPanelYear(b, year, w);
    NotLeapDay(b, year + 1);
    BelgradeSpanRolls(left, right, a, b, year);
  }

  /** The two sides of a Belgrade range written out. */
  lemma BelgradeSides(a: Date, b: Date, year: int, w: nat)
    requires Writable(a) && Writable(b) && w < 7 && MinYear <= year <= MaxYear
    ensures BelgradeDates(Range(Render(DayMonth, English, a, w), '-', Render(DayMonth, English, b, w)), year)
            == BelgradeSpan(Render(DayMonth, English, a, w), Render(DayMonth, English, b, w), year)
  {
    FormatsAlternate();
    RenderedSide(DayMonth, a, w);
    RenderedSide(DayMonth, b, w);
    HalvesOfRange(Render(DayMonth, English, a, w), '-', Render(DayMonth, English, b, w));
  }

  /** 29 February under a leap-year panel: "%d %B" rejects it in 1900, and
      the second reading with the panel year accepts it. */
  lemma BelgradeLeapDay(year: int, w: nat)
    requires 1000 <= year <= MaxYear && IsLeapYear(year) && w < 7
    ensures BelgradeDay(Render(DayMonth, English, Date(year, 2, 29), w), year) == Got(Date(year, 2, 29))
  {
    var d := Date(year, 2, 29);
    var text := Render(DayMonth, English, d, w);
    DayMonthRoundTrip(d, w);
    assert Parse(text, DayMonth) == Fail(DayOutOfRange);
    AppendedYearReads(DayMonth, d, year, w);
    ShortFormats();
    assert Parse(Appended(text, year), DayMonthYear) == Ok(d);
    assert MakeDate(year, 2, 29) == Ok(d);
  }

  /** "%d %B" writes the two-digit day, a blank and the month's name. */
  lemma DayMonthText(d: Date, w: nat)
    requires Writable(d) && w < 7
    ensures Render(DayMonth, English, d, w) == Pad2(d.day) + " " + English.monthNames[d.month - 1]
  {
    EnglishIsGood();
    var tail := DayMonth[1..];
    assert tail == [Space, MonthName] && tail[1..] == [MonthName] && tail[1..][1..] == [];
    assert Render(tail[1..], English, d, w) == English.monthNames[d.month - 1];
    assert Render(tail, English, d, w) == " " + English.monthNames[d.month - 1];
  }

  /** How the two sides of the test's first Belgrade range are written. */
  lemma NewYearSides()
    ensures Render(DayMonth, English, Date(2019, 11, 27), 0) == "27 november"
    ensures Render(DayMonth, English, Date(2020, 1, 11), 0) == "11 january"
  {
    NovemberSide();
    JanuarySide();
  }

  lemma NovemberSide()
    ensures Render(DayMonth, English, Date(2019, 11, 27), 0) == "27 november"
  {
    DayMonthText(Date(2019, 11, 27), 0);
    assert Pad2(27) == "27";
  }

  lemma JanuarySide()
    ensures Render(DayMonth, English, Date(2020, 1, 11), 0) == "11 january"
  {
    DayMonthText(Date(2020, 1, 11), 0);
    assert Pad2(11) == "11";
  }

  /** The first show of the Belgrade listing in the repository's test: a
      range across New Year under the November 2019 panel. */
  lemma BelgradeAcrossNewYear(text: string, year: int)
    requires text == "27 november - 11 january" && year == 2019
    ensures BelgradeDates(text, year) == Got(Span(Date(2019, 11, 27), Date(2020, 1, 11)))
  {
    NewYearSides();
    assert Range("27 november", '-', "11 january") == text;
    BelgradeRollover(Date(2019, 11, 27), Date(2020, 1, 11), year, 0);
  }

  // ---------------------------------------------------------------------
  // Symphony Hall
  // ---------------------------------------------------------------------

  /** The `datetime` attribute the site writes: `YYYY-MM-DD`, then any
      time of day. */
  function IsoText(d: Date): (s: string)
    requires Writable(d)
    ensures |s| == 10 && s[4] == '-' && s[7] == '-'
  {
    NatStrFourDigits(d.year);
    NatStr(d.year) + "-" + Pad2(d.month) + "-" + Pad2(d.day)
  }

  lemma Pad2Value(n: nat)
    requires n < 100
    ensures DigitsValue(Pad2(n)) == n
  {
    var p := Pad2(n);
    assert p[..1][..0] == [];
    assert DigitsValue(p[..1]) == DigitValue(p[0]);
  }

  /** `fromisoformat` reads back the date the site wrote, whatever time of
      day follows it. */
  lemma IsoRoundTrip(d: Date, rest: string)
    requires Writable(d)
    ensures IsoDate(IsoText(d) + rest) == Ok(d)
  {
    var s := IsoText(d) + rest;
    var iso := IsoText(d);
    assert s[..10] == iso;
    assert s[..4] == NatStr(d.year) && s[5..7] == Pad2(d.month) && s[8..10] == Pad2(d.day);
    NatStrValue(d.year);
    Pad2Value(d.month);
    Pad2Value(d.day);
  }

  /** One `<time>` holding the date the site wrote: a one-day show. */
  lemma SymphonyOneDay(d: Date, rest: string, itemprop: string)
    requires Writable(d)
    ensures SymphonyDates([TimeTag(IsoText(d) + rest, itemprop)]) == Got(Span(d, d))
  {
    IsoRoundTrip(d, rest);
  }

  /** Two `<time>` elements labelled start and end: the show runs between
      them, and any other labels are an AssertionError. */
  lemma SymphonyTwoTimes(a: Date, b: Date, ra: string, rb: string, pa: string, pb: string)
    requires Writable(a) && Writable(b)
    ensures SymphonyDates([TimeTag(IsoText(a) + ra, pa), TimeTag(IsoText(b) + rb, pb)])
            == if pa == "startDate" && pb == "endDate" then Got(Span(a, b)) else Raise(AssertFailed)
  {
    IsoRoundTrip(a, ra);
    IsoRoundTrip(b, rb);
  }

  /** Capitalising twice is capitalising once. */
  lemma CapitalizeTwice(w: string)
    ensures Capitalize(Capitalize(w)) == Capitalize(w)
  {
    var c := Capitalize(w);
    var cc := Capitalize(c);
    assert |cc| == |c|;
    forall i | 0 <= i < |c|
      ensures cc[i] == c[i]
    {
      if i == 0 {
        assert !IsLower(c[0]) && (IsLower(c[0]) || cc[0] == c[0]);
      } else {
        assert cc[i] == LowerChar(c[i]) && c[i] == LowerChar(w[i]);
      }
    }
  }

  /** The capitalised title has the same words, each capitalised. */
  lemma TitleCaseWords(raw: string)
    ensures Words(TitleCase(raw)) == CapitalizeAll(Words(raw))
  {
    var ws := CapitalizeAll(Words(raw));
    forall i | 0 <= i < |ws|
      ensures IsWord(ws[i])
    {
      assert IsWord(Words(raw)[i]);
    }
    WordsOfJoin(ws);
  }

  /** Title capitalisation is idempotent. */
  lemma TitleCaseTwice(raw: string)
    ensures TitleCase(TitleCase(raw)) == TitleCase(raw)
  {
    TitleCaseWords(raw);
    var ws := CapitalizeAll(Words(raw));
    var again := CapitalizeAll(ws);
    assert again == ws by {
      forall i | 0 <= i < |ws|
        ensures again[i] == ws[i]
      {
        CapitalizeTwice(Words(raw)[i]);
      }
    }
  }

  // ---------------------------------------------------------------------
  // Birmingham Hippodrome
  // ---------------------------------------------------------------------

  /** A date written with its year is read as it is. */
  lemma HippodromeWithYear(d: Date, currentYear: nat, w: nat)
    requires Writable(d) && w < 7
    ensures HippodromeDay(Render(WeekdayDayMonYear, English, d, w), currentYear) == Got(d)
  {
    FormatsRoundTrip(WeekdayDayMonYear, d, w);
  }

  /** A date written without its year is put in CURRENT_YEAR, not in the
      year of the other side of the range. */
  lemma HippodromeNoYear(d: Date, currentYear: nat, w: nat)
    requires Writable(d) && w < 7 && Writable(Date(currentYear, d.month, d.day))
    ensures HippodromeDay(Render(WeekdayDayMon, English, d, w), currentYear) == Got(Date(currentYear, d.month, d.day))
  {
    FallbackTriggers(d, w);
    AppendedYearReads(WeekdayDayMon, d, currentYear, w);
    ShortFormats();
  }

  /** A range split on "-" or, when there is none, on "&": the left side
      without a year lands in CURRENT_YEAR. */
  lemma HippodromeRange(a: Date, b: Date, sep: char, currentYear: nat, w: nat)
    requires Writable(a) && Writable(b) && w < 7 && Writable(Date(currentYear, a.month, a.day))
    requires sep == '-' || sep == '&'
    ensures HippodromeDates(Range(Render(WeekdayDayMon, English, a, w), sep, Render(WeekdayDayMonYear, English, b, w)), currentYear)
            == Got(Span(Date(currentYear, a.month, a.day), b))
  {
    var left := Render(WeekdayDayMon, English, a, w);
    var right := Render(WeekdayDayMonYear, English, b, w);
    ShortFormats();
    FormatsAlternate();
    RenderedSide(WeekdayDayMon, a, w);
    RenderedSide(WeekdayDayMonYear, b, w);
    HalvesOfRange(left, sep, right);
    HippodromeNoYear(a, currentYear, w);
    HippodromeWithYear(b, currentYear, w);
    SeparatorOfRange(left, sep, right);
    HippodromeSides(Range(left, sep, right), currentYear, Date(currentYear, a.month, a.day), b);
  }

  /** A range whose sides the Hippodrome reads on their own. */
  lemma HippodromeSides(text: string, currentYear: nat, start: Date, end: Date)
    requires '-' in text || '&' in text
    requires HippodromeDay(Halves(text, HippodromeSeparator(text)).0, currentYear) == Got(start)
    requires HippodromeDay(Halves(text, HippodromeSeparator(text)).1, currentYear) == Got(end)
    ensures HippodromeDates(text, currentYear) == Got(Span(start, end))
  {
  }

  /** "-" is preferred; "&" is used only when there is no "-". */
  lemma SeparatorOfRange(left: string, sep: char, right: string)
    requires sep == '-' || sep == '&'
    requires '-' !in left && '-' !in right
    ensures HippodromeSeparator(Range(left, sep, right)) == sep
  {
    if sep == '-' {
      assert Range(left, sep, right)[|left| + 1] == '-';
    }
  }


  // ---------------------------------------------------------------------
  // Resorts World Arena
  // ---------------------------------------------------------------------

  /** "d1 month1 - d2 month2 year": the start takes the end's year. */
  lemma ResortsBorrowYear(a: Date, b: Date, w: nat)
    requires Writable(a) && Writable(b) && w < 7 && !(a.month == 2 && a.day == 29)
    ensures ResortsWorldDates(Range(Render(DayMonth, English, a, w), '-', Render(DayMonthYear, English, b, w)))
            == Got(Span(Date(b.year, a.month, a.day), b))
  {
    var left := Render(DayMonth, English, a, w);
    var right := Render(DayMonthYear, English, b, w);
    FormatsAlternate();
    RenderedSide(DayMonth, a, w);
    RenderedSide(DayMonthYear, b, w);
    HalvesOfRange(left, '-', right);
    FormatsRoundTrip(DayMonthYear, b, w);
    NotLeapDay(a, b.year);
    AppendedYearReads(DayMonth, a, b.year, w);
    ShortFormats();
  }

  /** "d1 - d2 month year": the start takes the end's month and year. */
  lemma ResortsBorrowMonth(a: Date, b: Date, w: nat)
    requires Writable(a) && Writable(b) && w < 7 && IsValid(Date(b.year, b.month, a.day))
    ensures ResortsWorldDates(Range(Render(DayOnly, English, a, w), '-', Render(DayMonthYear, English, b, w)))
            == Got(Span(Date(b.year, b.month, a.day), b))
  {
    var left := Render(DayOnly, English, a, w);
    var right := Render(DayMonthYear, English, b, w);
    ShortFormats();
    FormatsAlternate();
    RenderedSide(DayOnly, a, w);
    RenderedSide(DayMonthYear, b, w);
    HalvesOfRange(left, '-', right);
    FormatsRoundTrip(DayMonthYear, b, w);
    NameMissing(DayOnly, MonthName, [Space, Year], a, w, b.year);
    NumericTail(DayOnly, a, w, b.month, b.year);
  }

  /** No rollover: a range across New Year gets a start after its end. */
  lemma ResortsNoRollover(a: Date, b: Date, w: nat)
    requires Writable(a) && Writable(b) && w < 7 && !(a.month == 2 && a.day == 29)
    requires a.month > b.month
    ensures var r := ResortsWorldDates(Range(Render(DayMonth, English, a, w), '-', Render(DayMonthYear, English, b, w)));
            r.Got? && Dates.Before(r.value.end, r.value.start)
  {
    ResortsBorrowYear(a, b, w);
  }

  // ---------------------------------------------------------------------
  // Arena Birmingham
  // ---------------------------------------------------------------------

  /** "d1 month1 - d2 month2 year": the left side parses, but into
      `tmp_date`, so the show starts on whatever `start_date` the earlier
      entries left, and the first such entry raises UnboundLocalError. */
  lemma ArenaKeepsPrevious(a: Date, b: Date, previous: Option<Date>, w: nat)
    requires Writable(a) && Writable(b) && w < 7 && !(a.month == 2 && a.day == 29)
    ensures ArenaDates(Range(Render(DayMonth, English, a, w), '-', Render(DayMonthYear, English, b, w)), previous)
            == if previous.None? then Raise(Unassigned) else Got(Span(previous.value, b))
  {
    ShortFormats();
    ArenaSides(DayMonth, a, b, previous, w);
    ArenaKeepsPreviousRange(a, b, previous, w);
  }

  /** The range reading of those two sides. */
  lemma ArenaKeepsPreviousRange(a: Date, b: Date, previous: Option<Date>, w: nat)
    requires Writable(a) && Writable(b) && w < 7 && !(a.month == 2 && a.day == 29)
    ensures ArenaRange(Render(DayMonth, English, a, w), Render(DayMonthYear, English, b, w), previous)
            == if previous.None? then Raise(Unassigned) else Got(Span(previous.value, b))
  {
    ShortFormats();
    FormatsRoundTrip(DayMonthYear, b, w);
    NotLeapDay(a, b.year);
    AppendedYearReads(DayMonth, a, b.year, w);
  }

  /** The two sides of an Arena Birmingham range written out. */
  lemma ArenaSides(p: Format, a: Date, b: Date, previous: Option<Date>, w: nat)
    requires Writable(a) && Writable(b) && w < 7 && Alternating(p)
    ensures ArenaDates(Range(Render(p, English, a, w), '-', Render(DayMonthYear, English, b, w)), previous)
            == ArenaRange(Render(p, English, a, w), Render(DayMonthYear, English, b, w), previous)
  {
    FormatsAlternate();
    RenderedSide(p, a, w);
    RenderedSide(DayMonthYear, b, w);
    HalvesOfRange(Render(p, English, a, w), '-', Render(DayMonthYear, English, b, w));
  }

  /** "d1 - d2 month year": the fallback assigns `start_date`, with the
      end's month and year, whatever the earlier entries left. */
  lemma ArenaBorrowMonth(a: Date, b: Date, previous: Option<Date>, w: nat)
    requires Writable(a) && Writable(b) && w < 7 && IsValid(Date(b.year, b.month, a.day))
    ensures ArenaDates(Range(Render(DayOnly, English, a, w), '-', Render(DayMonthYear, English, b, w)), previous)
            == Got(Span(Date(b.year, b.month, a.day), b))
  {
    ShortFormats();
    ArenaSides(DayOnly, a, b, previous, w);
    ArenaBorrowMonthRange(a, b, previous, w);
  }

  /** The range reading of those two sides. */
  lemma ArenaBorrowMonthRange(a: Date, b: Date, previous: Option<Date>, w: nat)
    requires Writable(a) && Writable(b) && w < 7 && IsValid(Date(b.year, b.month, a.day))
    ensures ArenaRange(Render(DayOnly, English, a, w), Render(DayMonthYear, English, b, w), previous)
            == Got(Span(Date(b.year, b.month, a.day), b))
  {
    ShortFormats();
    FormatsRoundTrip(DayMonthYear, b, w);
    NameMissing(DayOnly, MonthName, [Space, Year], a, w, b.year);
    NumericTail(DayOnly, a, w, b.month, b.year);
  }

  // ---------------------------------------------------------------------
  // Artrix
  // ---------------------------------------------------------------------

  /** The dates the Artrix site writes need no ordinal or weekday
      clean-up. */
  lemma ArtrixCleanText(fmt: Format, d: Date, w: nat)
    requires Writable(d) && w < 7 && Alternating(fmt)
    ensures ReplaceWeekdays(StripOrdinals(Render(fmt, English, d, w))) == Render(fmt, English, d, w)
  {
    RenderTidy(fmt, d, w);
    TidyNoOrdinal(Render(fmt, English, d, w));
    TidyNoWeekdayFix(Render(fmt, English, d, w));
  }

  /** A date written with its year is read as it is. */
  lemma ArtrixWithYear(d: Date, end: Option<Date>, currentYear: nat, w: nat)
    requires Writable(d) && w < 7 && (end.Some? ==> IsValid(end.value))
    ensures ArtrixDay(Render(WeekdayDayMonYear, English, d, w), end, currentYear) == Got(d)
  {
    FormatsAlternate();
    ArtrixCleanText(WeekdayDayMonYear, d, w);
    FormatsRoundTrip(WeekdayDayMonYear, d, w);
  }

  /** A date without its year is put in CURRENT_YEAR, even on the left of
      a range whose end has a year. */
  lemma ArtrixNoYear(d: Date, end: Option<Date>, currentYear: nat, w: nat)
    requires Writable(d) && w < 7 && (end.Some? ==> IsValid(end.value))
    requires Writable(Date(currentYear, d.month, d.day))
    ensures ArtrixDay(Render(WeekdayDayMon, English, d, w), end, currentYear) == Got(Date(currentYear, d.month, d.day))
  {
    ShortFormats();
    ArtrixCleanText(WeekdayDayMon, d, w);
    FallbackTriggers(d, w);
    AppendedYearReads(WeekdayDayMon, d, currentYear, w);
  }

  /** A weekday and a day only: the month is the end date's and the year
      is CURRENT_YEAR; with no end date to read, AttributeError. */
  lemma ArtrixDayOnly(d: Date, end: Option<Date>, currentYear: nat, w: nat)
    requires Writable(d) && w < 7 && (end.Some? ==> IsValid(end.value)) && 1000 <= currentYear <= 9999
    requires end.Some? ==> IsValid(Date(currentYear, end.value.month, d.day))
    ensures ArtrixDay(Render(WeekdayDay, English, d, w), end, currentYear)
            == if end.None? then Raise(NoElement) else Got(Date(currentYear, end.value.month, d.day))
  {
    ShortFormats();
    ArtrixCleanText(WeekdayDay, d, w);
    FallbackTriggers(d, w);
    NameMissing(WeekdayDay, MonthAbbr, [Space, Year], d, w, currentYear);
    if end.Some? {
      NumericTail(WeekdayDay, d, w, end.value.month, currentYear);
    }
  }

  /** "weekday d1 - weekday d2 month": both in CURRENT_YEAR, the start in
      the end's month. */
  lemma ArtrixRange(a: Date, b: Date, currentYear: nat, w: nat)
    requires Writable(a) && Writable(b) && w < 7 && 1000 <= currentYear <= 9999
    requires IsValid(Date(currentYear, b.month, b.day)) && IsValid(Date(currentYear, b.month, a.day))
    ensures ArtrixDates(Range(Render(WeekdayDay, English, a, w), '-', Render(WeekdayDayMon, English, b, w)), currentYear)
            == Got(Span(Date(currentYear, b.month, a.day), Date(currentYear, b.month, b.day)))
  {
    var left := Render(WeekdayDay, English, a, w);
    var right := Render(WeekdayDayMon, English, b, w);
    ShortFormats();
    RenderedSide(WeekdayDay, a, w);
    RenderedSide(WeekdayDayMon, b, w);
    HalvesOfRange(left, '-', right);
    ArtrixNoYear(b, None, currentYear, w);
    ArtrixDayOnly(a, Some(Date(currentYear, b.month, b.day)), currentYear, w);
  }

  // ---------------------------------------------------------------------
  // New Alexandra Theatre
  // ---------------------------------------------------------------------

  /** A left side with its own year is read as it is. */
  lemma AlexFullLeft(a: Date, b: Date, previous: Option<Date>, w: nat)
    requires Writable(a) && Writable(b) && w < 7
    ensures AlexDates(Range(Render(WeekdayDayMonYear, English, a, w), '-', Render(WeekdayDayMonYear, English, b, w)), previous)
            == Got(Span(a, b))
  {
    var left := Render(WeekdayDayMonYear, English, a, w);
    var right := Render(WeekdayDayMonYear, English, b, w);
    FormatsAlternate();
    RenderedSide(WeekdayDayMonYear, a, w);
    RenderedSide(WeekdayDayMonYear, b, w);
    HalvesOfRange(left, '-', right);
    FormatsRoundTrip(WeekdayDayMonYear, a, w);
    FormatsRoundTrip(WeekdayDayMonYear, b, w);
  }

  /** The two sides of an Alexandra range written out. */
  lemma AlexSides(p: Format, a: Date, b: Date, previous: Option<Date>, w: nat)
    requires Writable(a) && Writable(b) && w < 7 && Alternating(p)
    ensures AlexDates(Range(Render(p, English, a, w), '-', Render(WeekdayDayMonYear, English, b, w)), previous)
            == AlexRange(Render(p, English, a, w), Render(WeekdayDayMonYear, English, b, w), previous)
  {
    FormatsAlternate();
    RenderedSide(p, a, w);
    RenderedSide(WeekdayDayMonYear, b, w);
    HalvesOfRange(Render(p, English, a, w), '-', Render(WeekdayDayMonYear, English, b, w));
  }

  /** A left side without a year takes the end's year. */
  lemma AlexBorrowYear(a: Date, b: Date, previous: Option<Date>, w: nat)
    requires Writable(a) && Writable(b) && w < 7 && !(a.month == 2 && a.day == 29)
    ensures AlexDates(Range(Render(WeekdayDayMon, English, a, w), '-', Render(WeekdayDayMonYear, English, b, w)), previous)
            == Got(Span(Date(b.year, a.month, a.day), b))
  {
    ShortFormats();
    AlexSides(WeekdayDayMon, a, b, previous, w);
    AlexBorrowYearRange(a, b, previous, w);
  }

  /** The range reading of those two sides. */
  lemma AlexBorrowYearRange(a: Date, b: Date, previous: Option<Date>, w: nat)
    requires Writable(a) && Writable(b) && w < 7 && !(a.month == 2 && a.day == 29)
    ensures AlexRange(Render(WeekdayDayMon, English, a, w), Render(WeekdayDayMonYear, English, b, w), previous)
            == Got(Span(Date(b.year, a.month, a.day), b))
  {
    ShortFormats();
    FormatsRoundTrip(WeekdayDayMonYear, b, w);
    WeekdayYearMissing(a, w);
    NotLeapDay(a, b.year);
    AppendedYearReads(WeekdayDayMon, a, b.year, w);
  }

  /** A left side with a day only: the Alexandra does not borrow the month,
      and the second attempt's ValueError escapes. */
  lemma AlexDayOnlyFails(a: Date, b: Date, previous: Option<Date>, w: nat)
    requires Writable(a) && Writable(b) && w < 7
    ensures AlexDates(Range(Render(WeekdayDay, English, a, w), '-', Render(WeekdayDayMonYear, English, b, w)), previous)
            == Raise(BadDate(NoMatch))
  {
    ShortFormats();
    AlexSides(WeekdayDay, a, b, previous, w);
    AlexDayOnlyRange(a, b, previous, w);
  }

  /** The range reading of those two sides. */
  lemma AlexDayOnlyRange(a: Date, b: Date, previous: Option<Date>, w: nat)
    requires Writable(a) && Writable(b) && w < 7
    ensures AlexRange(Render(WeekdayDay, English, a, w), Render(WeekdayDayMonYear, English, b, w), previous)
            == Raise(BadDate(NoMatch))
  {
    ShortFormats();
    FormatsRoundTrip(WeekdayDayMonYear, b, w);
    WeekdayMonthMissing(a, w);
    NameMissing(WeekdayDay, MonthAbbr, [Space, Year], a, w, b.year);
  }

  // ---------------------------------------------------------------------
  // Warwick Arts Centre
  // ---------------------------------------------------------------------

  /** A left side without a year takes the end's year. */
  lemma WarwickBorrowYear(a: Date, b: Date, previous: Option<Date>, currentYear: nat, w: nat)
    requires Writable(a) && Writable(b) && w < 7 && !(a.month == 2 && a.day == 29)
    ensures WarwickDates(Range(Render(WeekdayDayMon, English, a, w), '-', Render(WeekdayDayMonYear, English, b, w)), previous, currentYear)
            == Got(Span(Date(b.year, a.month, a.day), b))
  {
    ShortFormats();
    WarwickSides(WeekdayDayMon, a, b, currentYear, w);
    WarwickBorrowYearReading(a, b, w);
    WarwickFresh(Range(Render(WeekdayDayMon, English, a, w), '-', Render(WeekdayDayMonYear, English, b, w)),
                 previous, currentYear, Span(Date(b.year, a.month, a.day), b));
  }

  /** A fresh reading is the span, whatever came before. */
  lemma WarwickFresh(text: string, previous: Option<Date>, currentYear: nat, span: Span)
    requires WarwickReading(text, currentYear) == Got(Fresh(span))
    ensures WarwickDates(text, previous, currentYear) == Got(span)
  {
  }

  /** The range reading of those two sides. */
  lemma WarwickBorrowYearReading(a: Date, b: Date, w: nat)
    requires Writable(a) && Writable(b) && w < 7 && !(a.month == 2 && a.day == 29)
    ensures WarwickRangeReading(Render(WeekdayDayMon, English, a, w), Render(WeekdayDayMonYear, English, b, w))
            == Got(Fresh(Span(Date(b.year, a.month, a.day), b)))
  {
    ShortFormats();
    FormatsAlternate();
    FormatsRoundTrip(WeekdayDayMonYear, b, w);
    NotLeapDay(a, b.year);
    AppendedYearReads(WeekdayDayMon, a, b.year, w);
  }

  /** A Warwick range written as "{left} - {right}" is read side by side. */
  lemma WarwickSides(p: Format, a: Date, b: Date, currentYear: nat, w: nat)
    requires Writable(a) && Writable(b) && w < 7 && Alternating(p)
    ensures var text := Range(Render(p, English, a, w), '-', Render(WeekdayDayMonYear, English, b, w));
            WarwickReading(text, currentYear)
              == WarwickRangeReading(Render(p, English, a, w), Render(WeekdayDayMonYear, English, b, w))
  {
    FormatsAlternate();
    RenderedSide(p, a, w);
    RenderedSide(WeekdayDayMonYear, b, w);
    HalvesOfRange(Render(p, English, a, w), '-', Render(WeekdayDayMonYear, English, b, w));
  }

  /** A left side with a weekday and a day only takes the end's month and
      year. */
  lemma WarwickBorrowMonth(a: Date, b: Date, previous: Option<Date>, currentYear: nat, w: nat)
    requires Writable(a) && Writable(b) && w < 7 && IsValid(Date(b.year, b.month, a.day))
    ensures WarwickDates(Range(Render(WeekdayDay, English, a, w), '-', Render(WeekdayDayMonYear, English, b, w)), previous, currentYear)
            == Got(Span(Date(b.year, b.month, a.day), b))
  {
    ShortFormats();
    WarwickSides(WeekdayDay, a, b, currentYear, w);
    WarwickBorrowMonthReading(a, b, w);
    WarwickFresh(Range(Render(WeekdayDay, English, a, w), '-', Render(WeekdayDayMonYear, English, b, w)),
                 previous, currentYear, Span(Date(b.year, b.month, a.day), b));
  }

  /** The range reading of those two sides. */
  lemma WarwickBorrowMonthReading(a: Date, b: Date, w: nat)
    requires Writable(a) && Writable(b) && w < 7 && IsValid(Date(b.year, b.month, a.day))
    ensures WarwickRangeReading(Render(WeekdayDay, English, a, w), Render(WeekdayDayMonYear, English, b, w))
            == Got(Fresh(Span(Date(b.year, b.month, a.day), b)))
  {
    ShortFormats();
    FormatsAlternate();
    FormatsRoundTrip(WeekdayDayMonYear, b, w);
    NameMissing(WeekdayDay, MonthAbbr, [Space, Year], a, w, b.year);
    NumericTail(WeekdayDay, a, w, b.month, b.year);
  }

  /** A left side with its own year gets the end's year appended too; the
      leftover text is a ValueError the except clause swallows, so the
      show starts on the `start_date` of an earlier entry. */
  lemma WarwickFullLeft(a: Date, b: Date, previous: Option<Date>, currentYear: nat, w: nat)
    requires Writable(a) && Writable(b) && w < 7
    ensures WarwickDates(Range(Render(WeekdayDayMonYear, English, a, w), '-', Render(WeekdayDayMonYear, English, b, w)), previous, currentYear)
            == if previous.None? then Raise(Unassigned) else Got(Span(previous.value, b))
  {
    WarwickFullLeftReading(a, b, currentYear, w);
  }

  /** The parsing of such a range keeps the end and swallows the error. */
  lemma WarwickFullLeftReading(a: Date, b: Date, currentYear: nat, w: nat)
    requires Writable(a) && Writable(b) && w < 7
    ensures WarwickReading(Range(Render(WeekdayDayMonYear, English, a, w), '-', Render(WeekdayDayMonYear, English, b, w)), currentYear)
            == Got(Untouched(Some(b)))
  {
    FormatsAlternate();
    WarwickSides(WeekdayDayMonYear, a, b, currentYear, w);
    FormatsRoundTrip(WeekdayDayMonYear, b, w);
    YearTwice(a, b.year, w);
  }

  /** A year appended to a date that has one is leftover text. */
  lemma YearTwice(d: Date, y: nat, w: nat)
    requires Writable(d) && w < 7
    ensures Parse(Appended(Render(WeekdayDayMonYear, English, d, w), y), WeekdayDayMonYear) == Fail(Trailing)
  {
    FullFormatsSpaced();
    assert Appended(Render(WeekdayDayMonYear, English, d, w), y) == Render(WeekdayDayMonYear, English, d, w) + (" " + NatStr(y));
    ParseRenderedTrailing(WeekdayDayMonYear, d, w, " " + NatStr(y));
  }

  /** A lone date without a year is put in CURRENT_YEAR. */
  lemma WarwickSingleNoYear(d: Date, previous: Option<Date>, currentYear: nat, w: nat)
    requires Writable(d) && w < 7 && Writable(Date(currentYear, d.month, d.day))
    ensures WarwickDates(Render(WeekdayDayMon, English, d, w), previous, currentYear)
            == Got(Span(Date(currentYear, d.month, d.day), Date(currentYear, d.month, d.day)))
  {
    ShortFormats();
    RenderedSide(WeekdayDayMon, d, w);
    FallbackTriggers(d, w);
    AppendedYearReads(WeekdayDayMon, d, currentYear, w);
  }

  /** A lone date with its year is read as it is. */
  lemma WarwickSingle(d: Date, previous: Option<Date>, currentYear: nat, w: nat)
    requires Writable(d) && w < 7
    ensures WarwickDates(Render(WeekdayDayMonYear, English, d, w), previous, currentYear) == Got(Span(d, d))
  {
    FormatsAlternate();
    RenderedSide(WeekdayDayMonYear, d, w);
    FormatsRoundTrip(WeekdayDayMonYear, d, w);
  }
}
