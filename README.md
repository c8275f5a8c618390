# whatson ingest: the date rules and fetch loops, in Dafny

This project models the ingestion core of `whatson`, which scrapes the
"what's on" listings of nine Birmingham-area venues. For each venue a
fetcher class turns every listing entry into a show record: title, image
URL, link URL, start date and end date. Most of the work is date resolution.
Each site writes its dates differently. Some give ranges with "-" or "&".
Some leave the year or the month off one side. Some use ordinals ("23rd"),
four-letter weekdays ("Thurs") or decorations ("from", "7.30pm", "(matinee)").
Each fetcher has its own rule for filling in what is missing.

The model has these layers, one module each:

- `Dates`: proleptic Gregorian dates with the range checks of
  `datetime.date`, and their order.
- `Text`: the Python string methods the fetchers use (`lower`, `strip`,
  `split`, `replace`, `capitalize`, whitespace `split()`, `" ".join`).
- `Strptime` and `StrptimeFacts`: the part of `datetime.strptime` used
  here. That is six formats, English names matched case-insensitively, and
  1900 as the year when the format has none. The result is the date or the
  kind of `ValueError`; the fetchers' tests on the message text are read
  as tests on that kind (see "Left out" for where the two differ). `StrptimeFacts` proves that
  parsing reads back what `strftime` writes, and proves which fallbacks fire.
- `Normalise`: `DATE_REPLACER`, `weekday_replacer` and Warwick's
  `fix_date_text`.
- `Ranges`, `Written` and `RangesFacts`: the date-range rule of each venue,
  and lemmas about what each rule makes of dates written in the site's form.
- `Listing` and `Paging`: the entry loop and the `while True` page loop.
  Each is an imperative method (`DrainItems`, `Fetch`) proved equal to a
  recursive specification (`Drain`, `Crawl`), and the properties are proved
  about those specifications.
- `Sources`, `Venues` and `VenueFacts`: the nine fetchers. Each is its
  page checks, its loop body and its page loop, together with what they
  guarantee.
- `Registry`: `Fetcher.__init__` validation and the ingestion loop of `main`.

HTML is not parsed. A page is given already searched: each element a
fetcher looks for is present (its text or attribute) or `None`. The network
is a sequence of responses. The k-th request gets the k-th response, and a
request past the end fails like an HTTP error. `CURRENT_YEAR` is a
parameter (`currentYear`).

Behaviours of the code that the model keeps as written:

- Only the Belgrade applies the year rollover. `RangesFacts.ResortsNoRollover`
  shows a ResortsWorld range whose end comes before its start.
- Only the Albany (entries with no date element) and the Warwick (entries
  whose date raises `ValueError`) skip an entry whose date cannot be found
  or read. The Belgrade also passes over children that are not show
  entries: strings, month/year panels (which it reads as the panel date)
  and elements without the `production-list-item` class. Every other
  error ends that fetcher's generator.
- The Belgrade's check against the month/year panel compares the year only.
  It is an `assert`, so failing it ends the fetch.
- `main` has no `try`. The first exception from any fetcher ends the whole
  ingestion, and the remaining sources are not fetched (`Registry.IngestCompletes`).
- The Arena's successful left-side parse assigns `tmp_date`, not
  `start_date`. So a full left side yields the previous entry's start, or
  raises `UnboundLocalError` on the first entry. This is modelled as
  written (`VenueFacts.ArenaStartLeaks`, `VenueFacts.ArenaFirstUnbound`).

## Model

| member | source | states |
|---|---|---|
| Dates.DaysInMonth | whatson/ingest.py:176-178 | a month has 28 to 31 days, and 29 exactly for February of a leap year |
| Dates.MakeDate | whatson/ingest.py:176-178 | `datetime.date(y, m, d)` succeeds exactly for a valid date and then is that date; otherwise it gives the year, month or day range error, the day error exactly when year and month are in range |
| Dates.BeforeTrichotomy | whatson/ingest.py:278 | date `<` is a strict total order: exactly one of before, equal, after |
| Dates.BeforeTransitive | whatson/ingest.py:278 | date `<` is transitive |
| Dates.NextYear | whatson/ingest.py:279-281 | adding one to the year keeps month and day, moves strictly later, and fails exactly for 29 February or year 9999 |
| Dates.ValidInAnyYear | whatson/ingest.py:176-178 | a valid date of a non-leap year keeps its day and month valid in every year |
| Text.Lower | whatson/ingest.py:158 | `str.lower` keeps the length and lowers each character |
| Text.LowerNoUpper | whatson/ingest.py:219 | lowering text with no capitals changes nothing |
| Text.LStrip | whatson/ingest.py:172 | the left strip is a suffix of the text, what it removed is whitespace, and it does not start with whitespace |
| Text.RStrip | whatson/ingest.py:172 | the right strip is a prefix of the text, what it removed is whitespace, and it does not end with whitespace |
| Text.Strip | whatson/ingest.py:172 | `str.strip` neither starts nor ends with whitespace and adds no character |
| Text.RStripChar | whatson/ingest.py:756 | `rstrip(c)` is a prefix, does not end with `c`, and removed only `c` |
| Text.Split | whatson/ingest.py:172 | `split(sep)` gives at least one part, no part holds `sep`, joining the parts with `sep` gives the text back, and there are two or more parts exactly when `sep` occurs |
| Text.SplitFirst | whatson/ingest.py:755 | `split(sep)[0]` is the text before the first `sep` |
| Text.SplitSecond | whatson/ingest.py:172 | `split(sep)[1]` is the text between the first and second `sep`, or to the end |
| Text.ReplaceAbsent | whatson/ingest.py:100 | `replace` of a pattern that does not occur changes nothing |
| Text.ReplaceCharRemoves | whatson/ingest.py:758 | after replacing a character by text without it, the character no longer occurs |
| Text.Words | whatson/ingest.py:744 | `str.split()` gives non-empty words without whitespace, and no words exactly when the text is all whitespace |
| Text.WordsOfWeave | whatson/ingest.py:744 | words separated by runs of whitespace, with any whitespace at the ends, split back into exactly those words: each word is a maximal run |
| Text.WordsOfJoin | whatson/ingest.py:753-754 | splitting words joined by single blanks gives the words back |
| Text.NatStrValue | whatson/ingest.py:259 | the decimal text of a number reads back as that number |
| Text.UpperChar | whatson/ingest.py:316 | a lowercase letter becomes the uppercase letter that lowers back to it; anything else is unchanged |
| Text.Capitalize | whatson/ingest.py:316 | `str.capitalize` keeps the length, makes the first character its `UpperChar`, lowers the rest and keeps whitespace |
| Strptime.MatchName | whatson/ingest.py:399 | a matched month or weekday name is a table entry, equal to the lowered text it covers |
| Strptime.MatchDay | whatson/ingest.py:175 | `%d` reads one or two characters with value 1 to 31 |
| Strptime.MatchMonthNumber | whatson/ingest.py:495 | `%m` reads one or two characters with value 1 to 12 |
| Strptime.MatchYear | whatson/ingest.py:173 | `%Y` matches exactly when four digits follow, and reads their value |
| Strptime.SpaceEnd | whatson/ingest.py:173 | a blank of the format consumes the whole run of whitespace |
| Strptime.MatchOne | whatson/ingest.py:173 | one directive never reads past the text, and only `%Y` sets the year |
| Strptime.MatchFrom | whatson/ingest.py:173 | a match never runs past the text, and leaves the year alone when the format has no `%Y` |
| Strptime.Resolve | whatson/ingest.py:173 | the captured fields give a valid date or one of the three range errors |
| Strptime.Parse | whatson/ingest.py:173-175 | `strptime(...).date()` gives a valid date or an error other than an ISO one; with no `%Y` in the format the year is 1900 |
| StrptimeFacts.EnglishIsGood | whatson/ingest.py:399 | month names, month abbreviations and weekday abbreviations are lowercase, at least three letters, and told apart by their first three letters |
| StrptimeFacts.MatchNameFinds | whatson/ingest.py:399 | in such a table, text starting with an entry matches that entry |
| StrptimeFacts.RenderMatches | whatson/ingest.py:173 | a well-spaced format reads back what it wrote, capturing the date's fields, wherever the text sits |
| StrptimeFacts.ParseRendered | whatson/ingest.py:173-175 | parsing what `strftime` wrote is `datetime.date` of the fields written, with 1900, 1 and 1 for the year, month and day the format lacks |
| StrptimeFacts.ParseRenderedTrailing | whatson/ingest.py:798-800 | text left after a complete match is "unconverted data remains" |
| StrptimeFacts.FormatsRoundTrip | whatson/ingest.py:173 | for `%d %B %Y`, `%a %d %b %Y`, `%d %m %Y` and `%a %d %m %Y`, parse after format is the identity on valid four-digit-year dates |
| StrptimeFacts.MonthYearRoundTrip | whatson/ingest.py:220 | `%B %Y` reads back the first of the month written |
| StrptimeFacts.DayMonthRoundTrip | whatson/ingest.py:255 | `%d %B` reads back the day and month in 1900, so 29 February is "day is out of range" |
| StrptimeFacts.MatchFromConcat | whatson/ingest.py:173 | matching a concatenated format is matching the first part, then the second from where it stopped |
| StrptimeFacts.MissingTailNoMatch | whatson/ingest.py:401 | text that ends where a longer format still expects a blank "does not match format" |
| StrptimeFacts.FallbackTriggers | whatson/ingest.py:485-491 | a day and month without a year, and a weekday and day without a month, are "does not match format" under the year-bearing formats |
| StrptimeFacts.AppendedYear | whatson/ingest.py:259-261 | when text with an appended four-digit year parses under a format ending in `%Y`, the year is the appended one |
| StrptimeFacts.ParseIgnoresCase | whatson/ingest.py:158 | parsing is blind to case: parsing the lowered text gives the same result |
| Normalise.OrdinalDigits | whatson/ingest.py:94 | a match of the ordinal pattern is one or two digits, then st/nd/rd/th, then a word boundary |
| Normalise.StripOrdinals | whatson/ingest.py:94 | the substitution only deletes: the result is no longer than the text and every character comes from it |
| Normalise.StripOrdinalsNone | whatson/ingest.py:94 | text without an ordinal is unchanged |
| Normalise.StripOrdinalWord | whatson/ingest.py:94 | a day with an ordinal suffix at the start of the text loses the suffix, and the rest is handled on its own |
| Normalise.StripOrdinalInText | whatson/ingest.py:251 | a day with an ordinal suffix after a non-word character loses the suffix, and the text on each side is handled on its own |
| Normalise.StripOrdinalsKeptExamples | whatson/ingest.py:94 | "123rd" and "x1st" are unchanged, because no word boundary comes before the digits |
| Normalise.InWordAfter | whatson/ingest.py:94 | a run of word characters that does not start with an ordinal is unchanged, whatever ordinals it holds further in |
| Normalise.ReplaceWeekdays | whatson/ingest.py:98-100 | the replacements never lengthen the text, and text without a capital T is unchanged |
| Normalise.ReplaceWeekdaysAbsent | whatson/ingest.py:98-100 | text with neither "Thurs" nor "Tues" is returned unchanged |
| Normalise.ReplaceWeekdaysThurs | whatson/ingest.py:98-100 | a leading "Thurs" becomes "Thu" |
| Normalise.ReplaceWeekdaysTues | whatson/ingest.py:98-100 | a leading "Tues" becomes "Tue" |
| Normalise.NoCapitalT | whatson/ingest.py:98-100 | text without a capital T contains neither abbreviation |
| Normalise.ReplaceWeekdaysInsideWord | whatson/ingest.py:98-100 | the replacement is on substrings, not words: "Thursday" becomes "Thuday" |
| Normalise.KeepWords | whatson/ingest.py:745-752 | the words kept are exactly those without "am" or "pm" that are neither "from" nor a plural weekday |
| Normalise.KeepWordsAllKept | whatson/ingest.py:745-752 | the word filter keeps a list of acceptable words whole |
| Normalise.KeepWordsConcat | whatson/ingest.py:745-752 | the filter works word by word: filtering two lists in a row is filtering each, in order |
| Normalise.Cut | whatson/ingest.py:755-757 | a prefix of its input holding neither "," nor "(" (the trailing-"-" strip is stated by `Normalise.CutTrailingDash`; cuts that combine with a strip, such as "p -, q", follow from the body and are not stated separately) |
| Normalise.CutTrailingDash | whatson/ingest.py:756 | `.rstrip("-")` removes a "-" left at the end, but not the blank before it |
| Normalise.Finish | whatson/ingest.py:758-762 | no "–" is left, the ends are free of whitespace, and no "," or "(" is brought in (the "&" strip is stated by `Normalise.FinishTrailingAmpersand`; its combination with a cut follows from the body) |
| Normalise.FinishTrailingAmpersand | whatson/ingest.py:759-760 | `.rstrip("&")` and the final `strip` turn clean text followed by " &" into the clean text |
| Normalise.FixDateText | whatson/ingest.py:732-762 | `fix_date_text` contains no ",", "(" or "–", and has no leading or trailing whitespace |
| Normalise.CutClean | whatson/ingest.py:755-757 | text without ",", "(" or a trailing "-" is not cut |
| Normalise.FinishClean | whatson/ingest.py:758-762 | text without those characters and with clean ends is not changed by the finishing steps |
| Normalise.FixDateTextComma | whatson/ingest.py:755 | when the kept words read "p,q" with a clean p, the result is p: everything from the first comma on is cut |
| Normalise.FixDateTextParen | whatson/ingest.py:757 | when the kept words read "p(q" with a clean p, the result is p: everything from the first parenthesis on is cut |
| Normalise.FixDateTextTrailingDash | whatson/ingest.py:744-762 | when the kept words read "p -" (the words after the hyphen were dropped), the result is p, so it holds no "-" for the range rule |
| Normalise.FixDateTextTrailingAmpersand | whatson/ingest.py:744-762 | when the kept words read "p &", the result is p |
| Normalise.FixDateTextEnDash | whatson/ingest.py:758 | when the kept words read "a – b", the result is "a - b" |
| Normalise.FixDateTextClean | whatson/ingest.py:732-762 | clean words joined by blanks come back unchanged |
| Normalise.FixDateTextOfKept | whatson/ingest.py:744-762 | when the kept words need no cutting, the result is the kept words joined by blanks |
| Normalise.JoinWordsEnds | whatson/ingest.py:754 | words joined by blanks have no whitespace at either end |
| Normalise.ReplaceKeepsAbsent | whatson/ingest.py:758 | `replace` adds no character that neither the text nor the replacement holds |
| Shows.FromDate | whatson/ingest.py:173 | a parse result becomes the date or a `ValueError` with the same failure |
| Shows.Absolute | whatson/ingest.py:164 | `"".join([root_url, path])` is the root followed by the path |
| Shows.Appended | whatson/ingest.py:487 | `f"{text} {n}"` starts with the text and a blank |
| Shows.Halves | whatson/ingest.py:172 | the stripped text before the first separator, and the stripped text between it and the next one (or the end); neither holds the separator or has whitespace at its ends |
| Ranges.AlbanyDates | whatson/ingest.py:170-182 | every span is valid; without "-" it succeeds exactly when `%d %B %Y` parses, and then start equals end equals that date |
| Ranges.AlbanyRange | whatson/ingest.py:170-178 | with "-", it succeeds exactly when the right side parses as `%d %B %Y` and the left as `%d %B`; the end is the right side's date and the start is the left side's day and month in the end's year |
| Ranges.DayMonthInAnyYear | whatson/ingest.py:175-178 | a day and month parsed under `%d %B` form a valid date in any year |
| Ranges.BelgradeDay | whatson/ingest.py:253-261 | `parse_single_date` gives a valid date in the panel year. A parse of the day and month gives that day and month. An error other than "day is out of range" leaves `tmp_date` unbound |
| Ranges.BelgradeLeapDay | whatson/ingest.py:256-261 | the leap-day retry gives a valid date in the panel year or a `ValueError` |
| Ranges.BelgradeDates | whatson/ingest.py:263-281 | every span is valid. The start is in the panel year, the end is in the panel year or the next, and the start is not after the end. Without "-", start equals end |
| Ranges.BelgradeSpan | whatson/ingest.py:263-281 | the two sides, rolled over: start in the panel year, end in that year or the next, start not after end |
| Ranges.IsoDate | whatson/ingest.py:329-331 | `fromisoformat(...).date()` succeeds only on text with "-" at positions 4 and 7, gives a valid date, and refuses text shorter than a date |
| Ranges.SymphonyDates | whatson/ingest.py:325-347 | one `<time>` gives start equal to end. Two give the start and end times, after checking their `itemprop` (else `AssertionError`). Any other count raises `NotImplementedError` |
| Ranges.CapitalizeAll | whatson/ingest.py:316 | each word is capitalised, in order |
| Ranges.HippodromeDay | whatson/ingest.py:396-410 | a full date is taken as is. "does not match format" retries with `CURRENT_YEAR` appended. Any other error is re-raised |
| Ranges.HippodromeSeparator | whatson/ingest.py:412-416 | "-" is preferred to "&"; the separator occurs exactly when either does |
| Ranges.HippodromeDates | whatson/ingest.py:412-422 | with a separator, it succeeds exactly when both sides read by `parse_single_date`, which give start and end; without one, start and end are the whole text so read |
| Ranges.ResortsWorldDates | whatson/ingest.py:481-500 | without "-", it succeeds exactly when `%d %B %Y` parses, and then start equals end; with "-", the end is the right side's date and the start is the left side read with the end's year, or after any `ValueError` with the end's month number and year |
| Ranges.ResortsWorldRange | whatson/ingest.py:481-496 | every span is valid; the end is the right side's `%d %B %Y` date; the start is the left side with the end's year appended, else with its month number and year under `%d %m %Y`; it succeeds exactly when the right side and one of those two parse |
| Ranges.ArenaDates | whatson/ingest.py:559-581 | without "-" it reads one full date. With "-" the end is the right side's date. The start is the previous entry's start when the left side parses with the end's year appended, and otherwise the numeric-month fallback, which only "does not match format" reaches. `UnboundLocalError` only on the first entry |
| Ranges.ArenaRange | whatson/ingest.py:560-577 | the two-sided branch: the end is the right side's date; a left side that parses with the end's year gives the carried start; one that "does not match format" gives the left side read with the end's month number and year; it succeeds exactly when those reads do and, in the first case, a start is carried |
| Ranges.ArtrixDay | whatson/ingest.py:626-645 | `parse_date_part` normalises ordinals and weekdays, then takes a full date as is, else the text with `CURRENT_YEAR`, else the text with the end's month number and `CURRENT_YEAR`; an error other than "does not match format" leaves `date` unbound, and the last fallback without an end date is an `AttributeError` |
| Ranges.ArtrixDates | whatson/ingest.py:647-654 | the end is the right side read alone; the start is the left side read with that end date; it succeeds exactly when both reads do; without "-", start equals end, read alone |
| Ranges.AlexDates | whatson/ingest.py:696-711 | without "-" it succeeds exactly when `%a %d %b %Y` parses, and start equals end. With "-" the end is the right side's date; the start is a full left side, or the left side with the end's year when it "does not match format", or the carried start after any other `ValueError` |
| Ranges.AlexRange | whatson/ingest.py:696-707 | the two-sided branch: end from the right side; start from the left side as it is, or with the end's year after "does not match format", or carried after another error; it succeeds exactly when the chosen read does or a start is carried; `UnboundLocalError` only on the first entry |
| Ranges.WarwickReading | whatson/ingest.py:791-819 | what the `try` block computes: the range reading with "-", the lone reading without |
| Ranges.WarwickRangeReading | whatson/ingest.py:792-806 | a right side that fails raises its `ValueError`; otherwise it is the end, and the start is the left side with the end's year, or after "does not match format" with the end's month number and year under `%a %d %m %Y` (whose error is raised); any other error leaves `start_date` untouched; it succeeds exactly when those reads allow |
| Ranges.WarwickLoneReading | whatson/ingest.py:808-819 | the single-date branch: a full date as is, else after "does not match format" the text with `CURRENT_YEAR`, whose error is raised again; another error leaves the carried values untouched |
| Ranges.WarwickDates | whatson/ingest.py:791-830 | a fresh reading is the span; an untouched one gives the previous entry's start (with the read end, or that start again without "-"), or `UnboundLocalError` on the first entry. Without "-": a full date, else the date with `CURRENT_YEAR`, else the carried start |
| Written.TidyNoOrdinal | whatson/ingest.py:627 | text as `strftime` writes it has no ordinal for `DATE_REPLACER` to remove |
| Written.TidyNoWeekdayFix | whatson/ingest.py:627 | such text has no "Thurs" or "Tues" for `weekday_replacer` to shorten |
| Written.HalvesOfRange | whatson/ingest.py:172 | splitting "a - b" on the separator and stripping gives back a and b |
| Written.NumericTail | whatson/ingest.py:493-496 | a day-only left side with the end's month and year appended parses under `%d %m %Y` as that day in that month and year |
| Written.NameMissing | whatson/ingest.py:570-571 | text with digits where a month name is expected "does not match format" |
| RangesFacts.AlbanyBorrowsYear | whatson/ingest.py:173-178 | "d month - d month yyyy" gives the end date, and the start takes the end's year |
| RangesFacts.AlbanySingle | whatson/ingest.py:179-182 | a single full date gives start equal to end equal to that date |
| RangesFacts.BelgradeDayInPanelYear | whatson/ingest.py:253-261 | a day and month are put in the panel year |
| RangesFacts.BelgradeLeapDay | whatson/ingest.py:256-260 | "29 february" is "day is out of range" under `%d %B` and is retried in the panel year, which succeeds in a leap year |
| RangesFacts.BelgradeSpanRolls | whatson/ingest.py:277-281 | when the end falls before the start, one is added to the end's year, and only then |
| RangesFacts.BelgradeRollover | whatson/ingest.py:263-281 | "d month - d month" under a panel year gives the start in that year, and an end in that year, or in the next year when it would fall before the start |
| RangesFacts.BelgradeAcrossNewYear | testing/test_ingest.py:28-29 | "27 november - 11 january" under the 2019 panel is 2019-11-27 to 2020-01-11 |
| RangesFacts.IsoRoundTrip | whatson/ingest.py:329-331 | `fromisoformat` reads back the date of a "yyyy-mm-dd" prefix, whatever follows |
| RangesFacts.SymphonyOneDay | whatson/ingest.py:327-332 | one time tag gives a one-day span |
| RangesFacts.SymphonyTwoTimes | whatson/ingest.py:333-343 | two time tags give their dates when tagged startDate and endDate, else `AssertionError` |
| RangesFacts.CapitalizeTwice | whatson/ingest.py:316 | capitalising is idempotent |
| RangesFacts.TitleCaseWords | whatson/ingest.py:316 | the title's words are the raw title's words, each capitalised |
| RangesFacts.TitleCaseTwice | whatson/ingest.py:316 | the title rule is idempotent |
| RangesFacts.HippodromeWithYear | whatson/ingest.py:398-399 | a full `%a %d %b %Y` date is read as is |
| RangesFacts.HippodromeNoYear | whatson/ingest.py:400-406 | a date without a year is read in `CURRENT_YEAR` |
| RangesFacts.HippodromeRange | whatson/ingest.py:412-419 | "a - b" or "a & b" with a yearless left side: the start is in `CURRENT_YEAR`, not the end's year |
| RangesFacts.SeparatorOfRange | whatson/ingest.py:412-416 | the separator chosen is the one the range was written with |
| RangesFacts.ResortsBorrowYear | whatson/ingest.py:485-490 | a yearless left side takes the end's year |
| RangesFacts.ResortsBorrowMonth | whatson/ingest.py:491-496 | a day-only left side takes the end's month and year |
| RangesFacts.ResortsNoRollover | whatson/ingest.py:481-496 | no rollover is applied: a left month later than the right gives a span that ends before it starts |
| RangesFacts.ArenaKeepsPrevious | whatson/ingest.py:564-568 | a yearless left side that parses leaves `start_date` as it was: the previous entry's start, or unbound |
| RangesFacts.ArenaBorrowMonth | whatson/ingest.py:569-574 | a day-only left side takes the end's month and year |
| RangesFacts.ArtrixCleanText | whatson/ingest.py:627 | normalising text already in `strftime` form changes nothing |
| RangesFacts.ArtrixWithYear | whatson/ingest.py:628-629 | a full date is read as is |
| RangesFacts.ArtrixNoYear | whatson/ingest.py:630-636 | a yearless date is read in `CURRENT_YEAR` |
| RangesFacts.ArtrixDayOnly | whatson/ingest.py:637-643 | a weekday and day take the end's month and `CURRENT_YEAR`; without an end date it is an `AttributeError` |
| RangesFacts.ArtrixRange | whatson/ingest.py:647-651 | "weekday d - weekday d mon" gives both dates in `CURRENT_YEAR` and the end's month, not the end's year |
| RangesFacts.AlexFullLeft | whatson/ingest.py:696-702 | two full dates give them as start and end |
| RangesFacts.AlexBorrowYear | whatson/ingest.py:703-707 | a yearless left side takes the end's year |
| RangesFacts.AlexDayOnlyFails | whatson/ingest.py:703-707 | a left side without a month fails the retry with "does not match format" |
| RangesFacts.WarwickBorrowYear | whatson/ingest.py:797-800 | a yearless left side takes the end's year |
| RangesFacts.WarwickFresh | whatson/ingest.py:791-806 | a fresh reading is the yielded span, whatever was carried |
| RangesFacts.WarwickBorrowMonth | whatson/ingest.py:801-806 | a weekday and day take the end's month and year |
| RangesFacts.WarwickFullLeft | whatson/ingest.py:797-806 | a full left side gets a second year appended, gives "unconverted data remains", and so leaves `start_date` as the previous entry's, or unbound |
| RangesFacts.YearTwice | whatson/ingest.py:797-800 | a full date with a year appended is "unconverted data remains" |
| RangesFacts.WarwickSingleNoYear | whatson/ingest.py:809-817 | a single yearless date is read in `CURRENT_YEAR` |
| RangesFacts.WarwickSingle | whatson/ingest.py:809-812 | a single full date gives start equal to end |
| Listing.Then | whatson/ingest.py:184-190 | shows yielded before the rest of the loop come first |
| Listing.Drain | whatson/ingest.py:153-190 | the entry loop yields at most one show per entry |
| Listing.DrainConcat | whatson/ingest.py:153-190 | the loop over two runs of entries is the loop over the first, then, unless it raised, the loop over the second: document order |
| Listing.DrainTwo | whatson/ingest.py:153-190 | two entries that each yield a show yield them in order |
| Listing.Kept | whatson/ingest.py:153-160 | the entries kept are among the original ones and are not skipped |
| Listing.DrainSkips | whatson/ingest.py:153-160 | entries the loop body passes over with `continue` make no difference |
| Listing.DrainYields | whatson/ingest.py:153-190 | a property every yielded show has at each step holds for every show the loop yields |
| Listing.DrainItems | whatson/ingest.py:153-190 | the imperative entry loop yields the same shows, exception and carried state as `Drain` |
| Paging.PageTurn | whatson/ingest.py:304-362 | one turn goes on only after a fetched page with entries and a next URL, and stops without error only on a page with no next URL or no entries |
| Paging.Crawl | whatson/ingest.py:304-362 | the first URL requested is the start URL, and at most one more URL is requested than there are responses |
| Paging.CrawlLinks | whatson/ingest.py:357-362 | every page but the last was fetched, had entries, and gave the next URL requested |
| Paging.CrawlEnds | whatson/ingest.py:357-362 | a fetch that ends without error ended on a fetched page with no next page or no entries |
| Paging.CrawlCounted | whatson/ingest.py:600-614 | with a page counter, the k-th URL is the counter's k-th URL, and a clean end is an empty page |
| Paging.CrawlOnePage | whatson/ingest.py:147-153 | a fetcher without a next page requests one URL and yields its entry loop |
| Paging.CrawlYields | whatson/ingest.py:304-362 | a property every step's show has holds for every show of every page |
| Paging.CrawlTurn | whatson/ingest.py:357-362 | the fetch is this page's turn followed by the rest of the pages |
| Paging.Visit | whatson/ingest.py:305-356 | one turn of the loop, imperatively: fetch, check, run the entries, pick the next URL |
| Paging.Fetch | whatson/ingest.py:299-362 | the imperative page loop requests the same URLs and yields the same shows and exception as `Crawl` |
| Venues.AlbanyEntry | whatson/ingest.py:153-190 | loose strings and entries without a date element are skipped; otherwise the span is `AlbanyDates` of the lowered date and the title, image and link are the stripped title and the root-joined paths |
| Venues.BelgradeEntry | whatson/ingest.py:213-289 | a panel sets the month and year (a bad panel raises), and elements that are not productions are skipped. A production before any panel is an `AssertionError`. Otherwise the span is `BelgradeDates` in the panel year, so the start is in that year and not after the end |
| Venues.SymphonyNext | whatson/ingest.py:358-362 | a next URL exactly when a next link exists without the "disabled" class, and then its `href` |
| Venues.SymphonyScan | whatson/ingest.py:308-310 | no container is an `AttributeError`; more than 16 entries is an `AssertionError` |
| Venues.SymphonyEntry | whatson/ingest.py:310-355 | no entry is skipped. A missing element raises. The image is the first word of `data-srcset`, and an empty one is an `IndexError`. The title is title-cased and the span is `SymphonyDates` |
| Venues.HippodromeScan | whatson/ingest.py:379-381 | no container is an `AttributeError`; otherwise the entries and the next link |
| Venues.HippodromeEntry | whatson/ingest.py:381-430 | no entry is skipped; a missing link or image gives "", an image without `src` is a `KeyError`; the span is `HippodromeDates`, and its errors end the fetch |
| Venues.Cards | whatson/ingest.py:474-478 | each entry is paired with the page's image mapping |
| Venues.ResortsWorldScan | whatson/ingest.py:466-472 | no container or no events is the deliberate `ValueError`; there is no next page |
| Venues.Thumbnail | whatson/ingest.py:478 | the image is the mapping's entry for the lowered title, and a missing key is a `KeyError` |
| Venues.ResortsWorldEntry | whatson/ingest.py:474-508 | no entry is skipped; the image comes from the mapping; the span is `ResortsWorldDates` |
| Venues.ArenaScan | whatson/ingest.py:538-545 | no content area or no events is the deliberate `ValueError`; no events container is an `AttributeError` |
| Venues.ArenaEntry | whatson/ingest.py:547-589 | no entry is skipped. The span is `ArenaDates` with the carried `start_date`, and the yielded start is carried to the next entry |
| Venues.ArtrixScan | whatson/ingest.py:610-614 | an empty page ends the loop; otherwise the next URL is page k + 1 |
| Venues.ArtrixEntry | whatson/ingest.py:616-662 | no entry is skipped; the span is `ArtrixDates`; links and images are root-joined |
| Venues.AlexEntry | whatson/ingest.py:680-719 | no entry is skipped. The span is `AlexDates` with the carried `start_date`, which the yielded start replaces |
| Venues.WarwickScan | whatson/ingest.py:772-777 | an empty page ends the loop; otherwise the next URL is ten entries on |
| Venues.WarwickEntry | whatson/ingest.py:779-830 | an entry is skipped exactly when its fixed date text raises `ValueError`. `UnboundLocalError` is not caught. A yielded start is carried to the next entry |
| VenueFacts.SinglePage | whatson/ingest.py:147-153 | the Albany, Belgrade, ResortsWorld, Arena and Alex fetchers request their listing URL once |
| VenueFacts.AlbanySkipsUndated | whatson/ingest.py:153-160 | the Albany yields the same as over its entries with a date element alone |
| VenueFacts.BelgradeShowsInOrder | whatson/ingest.py:277-281 | every Belgrade show starts no later than it ends |
| VenueFacts.BelgradeNeedsPanel | whatson/ingest.py:233-236 | a production before any month/year panel ends the fetch with `AssertionError` and nothing yielded |
| VenueFacts.SymphonyFollowsNext | whatson/ingest.py:357-362 | Symphony Hall follows a next link only when it lacks "disabled", and stops cleanly only when there is none or it is disabled |
| VenueFacts.HippodromeFollowsNext | whatson/ingest.py:432-436 | the Hippodrome follows the next link while there is one |
| VenueFacts.ArtrixPages | whatson/ingest.py:600-614 | the Artrix requests pages 1, 2, …, each before the last had events, and a clean end is an empty page |
| VenueFacts.WarwickPages | whatson/ingest.py:764-777 | the Warwick requests start=0, 10, 20, …, each before the last had events, and a clean end is an empty page |
| VenueFacts.WarwickBadDateAnyPrevious | whatson/ingest.py:791-830 | whether a Warwick date raises `ValueError` does not depend on the carried start |
| VenueFacts.WarwickSkipsUnreadable | whatson/ingest.py:828-830 | entries whose date raises `ValueError` make no difference to what the Warwick yields |
| VenueFacts.ArenaStartLeaks | whatson/ingest.py:564-568 | after a first show, a range with a parseable yearless left side is yielded with the first show's start |
| VenueFacts.ArenaFirstUnbound | whatson/ingest.py:564-568 | the same range as the first entry raises `UnboundLocalError` |
| Registry.MakeFetcher | whatson/ingest.py:123-137 | `ValidationError` for the first of url, root_url, name, active that is None, in that order; otherwise an instance with those attributes |
| Registry.RegisteredMake | whatson/ingest.py:117-137 | every defined fetcher class makes an active instance; the base class raises for its url |
| Registry.Uploads | whatson/ingest.py:883-884 | one upload per show, in order, under the fetcher's name |
| Registry.Ingest | whatson/ingest.py:876-884 | an exception that ends the ingestion comes from an active class that cannot be made or whose fetch raised; there are uploads only if some active class was made |
| Registry.IngestSkipsInactive | whatson/ingest.py:876-879 | classes marked inactive make no difference to the ingestion |
| Registry.IngestCompletes | whatson/ingest.py:876-884 | the ingestion ends without exception exactly when every active class is valid and its fetch raises nothing |
| Registry.IngestUploads | whatson/ingest.py:876-884 | every upload is a show some active class's fetch yielded, under that class's name |
| Registry.ClassSources | whatson/ingest.py:103-110 | the sources are the defined classes with their attributes, in a fixed order |
| Registry.UploadEach | whatson/ingest.py:883-884 | the imperative inner loop makes exactly the uploads `Uploads` describes |
| Registry.IngestAll | whatson/ingest.py:876-884 | the imperative loop of `main` makes the same uploads and ends with the same exception as `Ingest` |

## Left out

- Network and browser I/O (`_fetch_html_requests`, `_fetch_html_selenium`, the shared `DRIVER` and its race) are not modelled. The responses are a parameter.
- Database I/O (`upload`, `reset_database`, `UniqueViolation`) is left out. An upload is a value in a sequence, and database errors are not modelled.
- BeautifulSoup searches are left out. A page is given with each element already found or `None`, and `Tag` checks are a `Loose`/`Tag` choice.
- `json.loads(unescape(...))` is left out. The image mapping is given as a map from lowered title to URL.
- Symphony Hall's and the Alexandra's `NavigableString` children are left out. Every child of their containers is taken as an entry (for the Alexandra, `find` on a string child would raise `TypeError`).
- `load_config`, `argparse` and logging are left out. They do not affect what is fetched.
- The metaclass of `FetcherList` is replaced by a fixed sequence of the nine classes. The set's iteration order is unspecified in Python, so the order of `Registry.Registered` is one possible order.
- `fromisoformat` is modelled only for its date part. The time-of-day grammar is left out, and text after the date is accepted without being read.
- Strings are ASCII for case, word characters and digits. Case folding, `\w` and `\d` (which in Python also match non-ASCII letters and digits) are not modelled beyond ASCII.
- `CURRENT_YEAR` (today's year) is a parameter.
- Outside the Hippodrome's image, a missing `href` or `src` attribute of an entry (a `KeyError` in Python) is modelled as the same fatal fault as a missing element (`NoElement`). No fetcher catches either around those reads, so both end the generator; only the exception class differs.
- The `datetime` and `itemprop` attributes of Symphony Hall's `<time>` tags, and the `href` and `class` attributes of the Symphony Hall and Hippodrome next links, are taken to be present. A tag lacking one, which raises `KeyError` in Python, is not represented.
- Strptime.Parse: the fetchers test for substrings of the exception message ("does not match format", "day is out of range for month"), and the model tests the kind of failure instead. For unconverted data, Python's message repeats the leftover input, so input whose leftover text contains one of those phrases takes a different branch in Python than in the model (for the Warwick, "Thu 5 Dec 2019 does not match format" is retried with `CURRENT_YEAR` and skipped in Python, but leaves `start_date` untouched in the model).
- Strptime.Parse: its contract gives validity and the 1900 default. What it accepts is pinned down only for text in the form `strftime` writes (zero-padded days, any case of the names): `StrptimeFacts.ParseRendered` and the lemmas after it. There is no full inverse for arbitrary text.
- Normalise.KeepWords: the contract states which words are kept. Their order and repetitions follow from `Normalise.KeepWordsConcat` and `Normalise.KeepWordsAllKept`, not from the contract itself.
- Registry.MakeFetcher: the instance is a value. `self.fetchers` is not modelled, because it only aliases the class-level set.
