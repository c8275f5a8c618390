/** The part of `datetime.datetime.strptime(text, format).date()` that the
    venue parsers use, in the C/English locale.

    CPython turns the format into one regular expression, matched from the
    start of the text with case folding: a run of whitespace in the format
    becomes `\s+`, `%d` becomes `3[01]|[12]\d|0[1-9]|[1-9]| [1-9]`, `%m`
    becomes `1[0-2]|0[1-9]|[1-9]`, `%Y` takes exactly four digits and `%B`,
    `%b` and `%a` take one of the locale's names. In every format used here
    each `%d` and `%m` is followed by whitespace and no month or weekday name
    is a prefix of another, so backtracking never picks a different match than
    the first alternative that applies; the matcher below is therefore
    deterministic. After the match, text left over is an error; then the
    fields are turned into a date, with 1900 as the year when the format
    has none. */
module Strptime {
  import opened Wrappers
  import opened Text
  import opened Dates

  datatype Directive =
    | Day          // %d
    | MonthName    // %B
    | MonthAbbr    // %b
    | MonthNumber  // %m
    | Year         // %Y
    | Weekday      // %a
    | Space        // a blank in the format, i.e. \s+

  type Format = seq<Directive>

  /** "%d %B %Y" */
  const DayMonthYear: Format := [Day, Space, MonthName, Space, Year]
  /** "%d %B" */
  const DayMonth: Format := [Day, Space, MonthName]
  /** "%B %Y" */
  const MonthYear: Format := [MonthName, Space, Year]
  /** "%a %d %b %Y" */
  const WeekdayDayMonYear: Format := [Weekday, Space, Day, Space, MonthAbbr, Space, Year]
  /** "%d %m %Y" */
  const DayNumYear: Format := [Day, Space, MonthNumber, Space, Year]
  /** "%a %d %m %Y" */
  const WeekdayDayNumYear: Format := [Weekday, Space, Day, Space, MonthNumber, Space, Year]

  /** The names `%B`, `%b` and `%a` accept, in lower case as CPython's
      `LocaleTime` keeps them; the matcher compares case-insensitively. */
  datatype Locale = Locale(monthNames: seq<string>, monthAbbrs: seq<string>, weekdayAbbrs: seq<string>)

  const MonthNames: seq<string> :=
    ["january", "february", "march", "april", "may", "june", "july",
     "august", "september", "october", "november", "december"]
  const MonthAbbrs: seq<string> :=
    ["jan", "feb", "mar", "apr", "may", "jun", "jul", "aug", "sep", "oct", "nov", "dec"]
  const WeekdayAbbrs: seq<string> := ["mon", "tue", "wed", "thu", "fri", "sat", "sun"]

  /** The C locale the venue parsers run in. */
  const English := Locale(MonthNames, MonthAbbrs, WeekdayAbbrs)

  /** The values a match has captured so far. */
  datatype Fields = Fields(year: Option<int>, month: Option<int>, day: Option<int>, weekday: Option<int>)

  const NoFields := Fields(None, None, None, None)

  /** The name list a name directive draws from. */
  function NamesOf(d: Directive, loc: Locale): seq<string>
  {
    match d
    case MonthName => loc.monthNames
    case MonthAbbr => loc.monthAbbrs
    case _ => loc.weekdayAbbrs
  }

  predicate IsNameDirective(d: Directive)
  {
    d == MonthName || d == MonthAbbr || d == Weekday
  }

  /** A field read from the text: its value and the position after it. */
  datatype Token = NoToken | Token(value: int, end: nat)

  /** The first name of `names[k..]` that the text shows at `i`, ignoring case:
      its index in `names` and the position after it. */
  function MatchName(names: seq<string>, s: string, i: nat, k: nat): (r: Token)
    requires i <= |s|
    ensures r.Token? ==> k <= r.value < |names|
    ensures r.Token? ==> i + |names[r.value]| == r.end <= |s|
    ensures r.Token? ==> Lower(s[i..r.end]) == names[r.value]
    decreases |names| - k
  {
    if k >= |names| then NoToken
    else if i + |names[k]| <= |s| && Lower(s[i..i + |names[k]|]) == names[k] then Token(k, i + |names[k]|)
    else MatchName(names, s, i, k + 1)
  }

  predicate IsDayPair(a: char, b: char)
  {
    (a == '3' && (b == '0' || b == '1')) || ((a == '1' || a == '2') && IsDigit(b)) || (a == '0' && '1' <= b <= '9')
  }

  predicate IsMonthPair(a: char, b: char)
  {
    (a == '1' && '0' <= b <= '2') || (a == '0' && '1' <= b <= '9')
  }

  predicate IsNonZeroDigit(c: char) { '1' <= c <= '9' }

  /** The value of a two-digit field whose first digit is 0 to 3. */
  function PairValue(a: char, b: char): (n: int)
    requires '0' <= a <= '3' && IsDigit(b)
    ensures n == 10 * DigitValue(a) + DigitValue(b)
  {
    (if a == '3' then 30 else if a == '2' then 20 else if a == '1' then 10 else 0) + DigitValue(b)
  }

  /** `%d`: one or two digits, or a blank and one digit. */
  function MatchDay(s: string, i: nat): (r: Token)
    requires i <= |s|
    ensures r.Token? ==> 1 <= r.value <= 31 && i < r.end <= |s| && r.end <= i + 2
  {
    if i + 1 < |s| && IsDayPair(s[i], s[i + 1]) then Token(PairValue(s[i], s[i + 1]), i + 2)
    else if i < |s| && IsNonZeroDigit(s[i]) then Token(DigitValue(s[i]), i + 1)
    else if i + 1 < |s| && s[i] == ' ' && IsNonZeroDigit(s[i + 1]) then Token(DigitValue(s[i + 1]), i + 2)
    else NoToken
  }

  /** `%m`: one or two digits. */
  function MatchMonthNumber(s: string, i: nat): (r: Token)
    requires i <= |s|
    ensures r.Token? ==> 1 <= r.value <= 12 && i < r.end <= |s| && r.end <= i + 2
  {
    if i + 1 < |s| && IsMonthPair(s[i], s[i + 1]) then Token(PairValue(s[i], s[i + 1]), i + 2)
    else if i < |s| && IsNonZeroDigit(s[i]) then Token(DigitValue(s[i]), i + 1)
    else NoToken
  }

  predicate AllDigits(s: string)
  {
    forall k :: 0 <= k < |s| ==> IsDigit(s[k])
  }

  /** `%Y`: exactly four digits. */
  function MatchYear(s: string, i: nat): (r: Token)
    requires i <= |s|
    ensures r.Token? <==> i + 4 <= |s| && AllDigits(s[i..i + 4])
    ensures r.Token? ==> r.end == i + 4 && r.value == DigitsValue(s[i..i + 4])
  {
    if i + 4 <= |s| && AllDigits(s[i..i + 4]) then Token(DigitsValue(s[i..i + 4]), i + 4) else NoToken
  }

  /** End of the whitespace run starting at `i`. */
  function SpaceEnd(s: string, i: nat): (e: nat)
    requires i <= |s|
    ensures i <= e <= |s|
    ensures e == |s| || !IsSpace(s[e])
    decreases |s| - i
  {
    if i < |s| && IsSpace(s[i]) then SpaceEnd(s, i + 1) else i
  }

  /** What matching has produced so far: the fields and the position reached. */
  datatype Scan = NoScan | Scanned(fields: Fields, end: nat)

  /** One directive at position `i`. A blank is `\s+`: at least one
      whitespace character, and as many as there are. */
  function MatchOne(d: Directive, loc: Locale, s: string, i: nat, f: Fields): (r: Scan)
    requires i <= |s|
    ensures r.Scanned? ==> i <= r.end <= |s|
    ensures r.Scanned? && d != Year ==> r.fields.year == f.year
  {
    match d
    case Space =>
      if i < |s| && IsSpace(s[i]) then Scanned(f, SpaceEnd(s, i)) else NoScan
    case Day =>
      var t := MatchDay(s, i);
      if t.Token? then Scanned(f.(day := Some(t.value)), t.end) else NoScan
    case MonthNumber =>
      var t := MatchMonthNumber(s, i);
      if t.Token? then Scanned(f.(month := Some(t.value)), t.end) else NoScan
    case Year =>
      var t := MatchYear(s, i);
      if t.Token? then Scanned(f.(year := Some(t.value)), t.end) else NoScan
    case MonthName =>
      var t := MatchName(loc.monthNames, s, i, 0);
      if t.Token? then Scanned(f.(month := Some(t.value + 1)), t.end) else NoScan
    case MonthAbbr =>
      var t := MatchName(loc.monthAbbrs, s, i, 0);
      if t.Token? then Scanned(f.(month := Some(t.value + 1)), t.end) else NoScan
    case Weekday =>
      var t := MatchName(loc.weekdayAbbrs, s, i, 0);
      if t.Token? then Scanned(f.(weekday := Some(t.value)), t.end) else NoScan
  }

  /** The whole format, directive by directive, from position `i`. */
  function MatchFrom(fmt: Format, loc: Locale, s: string, i: nat, f: Fields): (r: Scan)
    requires i <= |s|
    ensures r.Scanned? ==> i <= r.end <= |s|
    ensures r.Scanned? && Year !in fmt ==> r.fields.year == f.year
    decreases |fmt|
  {
    if fmt == [] then Scanned(f, i)
    else
      var r := MatchOne(fmt[0], loc, s, i, f);
      if r.Scanned? then MatchFrom(fmt[1..], loc, s, r.end, r.fields) else NoScan
  }

  /** The date the captured fields stand for; absent fields default to
      year 1900, month 1 and day 1. */
  function Resolve(f: Fields): (r: DateResult)
    ensures r.Ok? ==> IsValid(r.date)
    ensures r.Fail? ==> r.why in {YearOutOfRange, MonthOutOfRange, DayOutOfRange}
  {
    MakeDate(f.year.GetOr(1900), f.month.GetOr(1), f.day.GetOr(1))
  }

  /** `datetime.datetime.strptime(s, fmt).date()`. A failure is reported as
      the kind of message CPython puts in its ValueError. */
  function Parse(s: string, fmt: Format): (r: DateResult)
    ensures r.Ok? ==> IsValid(r.date)
    ensures r.Fail? ==> r.why != BadIsoFormat
    ensures Year !in fmt && r.Ok? ==> r.date.year == 1900
  {
    var r := MatchFrom(fmt, English, s, 0, NoFields);
    if r.NoScan? then Fail(NoMatch)
    else if r.end < |s| then Fail(Trailing)
    else Resolve(r.fields)
  }
}
