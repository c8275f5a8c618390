/** What the strptime model promises: it reads back what `strftime` writes,
    it ignores letter case, a missing trailing field is a format mismatch,
    and a year appended to the text is the year of the result. The
    matching lemmas hold for any locale whose names are lower case and
    differ in their first three letters; the English tables are one. */
module StrptimeFacts {
  import opened Wrappers
  import opened Text
  import opened Dates
  import opened Strptime

  /** Names that have no upper-case letter, start with a letter, are at least
      three long and differ in their first three letters. */
  ghost predicate GoodTable(names: seq<string>)
  {
    && (forall k :: 0 <= k < |names| ==>
          |names[k]| >= 3 && NoUpper(names[k]) && IsLower(names[k][0]))
    && (forall a, b :: 0 <= a < b < |names| && |names[a]| >= 3 && |names[b]| >= 3 ==>
          names[a][..3] != names[b][..3])
  }

  /** The locale has a name for every month and weekday. */
  predicate Sized(loc: Locale)
  {
    |loc.monthNames| == 12 && |loc.monthAbbrs| == 12 && |loc.weekdayAbbrs| == 7
  }

  ghost predicate GoodLocale(loc: Locale)
  {
    Sized(loc) && GoodTable(loc.monthNames) && GoodTable(loc.monthAbbrs) && GoodTable(loc.weekdayAbbrs)
  }

  /** Index of a three-letter month abbreviation, -1 for anything else. */
  function MonthIndex(s: string): int
  {
    if s == "jan" then 0 else if s == "feb" then 1 else if s == "mar" then 2 else if s == "apr" then 3
    else if s == "may" then 4 else if s == "jun" then 5 else if s == "jul" then 6 else if s == "aug" then 7
    else if s == "sep" then 8 else if s == "oct" then 9 else if s == "nov" then 10 else if s == "dec" then 11
    else -1
  }

  function WeekdayIndex(s: string): int
  {
    if s == "mon" then 0 else if s == "tue" then 1 else if s == "wed" then 2 else if s == "thu" then 3
    else if s == "fri" then 4 else if s == "sat" then 5 else if s == "sun" then 6 else -1
  }

  /** A table is good when an index function recovers each position from
      the first three letters. */
  lemma IndexedTable(names: seq<string>, index: string -> int)
    requires forall k :: 0 <= k < |names| ==>
               |names[k]| >= 3 && NoUpper(names[k]) && IsLower(names[k][0]) && index(names[k][..3]) == k
    ensures GoodTable(names)
  {
  }

  lemma MonthNamesTable()
    ensures GoodTable(MonthNames)
  {
    MonthNamesLower();
    MonthNamePrefixes();
    MonthAbbrIndex();
    forall k | 0 <= k < 12
      ensures MonthIndex(MonthNames[k][..3]) == k
    {
      assert MonthNames[k][..3] == MonthAbbrs[k];
    }
    IndexedTable(MonthNames, MonthIndex);
  }

  lemma MonthNamesLower()
    ensures forall k :: 0 <= k < 12 ==> |MonthNames[k]| >= 3 && NoUpper(MonthNames[k]) && IsLower(MonthNames[k][0])
  {
    forall k | 0 <= k < 12
      ensures |MonthNames[k]| >= 3 && NoUpper(MonthNames[k]) && IsLower(MonthNames[k][0])
    {
      var w := MonthNames[k];
      if k < 6 {
        assert w in ["january", "february", "march", "april", "may", "june"];
      } else {
        assert w in ["july", "august", "september", "october", "november", "december"];
      }
    }
  }

  /** A month's name begins with its abbreviation. */
  lemma MonthNamePrefixes()
    ensures forall k :: 0 <= k < 12 ==> |MonthNames[k]| >= 3 && MonthNames[k][..3] == MonthAbbrs[k]
  {
    forall k | 0 <= k < 12
      ensures |MonthNames[k]| >= 3 && MonthNames[k][..3] == MonthAbbrs[k]
    {
      if k < 6 {
        if k == 0 {} else if k == 1 {} else if k == 2 {} else if k == 3 {} else if k == 4 {} else {}
      } else {
        if k == 6 {} else if k == 7 {} else if k == 8 {} else if k == 9 {} else if k == 10 {} else {}
      }
    }
  }

  lemma MonthAbbrIndex()
    ensures forall k :: 0 <= k < 12 ==> MonthIndex(MonthAbbrs[k]) == k
  {
    forall k | 0 <= k < 12
      ensures MonthIndex(MonthAbbrs[k]) == k
    {
      if k == 0 {} else if k == 1 {} else if k == 2 {} else if k == 3 {} else if k == 4 {} else if k == 5 {}
      else if k == 6 {} else if k == 7 {} else if k == 8 {} else if k == 9 {} else if k == 10 {} else {}
    }
  }

  /** Three lower-case letters. */
  lemma ThreeLower(s: string)
    requires |s| == 3 && IsLower(s[0]) && IsLower(s[1]) && IsLower(s[2])
    ensures NoUpper(s)
  {
  }

  lemma MonthAbbrsTable()
    ensures GoodTable(MonthAbbrs)
  {
    forall k | 0 <= k < 12
      ensures |MonthAbbrs[k]| >= 3 && NoUpper(MonthAbbrs[k]) && IsLower(MonthAbbrs[k][0])
    {
      ThreeLower(MonthAbbrs[k]);
    }
    MonthAbbrIndex();
    forall k | 0 <= k < 12
      ensures MonthIndex(MonthAbbrs[k][..3]) == k
    {
      assert MonthAbbrs[k][..3] == MonthAbbrs[k];
    }
    IndexedTable(MonthAbbrs, MonthIndex);
  }

  lemma WeekdayTable()
    ensures GoodTable(WeekdayAbbrs)
  {
    forall k | 0 <= k < 7
      ensures |WeekdayAbbrs[k]| >= 3 && NoUpper(WeekdayAbbrs[k]) && IsLower(WeekdayAbbrs[k][0])
      ensures WeekdayIndex(WeekdayAbbrs[k][..3]) == k
    {
      assert WeekdayAbbrs[k][..3] == WeekdayAbbrs[k];
      if k == 0 {} else if k == 1 {} else if k == 2 {} else if k == 3 {} else if k == 4 {} else if k == 5 {} else {}
    }
    IndexedTable(WeekdayAbbrs, WeekdayIndex);
  }

  /** The English names are lower case and no two share their first three
      letters, so no name is a prefix of another in the same table. */
  lemma EnglishIsGood()
    ensures GoodLocale(English)
  {
    MonthNamesTable();
    MonthAbbrsTable();
    WeekdayTable();
  }

  /** In a good table only the name actually written at `i` matches there. */
  lemma {:induction false} MatchNameFinds(names: seq<string>, s: string, i: nat, k: nat, m: nat)
    requires GoodTable(names)
    requires k <= m < |names|
    requires i + |names[m]| <= |s| && s[i..i + |names[m]|] == names[m]
    ensures MatchName(names, s, i, k) == Token(m, i + |names[m]|)
    decreases m - k
  {
    if k < m {
      MatchNameFinds(names, s, i, k + 1, m);
    } else {
      LowerNoUpper(names[m]);
    }
  }

  function Pad2(n: nat): (r: string)
    requires n < 100
    ensures |r| == 2 && IsDigit(r[0]) && IsDigit(r[1])
  {
    [DigitChar(n / 10), DigitChar(n % 10)]
  }

  /** What the directives need to write a date: a four-digit year, a month
      that names an entry of the tables, and a day of at most two digits. */
  predicate Printable(d: Date)
  {
    1000 <= d.year <= 9999 && 1 <= d.month <= 12 && 1 <= d.day <= 31
  }

  /** A valid date that `%Y` writes in four digits. */
  predicate Writable(d: Date)
  {
    IsValid(d) && Printable(d)
  }

  /** What `strftime` writes for one directive, with `w` the weekday number
      (Monday is 0) and the names of the locale. */
  function Piece(dir: Directive, loc: Locale, d: Date, w: nat): (r: string)
    requires Printable(d) && w < 7
    requires Sized(loc)
  {
    match dir
    case Day => Pad2(d.day)
    case MonthNumber => Pad2(d.month)
    case Year => NatStr(d.year)
    case MonthName => loc.monthNames[d.month - 1]
    case MonthAbbr => loc.monthAbbrs[d.month - 1]
    case Weekday => loc.weekdayAbbrs[w]
    case Space => " "
  }

  /** `d.strftime(fmt)`. */
  function Render(fmt: Format, loc: Locale, d: Date, w: nat): string
    requires Printable(d) && w < 7
    requires Sized(loc)
  {
    if fmt == [] then [] else Piece(fmt[0], loc, d, w) + Render(fmt[1..], loc, d, w)
  }

  /** The fields a match of `Piece(dir, loc, d, w)` captures. */
  function Capture(dir: Directive, d: Date, w: nat, f: Fields): Fields
  {
    match dir
    case Day => f.(day := Some(d.day))
    case MonthNumber => f.(month := Some(d.month))
    case Year => f.(year := Some(d.year))
    case MonthName => f.(month := Some(d.month))
    case MonthAbbr => f.(month := Some(d.month))
    case Weekday => f.(weekday := Some(w))
    case Space => f
  }

  function CaptureAll(fmt: Format, d: Date, w: nat, f: Fields): Fields
  {
    if fmt == [] then f else CaptureAll(fmt[1..], d, w, Capture(fmt[0], d, w, f))
  }

  /** No two blanks in a row: a single `\s+` stands for each run. */
  ghost predicate WellSpaced(fmt: Format)
    decreases |fmt|
  {
    |fmt| < 2 || ((fmt[0] != Space || fmt[1] != Space) && WellSpaced(fmt[1..]))
  }

  predicate HasMonth(fmt: Format)
  {
    MonthName in fmt || MonthAbbr in fmt || MonthNumber in fmt
  }

  lemma YearPiece(d: Date)
    requires Printable(d)
    ensures |NatStr(d.year)| == 4 && DigitsValue(NatStr(d.year)) == d.year
  {
    NatStrFourDigits(d.year);
    NatStrValue(d.year);
  }

  lemma PieceStart(dir: Directive, loc: Locale, d: Date, w: nat)
    requires Printable(d) && w < 7 && GoodLocale(loc) && dir != Space
    ensures Piece(dir, loc, d, w) != [] && !IsSpace(Piece(dir, loc, d, w)[0])
  {
    if dir == Year {
      YearPiece(d);
    }
  }

  lemma RenderStart(fmt: Format, loc: Locale, d: Date, w: nat)
    requires Printable(d) && w < 7 && GoodLocale(loc) && fmt != [] && fmt[0] != Space
    ensures Render(fmt, loc, d, w) != [] && !IsSpace(Render(fmt, loc, d, w)[0])
  {
    PieceStart(fmt[0], loc, d, w);
    assert Render(fmt, loc, d, w) == Piece(fmt[0], loc, d, w) + Render(fmt[1..], loc, d, w);
  }

  lemma DayPieceMatches(n: int, s: string, i: nat)
    requires 1 <= n <= 31
    requires i + 2 <= |s| && s[i..i + 2] == Pad2(n)
    ensures MatchDay(s, i) == Token(n, i + 2)
  {
    assert s[i] == DigitChar(n / 10) && s[i + 1] == DigitChar(n % 10);
  }

  lemma MonthPieceMatches(n: int, s: string, i: nat)
    requires 1 <= n <= 12
    requires i + 2 <= |s| && s[i..i + 2] == Pad2(n)
    ensures MatchMonthNumber(s, i) == Token(n, i + 2)
  {
    assert s[i] == DigitChar(n / 10) && s[i + 1] == DigitChar(n % 10);
  }

  lemma YearPieceMatches(d: Date, s: string, i: nat)
    requires Printable(d)
    requires i + 4 <= |s| && s[i..i + 4] == NatStr(d.year)
    ensures MatchYear(s, i) == Token(d.year, i + 4)
  {
    YearPiece(d);
  }

  /** One directive reads back the piece written for it. */
  lemma PieceMatches(dir: Directive, loc: Locale, d: Date, w: nat, s: string, i: nat, f: Fields)
    requires Printable(d) && w < 7 && GoodLocale(loc)
    requires TextAt(s, i, Piece(dir, loc, d, w))
    requires dir == Space ==> Boundary(s, i + 1)
    ensures MatchOne(dir, loc, s, i, f) == Scanned(Capture(dir, d, w, f), i + |Piece(dir, loc, d, w)|)
  {
    match dir
    case Space => SpaceReads(loc, s, i, f);
    case Day => DayReads(loc, d.day, s, i, f);
    case MonthNumber => MonthNumberReads(loc, d.month, s, i, f);
    case Year =>
      YearPiece(d);
      YearReads(loc, d, s, i, f);
    case MonthName => NameReads(MonthName, loc, d.month - 1, s, i, f);
    case MonthAbbr => NameReads(MonthAbbr, loc, d.month - 1, s, i, f);
    case Weekday => NameReads(Weekday, loc, w, s, i, f);
  }

  lemma SpaceReads(loc: Locale, s: string, i: nat, f: Fields)
    requires TextAt(s, i, " ") && Boundary(s, i + 1)
    ensures MatchOne(Space, loc, s, i, f) == Scanned(f, i + 1)
  {
    assert s[i] == ' ';
    assert SpaceEnd(s, i + 1) == i + 1;
  }

  lemma DayReads(loc: Locale, n: int, s: string, i: nat, f: Fields)
    requires 1 <= n <= 31 && TextAt(s, i, Pad2(n))
    ensures MatchOne(Day, loc, s, i, f) == Scanned(f.(day := Some(n)), i + 2)
  {
    DayPieceMatches(n, s, i);
  }

  lemma MonthNumberReads(loc: Locale, n: int, s: string, i: nat, f: Fields)
    requires 1 <= n <= 12 && TextAt(s, i, Pad2(n))
    ensures MatchOne(MonthNumber, loc, s, i, f) == Scanned(f.(month := Some(n)), i + 2)
  {
    MonthPieceMatches(n, s, i);
  }

  lemma YearReads(loc: Locale, d: Date, s: string, i: nat, f: Fields)
    requires Printable(d) && TextAt(s, i, NatStr(d.year))
    ensures MatchOne(Year, loc, s, i, f) == Scanned(f.(year := Some(d.year)), i + 4)
  {
    YearPiece(d);
    YearPieceMatches(d, s, i);
  }

  /** A name directive reads back the `k`-th name of its table. */
  lemma NameReads(dir: Directive, loc: Locale, k: nat, s: string, i: nat, f: Fields)
    requires IsNameDirective(dir) && GoodLocale(loc) && k < |NamesOf(dir, loc)|
    requires TextAt(s, i, NamesOf(dir, loc)[k])
    ensures MatchOne(dir, loc, s, i, f) ==
              Scanned(if dir == Weekday then f.(weekday := Some(k)) else f.(month := Some(k + 1)),
                      i + |NamesOf(dir, loc)[k]|)
  {
    var names := NamesOf(dir, loc);
    assert GoodTable(names);
    MatchNameFinds(names, s, i, 0, k);
    var t := MatchName(names, s, i, 0);
    if dir == MonthName {
      assert MatchOne(dir, loc, s, i, f) == Scanned(f.(month := Some(t.value + 1)), t.end);
    } else if dir == MonthAbbr {
      assert MatchOne(dir, loc, s, i, f) == Scanned(f.(month := Some(t.value + 1)), t.end);
    } else {
      assert MatchOne(dir, loc, s, i, f) == Scanned(f.(weekday := Some(t.value)), t.end);
    }
  }

  /** A format whose first directive matches goes on from where it ended. */
  lemma MatchFromStep(fmt: Format, loc: Locale, s: string, i: nat, f: Fields, g: Fields, j: nat)
    requires i <= |s| && fmt != [] && MatchOne(fmt[0], loc, s, i, f) == Scanned(g, j)
    ensures j <= |s| && MatchFrom(fmt, loc, s, i, f) == MatchFrom(fmt[1..], loc, s, j, g)
  {
  }

  /** `t` is written in `s` at `i`. */
  ghost predicate TextAt(s: string, i: nat, t: string)
  {
    i + |t| <= |s| && s[i..i + |t|] == t
  }

  /** No whitespace at `j`: a `\s+` that ends just before stops there. */
  ghost predicate Boundary(s: string, j: nat)
  {
    j == |s| || (j < |s| && !IsSpace(s[j]))
  }

  /** A rendered format is its first piece followed by the rest. */
  lemma RenderSplit(fmt: Format, loc: Locale, d: Date, w: nat, s: string, i: nat)
    requires Printable(d) && w < 7 && Sized(loc) && fmt != []
    requires TextAt(s, i, Render(fmt, loc, d, w))
    ensures TextAt(s, i, Piece(fmt[0], loc, d, w))
    ensures TextAt(s, i + |Piece(fmt[0], loc, d, w)|, Render(fmt[1..], loc, d, w))
    ensures |Render(fmt, loc, d, w)| == |Piece(fmt[0], loc, d, w)| + |Render(fmt[1..], loc, d, w)|
  {
    var p := Piece(fmt[0], loc, d, w);
    var r := Render(fmt[1..], loc, d, w);
    assert Render(fmt, loc, d, w) == p + r;
    TextAtSplit(s, i, p, r);
  }

  /** Two texts written one after the other are each written in place. */
  lemma TextAtSplit(s: string, i: nat, p: string, r: string)
    requires TextAt(s, i, p + r)
    ensures TextAt(s, i, p) && TextAt(s, i + |p|, r)
  {
    SplitSlice(s, i, p, r);
  }

  /** A blank written for a well-spaced format ends where the next piece
      starts, or where the text written for a trailing blank ends. */
  lemma SpaceEndsAtPiece(fmt: Format, loc: Locale, d: Date, w: nat, s: string, i: nat)
    requires Written(fmt, loc, d, w, s, i) && fmt != [] && fmt[0] == Space
    ensures Boundary(s, i + 1)
  {
    var r := Render(fmt[1..], loc, d, w);
    assert Render(fmt, loc, d, w) == " " + r;
    if fmt[1..] != [] {
      assert fmt[1..][0] == fmt[1] != Space;
      RenderStart(fmt[1..], loc, d, w);
      assert s[i + 1] == (" " + r)[1];
    } else {
      assert fmt[|fmt| - 1] == Space;
    }
  }

  /** The rest of a well-spaced format is well spaced and ends where the
      whole did. */
  lemma RestSpaced(fmt: Format)
    requires WellSpaced(fmt) && fmt != []
    ensures WellSpaced(fmt[1..])
    ensures fmt[1..] != [] ==> fmt[1..][|fmt[1..]| - 1] == fmt[|fmt| - 1]
  {
  }

  /** `s` shows at `i` what a well-spaced format writes for `d`, and a
      trailing blank is not followed by more whitespace. */
  ghost predicate Written(fmt: Format, loc: Locale, d: Date, w: nat, s: string, i: nat)
  {
    && Printable(d) && w < 7 && GoodLocale(loc) && WellSpaced(fmt)
    && TextAt(s, i, Render(fmt, loc, d, w))
    && (fmt != [] && fmt[|fmt| - 1] == Space ==> Boundary(s, i + |Render(fmt, loc, d, w)|))
  }

  /** One step of reading back a rendered format: the first directive reads
      its piece and leaves the rest of the format at the rest of the text. */
  lemma FirstStep(fmt: Format, loc: Locale, d: Date, w: nat, s: string, i: nat, f: Fields, j: nat)
    returns (g: Fields)
    requires Printable(d) && w < 7 && GoodLocale(loc) && fmt != []
    requires TextAt(s, i, Piece(fmt[0], loc, d, w)) && j == i + |Piece(fmt[0], loc, d, w)|
    requires fmt[0] == Space ==> Boundary(s, i + 1)
    ensures MatchFrom(fmt, loc, s, i, f) == MatchFrom(fmt[1..], loc, s, j, g)
    ensures CaptureAll(fmt, d, w, f) == CaptureAll(fmt[1..], d, w, g)
  {
    g := Capture(fmt[0], d, w, f);
    PieceMatches(fmt[0], loc, d, w, s, i, f);
    MatchFromStep(fmt, loc, s, i, f, g, j);
  }

  /** The first piece is in place, and a blank written for it is followed
      by something that is not whitespace. */
  lemma PieceReady(fmt: Format, loc: Locale, d: Date, w: nat, s: string, i: nat)
    requires Written(fmt, loc, d, w, s, i) && fmt != []
    ensures Printable(d) && w < 7 && GoodLocale(loc)
    ensures TextAt(s, i, Piece(fmt[0], loc, d, w))
    ensures fmt[0] == Space ==> Boundary(s, i + 1)
  {
    var _ := WrittenRest(fmt, loc, d, w, s, i);
    if fmt[0] == Space {
      SpaceEndsAtPiece(fmt, loc, d, w, s, i);
    }
  }

  /** What is written after the first piece is the rest of the format. */
  lemma WrittenRest(fmt: Format, loc: Locale, d: Date, w: nat, s: string, i: nat) returns (j: nat)
    requires Written(fmt, loc, d, w, s, i) && fmt != []
    ensures j == i + |Piece(fmt[0], loc, d, w)|
    ensures TextAt(s, i, Piece(fmt[0], loc, d, w))
    ensures Written(fmt[1..], loc, d, w, s, j)
    ensures i + |Render(fmt, loc, d, w)| == j + |Render(fmt[1..], loc, d, w)|
  {
    j := i + |Piece(fmt[0], loc, d, w)|;
    RestSpaced(fmt);
    RenderSplit(fmt, loc, d, w, s, i);
  }

  /** A whole well-spaced format reads back what it wrote, wherever the text
      sits, as long as a trailing blank is not followed by more whitespace. */
  lemma {:induction false} RenderMatches(fmt: Format, loc: Locale, d: Date, w: nat, s: string, i: nat, f: Fields)
    requires Written(fmt, loc, d, w, s, i)
    ensures MatchFrom(fmt, loc, s, i, f) == Scanned(CaptureAll(fmt, d, w, f), i + |Render(fmt, loc, d, w)|)
    decreases |fmt|
  {
    if fmt == [] {
      assert Render(fmt, loc, d, w) == [];
    } else {
      var j, g := ReadFirst(fmt, loc, d, w, s, i, f);
      RenderMatches(fmt[1..], loc, d, w, s, j, g);
    }
  }

  /** Reading back the first piece: once the rest of the format reads back
      the rest of the text, the whole format reads back the whole text. */
  lemma ReadFirst(fmt: Format, loc: Locale, d: Date, w: nat, s: string, i: nat, f: Fields)
    returns (j: nat, g: Fields)
    requires Written(fmt, loc, d, w, s, i) && fmt != []
    ensures Written(fmt[1..], loc, d, w, s, j)
    ensures MatchFrom(fmt[1..], loc, s, j, g) == Scanned(CaptureAll(fmt[1..], d, w, g), j + |Render(fmt[1..], loc, d, w)|)
            ==> MatchFrom(fmt, loc, s, i, f) == Scanned(CaptureAll(fmt, d, w, f), i + |Render(fmt, loc, d, w)|)
  {
    j := WrittenRest(fmt, loc, d, w, s, i);
    PieceReady(fmt, loc, d, w, s, i);
    g := FirstStep(fmt, loc, d, w, s, i, f, j);
  }

  lemma {:induction false} CaptureAllFields(fmt: Format, d: Date, w: nat, f: Fields)
    ensures CaptureAll(fmt, d, w, f).year == if Year in fmt then Some(d.year) else f.year
    ensures CaptureAll(fmt, d, w, f).month == if HasMonth(fmt) then Some(d.month) else f.month
    ensures CaptureAll(fmt, d, w, f).day == if Day in fmt then Some(d.day) else f.day
  {
    if fmt != [] {
      CaptureAllFields(fmt[1..], d, w, Capture(fmt[0], d, w, f));
      assert fmt == [fmt[0]] + fmt[1..];
      assert forall x :: x in fmt <==> x == fmt[0] || x in fmt[1..];
    }
  }

  /** Round trip: parsing what `strftime` wrote gives the date back, with the
      defaults (year 1900, month 1, day 1) for fields the format lacks, and
      the weekday written is never checked. */
  lemma ParseRendered(fmt: Format, d: Date, w: nat)
    requires Writable(d) && w < 7 && WellSpaced(fmt)
    requires fmt != [] ==> fmt[|fmt| - 1] != Space
    ensures Parse(Render(fmt, English, d, w), fmt) ==
              MakeDate(if Year in fmt then d.year else 1900,
                       if HasMonth(fmt) then d.month else 1,
                       if Day in fmt then d.day else 1)
  {
    var s := Render(fmt, English, d, w);
    assert s[0..|s|] == s;
    EnglishIsGood();
    RenderMatches(fmt, English, d, w, s, 0, NoFields);
    CaptureAllFields(fmt, d, w, NoFields);
  }

  /** Anything left after a complete match is "unconverted data". */
  lemma ParseRenderedTrailing(fmt: Format, d: Date, w: nat, rest: string)
    requires Printable(d) && w < 7 && WellSpaced(fmt)
    requires fmt != [] ==> fmt[|fmt| - 1] != Space
    requires rest != []
    ensures Parse(Render(fmt, English, d, w) + rest, fmt) == Fail(Trailing)
  {
    RenderedPrefixScans(fmt, d, w, rest);
  }

  /** A format reads what it writes at the head of a longer text. */
  lemma RenderedPrefixScans(fmt: Format, d: Date, w: nat, rest: string)
    requires Printable(d) && w < 7 && WellSpaced(fmt)
    requires fmt != [] ==> fmt[|fmt| - 1] != Space
    ensures MatchFrom(fmt, English, Render(fmt, English, d, w) + rest, 0, NoFields) ==
              Scanned(CaptureAll(fmt, d, w, NoFields), |Render(fmt, English, d, w)|)
  {
    var r := Render(fmt, English, d, w);
    PrefixOfConcat(r, rest);
    EnglishIsGood();
    RenderMatches(fmt, English, d, w, r + rest, 0, NoFields);
  }

  /** The formats with day, month and year that the venue parsers use. */
  predicate FullFormat(fmt: Format)
  {
    fmt == DayMonthYear || fmt == WeekdayDayMonYear || fmt == DayNumYear || fmt == WeekdayDayNumYear
  }

  /** Blanks that all sit at positions of one parity are never adjacent. */
  lemma {:induction false} ParitySpaced(fmt: Format, p: nat)
    requires forall k :: 0 <= k < |fmt| && fmt[k] == Space ==> (k + p) % 2 == 1
    ensures WellSpaced(fmt)
    decreases |fmt|
  {
    if |fmt| >= 2 {
      assert fmt[0] != Space || fmt[1] != Space by {
        if fmt[0] == Space { assert p % 2 == 1; }
      }
      forall k | 0 <= k < |fmt[1..]| && fmt[1..][k] == Space ensures (k + p + 1) % 2 == 1 {
        assert fmt[k + 1] == Space;
      }
      ParitySpaced(fmt[1..], p + 1);
    }
  }

  /** Directives separated by single blanks, as in every full format. */
  lemma OddSpaced(fmt: Format)
    requires |fmt| % 2 == 1
    requires forall k :: 0 <= k < |fmt| ==> (fmt[k] == Space <==> k % 2 == 1)
    ensures WellSpaced(fmt)
  {
    ParitySpaced(fmt, 0);
  }

  lemma FullFormatsSpaced()
    ensures WellSpaced(DayMonthYear) && WellSpaced(WeekdayDayMonYear)
    ensures WellSpaced(DayNumYear) && WellSpaced(WeekdayDayNumYear)
  {
    NamedFormatsSpaced();
    NumericFormatsSpaced();
  }

  lemma NamedFormatsSpaced()
    ensures WellSpaced(DayMonthYear) && WellSpaced(WeekdayDayMonYear)
  {
    OddSpaced(DayMonthYear);
    OddSpaced(WeekdayDayMonYear);
  }

  lemma NumericFormatsSpaced()
    ensures WellSpaced(DayNumYear) && WellSpaced(WeekdayDayNumYear)
  {
    OddSpaced(DayNumYear);
    OddSpaced(WeekdayDayNumYear);
  }

  lemma FullFormatShape(fmt: Format)
    requires FullFormat(fmt)
    ensures WellSpaced(fmt) && fmt[|fmt| - 1] == Year
    ensures Year in fmt && Day in fmt && HasMonth(fmt)
  {
    FullFormatsSpaced();
    FullFormatFields(fmt);
  }

  lemma FullFormatFields(fmt: Format)
    requires FullFormat(fmt)
    ensures fmt[|fmt| - 1] == Year
    ensures Year in fmt && Day in fmt && HasMonth(fmt)
  {
    if fmt == DayMonthYear {
      assert fmt[4] == Year && fmt[2] == MonthName && fmt[0] == Day;
    } else if fmt == WeekdayDayMonYear {
      assert fmt[6] == Year && fmt[4] == MonthAbbr && fmt[2] == Day;
    } else if fmt == DayNumYear {
      assert fmt[4] == Year && fmt[2] == MonthNumber && fmt[0] == Day;
    } else {
      assert fmt[6] == Year && fmt[4] == MonthNumber && fmt[2] == Day;
    }
  }

  /** The full formats of the venue parsers read back any date they write. */
  lemma FormatsRoundTrip(fmt: Format, d: Date, w: nat)
    requires FullFormat(fmt) && Writable(d) && w < 7
    ensures Parse(Render(fmt, English, d, w), fmt) == Ok(d)
  {
    FullFormatShape(fmt);
    ParseRendered(fmt, d, w);
  }

  /** "%B %Y" gives the first of the month. */
  lemma MonthYearRoundTrip(d: Date, w: nat)
    requires Writable(d) && w < 7
    ensures Parse(Render(MonthYear, English, d, w), MonthYear) == Ok(Date(d.year, d.month, 1))
  {
    assert MonthYear[0] == MonthName && MonthYear[2] == Year;
    ParseRendered(MonthYear, d, w);
  }

  /** "%d %B" gives the day in 1900, so 29 February without a year is out of
      range. */
  lemma DayMonthRoundTrip(d: Date, w: nat)
    requires Writable(d) && w < 7
    ensures Parse(Render(DayMonth, English, d, w), DayMonth) == MakeDate(1900, d.month, d.day)
    ensures d.month == 2 && d.day == 29 ==> Parse(Render(DayMonth, English, d, w), DayMonth) == Fail(DayOutOfRange)
  {
    assert DaysInMonth(1900, 2) == 28 by { assert !IsLeapYear(1900); }
    assert Year !in DayMonth && Day in DayMonth && HasMonth(DayMonth) by {
      assert DayMonth[0] == Day && DayMonth[2] == MonthName;
    }
    ParseRendered(DayMonth, d, w);
  }

  /** Matching a format made of two parts is matching one after the other. */
  lemma {:induction false} MatchFromConcat(p: Format, q: Format, loc: Locale, s: string, i: nat, f: Fields)
    requires i <= |s|
    ensures var r := MatchFrom(p, loc, s, i, f);
            MatchFrom(p + q, loc, s, i, f) == if r.Scanned? then MatchFrom(q, loc, s, r.end, r.fields) else NoScan
    decreases |p|
  {
    if p == [] {
      assert p + q == q;
    } else {
      assert (p + q)[0] == p[0] && (p + q)[1..] == p[1..] + q;
      var r := MatchOne(p[0], loc, s, i, f);
      if r.Scanned? {
        MatchFromConcat(p[1..], q, loc, s, r.end, r.fields);
      }
    }
  }

  /** A fragment that stops where a blank and more fields are expected does
      not match: this mismatch is what sends the venue parsers to their
      fallback formats when the year (or the month and year) is missing. */
  lemma MissingTailNoMatch(p: Format, q: Format, d: Date, w: nat)
    requires Printable(d) && w < 7 && WellSpaced(p)
    requires p != [] && p[|p| - 1] != Space
    ensures Parse(Render(p, English, d, w), p + [Space] + q) == Fail(NoMatch)
  {
    var s := Render(p, English, d, w);
    RenderedScansAll(p, d, w);
    BlankAfterEnd(p, q, English, s, NoFields);
    assert p + [Space] + q == p + ([Space] + q);
  }

  /** A blank cannot be read once a format has used up the whole text. */
  lemma BlankAfterEnd(p: Format, q: Format, loc: Locale, s: string, f: Fields)
    requires var r := MatchFrom(p, loc, s, 0, f); r.Scanned? && r.end == |s|
    ensures MatchFrom(p + ([Space] + q), loc, s, 0, f) == NoScan
  {
    var r := MatchFrom(p, loc, s, 0, f);
    MatchFromConcat(p, [Space] + q, loc, s, 0, f);
    assert ([Space] + q)[0] == Space;
    assert MatchOne(Space, loc, s, r.end, r.fields) == NoScan;
  }

  /** A format reads the whole of what it writes from the start. */
  lemma RenderedScansAll(fmt: Format, d: Date, w: nat)
    requires Printable(d) && w < 7 && WellSpaced(fmt)
    requires fmt != [] ==> fmt[|fmt| - 1] != Space
    ensures MatchFrom(fmt, English, Render(fmt, English, d, w), 0, NoFields) ==
              Scanned(CaptureAll(fmt, d, w, NoFields), |Render(fmt, English, d, w)|)
  {
    var s := Render(fmt, English, d, w);
    assert s[0..|s|] == s;
    EnglishIsGood();
    RenderMatches(fmt, English, d, w, s, 0, NoFields);
  }

  /** The missing-year and missing-month cases of the venue formats. */
  lemma FallbackTriggers(d: Date, w: nat)
    requires Printable(d) && w < 7
    ensures Parse(Render(DayMonth, English, d, w), DayMonthYear) == Fail(NoMatch)
    ensures Parse(Render([Weekday, Space, Day, Space, MonthAbbr], English, d, w), WeekdayDayMonYear) == Fail(NoMatch)
    ensures Parse(Render([Weekday, Space, Day], English, d, w), WeekdayDayMonYear) == Fail(NoMatch)
  {
    YearMissing(d, w);
    WeekdayYearMissing(d, w);
    WeekdayMonthMissing(d, w);
  }

  lemma YearMissing(d: Date, w: nat)
    requires Printable(d) && w < 7
    ensures Parse(Render(DayMonth, English, d, w), DayMonthYear) == Fail(NoMatch)
  {
    ShortParts();
    MissingTailNoMatch(DayMonth, [Year], d, w);
  }

  lemma WeekdayYearMissing(d: Date, w: nat)
    requires Printable(d) && w < 7
    ensures Parse(Render([Weekday, Space, Day, Space, MonthAbbr], English, d, w), WeekdayDayMonYear) == Fail(NoMatch)
  {
    ShortParts();
    MissingTailNoMatch([Weekday, Space, Day, Space, MonthAbbr], [Year], d, w);
  }

  lemma WeekdayMonthMissing(d: Date, w: nat)
    requires Printable(d) && w < 7
    ensures Parse(Render([Weekday, Space, Day], English, d, w), WeekdayDayMonYear) == Fail(NoMatch)
  {
    ShortParts();
    MissingTailNoMatch([Weekday, Space, Day], [MonthAbbr, Space, Year], d, w);
  }

  /** The short formats are well spaced, end in a field, and are the full
      formats cut before a blank. */
  lemma ShortParts()
    ensures WellSpaced(DayMonth) && DayMonth[|DayMonth| - 1] != Space
    ensures DayMonth + [Space] + [Year] == DayMonthYear
    ensures var p := [Weekday, Space, Day, Space, MonthAbbr];
            WellSpaced(p) && p[|p| - 1] != Space && p + [Space] + [Year] == WeekdayDayMonYear
    ensures var p := [Weekday, Space, Day];
            WellSpaced(p) && p[|p| - 1] != Space && p + [Space] + [MonthAbbr, Space, Year] == WeekdayDayMonYear
  {
    OddSpaced(DayMonth);
    OddSpaced([Weekday, Space, Day, Space, MonthAbbr]);
    OddSpaced([Weekday, Space, Day]);
  }

  /** When the format ends in `%Y`, the year captured is the last four
      characters the match consumed. */
  lemma {:induction false} MatchFromYearLast(fmt: Format, loc: Locale, s: string, i: nat, f: Fields)
    requires i <= |s|
    requires fmt != [] && fmt[|fmt| - 1] == Year
    requires MatchFrom(fmt, loc, s, i, f).Scanned?
    ensures var r := MatchFrom(fmt, loc, s, i, f);
            4 <= r.end && AllDigits(s[r.end - 4..r.end]) && r.fields.year == Some(DigitsValue(s[r.end - 4..r.end]))
    decreases |fmt|
  {
    var r := MatchOne(fmt[0], loc, s, i, f);
    if |fmt| == 1 {
      assert MatchFrom(fmt[1..], loc, s, r.end, r.fields) == r;
    } else {
      assert fmt[1..][|fmt[1..]| - 1] == Year;
      MatchFromYearLast(fmt[1..], loc, s, r.end, r.fields);
    }
  }

  /** A year appended to the text, as the fallbacks do with
      `f"{text} {year}"`, is the year of any date parsed from it. */
  lemma AppendedYear(t: string, y: nat, fmt: Format)
    requires 1000 <= y <= 9999
    requires fmt != [] && fmt[|fmt| - 1] == Year
    requires Parse(t + " " + NatStr(y), fmt).Ok?
    ensures Parse(t + " " + NatStr(y), fmt).date.year == y
  {
    var s := t + " " + NatStr(y);
    var r := MatchFrom(fmt, English, s, 0, NoFields);
    assert r.Scanned? && r.end == |s|;
    MatchFromYearLast(fmt, English, s, 0, NoFields);
    NatStrFourDigits(y);
    assert s[r.end - 4..r.end] == NatStr(y);
    NatStrValue(y);
    assert r.fields.year == Some(y);
  }

  lemma {:induction false} SpaceEndLower(s: string, i: nat)
    requires i <= |s|
    ensures SpaceEnd(Lower(s), i) == SpaceEnd(s, i)
    decreases |s| - i
  {
    if i < |s| && IsSpace(s[i]) { SpaceEndLower(s, i + 1); }
  }

  lemma LowerIdempotent(s: string)
    ensures Lower(Lower(s)) == Lower(s)
  {
  }

  lemma {:induction false} MatchNameLower(names: seq<string>, s: string, i: nat, k: nat)
    requires i <= |s|
    ensures MatchName(names, Lower(s), i, k) == MatchName(names, s, i, k)
    decreases |names| - k
  {
    if k < |names| {
      var j := i + |names[k]|;
      if j <= |s| {
        LowerSlice(s, i, j);
        LowerIdempotent(s[i..j]);
      }
      MatchNameLower(names, s, i, k + 1);
    }
  }

  /** Two characters that are equal whenever either is a digit or a blank. */
  predicate AgreeOnDigits(a: char, b: char)
  {
    (IsDigit(a) || a == ' ' || IsDigit(b) || b == ' ') ==> a == b
  }

  /** Lowering the text leaves digits and blanks where they are. */
  lemma LowerKeepsDigit(s: string, j: nat)
    requires j < |s|
    ensures AgreeOnDigits(Lower(s)[j], s[j])
  {
  }

  /** `%d` and `%m` look at two characters, and only at their digits and blanks. */
  lemma NumbersAgree(s: string, t: string, i: nat)
    requires i <= |s| == |t|
    requires i < |s| ==> AgreeOnDigits(t[i], s[i])
    requires i + 1 < |s| ==> AgreeOnDigits(t[i + 1], s[i + 1])
    ensures MatchDay(t, i) == MatchDay(s, i)
    ensures MatchMonthNumber(t, i) == MatchMonthNumber(s, i)
  {
  }

  lemma NumbersLower(s: string, i: nat)
    requires i <= |s|
    ensures MatchDay(Lower(s), i) == MatchDay(s, i)
    ensures MatchMonthNumber(Lower(s), i) == MatchMonthNumber(s, i)
  {
    if i < |s| { LowerKeepsDigit(s, i); }
    if i + 1 < |s| { LowerKeepsDigit(s, i + 1); }
    NumbersAgree(s, Lower(s), i);
  }

  /** A run of digits is its own lower-case form, and only digits lower to digits. */
  lemma LowerAllDigits(t: string)
    ensures AllDigits(Lower(t)) <==> AllDigits(t)
    ensures AllDigits(t) ==> Lower(t) == t
  {
    assert AllDigits(Lower(t)) ==> AllDigits(t) by {
      if AllDigits(Lower(t)) {
        forall k | 0 <= k < |t| ensures IsDigit(t[k]) { assert IsDigit(Lower(t)[k]); }
      }
    }
  }

  lemma MatchYearLower(s: string, i: nat)
    requires i <= |s|
    ensures MatchYear(Lower(s), i) == MatchYear(s, i)
  {
    if i + 4 <= |s| {
      LowerSlice(s, i, i + 4);
      LowerAllDigits(s[i..i + 4]);
    }
  }

  lemma MatchOneLower(dir: Directive, loc: Locale, s: string, i: nat, f: Fields)
    requires i <= |s|
    ensures MatchOne(dir, loc, Lower(s), i, f) == MatchOne(dir, loc, s, i, f)
  {
    var t := Lower(s);
    if dir == Space {
      assert i < |s| ==> (IsSpace(t[i]) <==> IsSpace(s[i]));
      SpaceEndLower(s, i);
    } else if dir == Day || dir == MonthNumber {
      NumbersLower(s, i);
    } else if dir == Year {
      MatchYearLower(s, i);
    } else {
      MatchNameLower(NamesOf(dir, loc), s, i, 0);
      NameScanAgrees(dir, loc, s, t, i, f);
    }
  }

  /** Two texts on which the name matcher of a name directive agrees give
      the same scan. */
  lemma NameScanAgrees(dir: Directive, loc: Locale, s: string, t: string, i: nat, f: Fields)
    requires IsNameDirective(dir) && i <= |s| && i <= |t|
    requires MatchName(NamesOf(dir, loc), t, i, 0) == MatchName(NamesOf(dir, loc), s, i, 0)
    ensures MatchOne(dir, loc, t, i, f) == MatchOne(dir, loc, s, i, f)
  {
    if dir == MonthName {
    } else if dir == MonthAbbr {
    } else {
    }
  }

  lemma {:induction false} MatchFromLower(fmt: Format, loc: Locale, s: string, i: nat, f: Fields)
    requires i <= |s|
    ensures MatchFrom(fmt, loc, Lower(s), i, f) == MatchFrom(fmt, loc, s, i, f)
    decreases |fmt|
  {
    if fmt != [] {
      MatchOneLower(fmt[0], loc, s, i, f);
      var r := MatchOne(fmt[0], loc, s, i, f);
      if r.Scanned? {
        MatchFromLower(fmt[1..], loc, s, r.end, r.fields);
      }
    }
  }

  /** Month and weekday names match whatever their letter case. */
  lemma ParseIgnoresCase(s: string, fmt: Format)
    ensures Parse(Lower(s), fmt) == Parse(s, fmt)
  {
    MatchFromLower(fmt, English, s, 0, NoFields);
  }
}
