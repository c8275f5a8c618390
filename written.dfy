/** Date texts as the venue sites write them: dates printed by `strftime`
    in the C locale, and ranges "a - b" of two such texts. These are
    the inputs on which the lemmas about the range resolvers are stated. */
module Written {
  import opened Wrappers
  import opened Text
  import opened Dates
  import opened Strptime
  import opened StrptimeFacts
  import opened Normalise
  import opened Shows

  /** Only digits, lower-case letters and blanks. */
  predicate Plain(s: string)
  {
    forall i :: 0 <= i < |s| ==> IsDigit(s[i]) || IsLower(s[i]) || s[i] == ' '
  }

  /** A run of digits is always ended by a blank or by the end of the text. */
  predicate DigitsThenBlank(s: string)
  {
    forall i :: 0 <= i < |s| - 1 && IsDigit(s[i]) ==> IsDigit(s[i + 1]) || s[i + 1] == ' '
  }

  /** A non-empty plain text with no blank at either end. */
  predicate Tidy(s: string)
  {
    s != [] && Plain(s) && DigitsThenBlank(s) && s[0] != ' ' && s[|s| - 1] != ' '
  }

  lemma TidyJoin(a: string, b: string)
    requires Tidy(a) && Tidy(b)
    ensures Tidy(a + " " + b)
  {
    var s := a + " " + b;
    forall i | 0 <= i < |s| ensures IsDigit(s[i]) || IsLower(s[i]) || s[i] == ' ' {
      if i > |a| { assert s[i] == b[i - |a| - 1]; }
    }
    forall i | 0 <= i < |s| - 1 && IsDigit(s[i]) ensures IsDigit(s[i + 1]) || s[i + 1] == ' ' {
      if i > |a| { assert s[i] == b[i - |a| - 1] && s[i + 1] == b[i - |a|]; }
    }
  }

  /** Every name is non-empty and made of lower-case letters. */
  ghost predicate LetterTable(names: seq<string>)
  {
    forall k :: 0 <= k < |names| ==> names[k] != [] && forall j :: 0 <= j < |names[k]| ==> IsLower(names[k][j])
  }

  ghost predicate Letters(w: string)
  {
    w != [] && forall j :: 0 <= j < |w| ==> IsLower(w[j])
  }

  lemma LettersTidy(w: string)
    requires Letters(w)
    ensures Tidy(w)
  {
  }

  lemma EnglishLetters()
    ensures LetterTable(MonthNames) && LetterTable(MonthAbbrs) && LetterTable(WeekdayAbbrs)
  {
    MonthNameLetters();
    MonthAbbrLetters();
    WeekdayLetters();
  }

  lemma MonthNameLetters()
    ensures LetterTable(MonthNames)
  {
    forall k | 0 <= k < 12 ensures Letters(MonthNames[k]) {
      var w := MonthNames[k];
      if k < 6 {
        assert w in ["january", "february", "march", "april", "may", "june"];
      } else {
        assert w in ["july", "august", "september", "october", "november", "december"];
      }
    }
  }

  lemma MonthAbbrLetters()
    ensures LetterTable(MonthAbbrs)
  {
    forall k | 0 <= k < 12 ensures Letters(MonthAbbrs[k]) {
      var w := MonthAbbrs[k];
      assert w in ["jan", "feb", "mar", "apr", "may", "jun", "jul", "aug", "sep", "oct", "nov", "dec"];
    }
  }

  lemma WeekdayLetters()
    ensures LetterTable(WeekdayAbbrs)
  {
    forall k | 0 <= k < 7 ensures Letters(WeekdayAbbrs[k]) {
      var w := WeekdayAbbrs[k];
      assert w in ["mon", "tue", "wed", "thu", "fri", "sat", "sun"];
    }
  }

  /** What `strftime` writes for one field other than a blank is tidy. */
  lemma PieceTidy(dir: Directive, d: Date, w: nat)
    requires Printable(d) && w < 7 && dir != Space
    ensures Tidy(Piece(dir, English, d, w))
  {
    EnglishLetters();
    var p := Piece(dir, English, d, w);
    match dir
    case MonthName => assert Letters(MonthNames[d.month - 1]);
    case MonthAbbr => assert Letters(MonthAbbrs[d.month - 1]);
    case Weekday => assert Letters(WeekdayAbbrs[w]);
    case _ =>
  }

  /** Fields and single blanks in turn, starting and ending with a field:
      the shape of every format the venue parsers use. */
  ghost predicate Alternating(fmt: Format)
  {
    |fmt| % 2 == 1 && forall k :: 0 <= k < |fmt| ==> (fmt[k] == Space <==> k % 2 == 1)
  }

  /** An alternating format is well spaced and ends in a field. */
  lemma AlternatingShape(p: Format)
    requires Alternating(p)
    ensures WellSpaced(p) && p != [] && p[|p| - 1] != Space
  {
    OddSpaced(p);
    assert (|p| - 1) % 2 == 0;
  }

  lemma {:induction false} RenderTidy(fmt: Format, d: Date, w: nat)
    requires Printable(d) && w < 7 && Alternating(fmt)
    ensures Tidy(Render(fmt, English, d, w))
    decreases |fmt|
  {
    PieceTidy(fmt[0], d, w);
    if |fmt| == 1 {
      assert Render(fmt, English, d, w) == Piece(fmt[0], English, d, w) + Render([], English, d, w);
    } else {
      var rest := fmt[2..];
      AlternatingTail(fmt);
      RenderTidy(rest, d, w);
      RenderPair(fmt, d, w);
      TidyJoin(Piece(fmt[0], English, d, w), Render(rest, English, d, w));
    }
  }

  /** Past its first field and blank, an alternating format alternates. */
  lemma AlternatingTail(fmt: Format)
    requires Alternating(fmt) && |fmt| > 1
    ensures Alternating(fmt[2..]) && fmt[1] == Space
  {
    var rest := fmt[2..];
    forall k | 0 <= k < |rest| ensures rest[k] == Space <==> k % 2 == 1 {
      assert rest[k] == fmt[k + 2];
    }
  }

  /** A field and a blank, then the rest of the format. */
  lemma RenderPair(fmt: Format, d: Date, w: nat)
    requires Printable(d) && w < 7 && |fmt| > 1 && fmt[1] == Space
    ensures Render(fmt, English, d, w) == Piece(fmt[0], English, d, w) + " " + Render(fmt[2..], English, d, w)
  {
    assert fmt[1..][1..] == fmt[2..];
    assert Render(fmt[1..], English, d, w) == " " + Render(fmt[2..], English, d, w);
    ConcatAssoc(Piece(fmt[0], English, d, w), " ", Render(fmt[2..], English, d, w));
  }

  /** The formats in use are alternating. */
  lemma FormatsAlternate()
    ensures Alternating(DayMonthYear) && Alternating(DayMonth) && Alternating(MonthYear)
    ensures Alternating(WeekdayDayMonYear) && Alternating(DayNumYear) && Alternating(WeekdayDayNumYear)
    ensures Alternating([Day]) && Alternating([Weekday, Space, Day])
    ensures Alternating([Weekday, Space, Day, Space, MonthAbbr])
  {
  }

  /** No ordinal suffix follows a digit in a tidy text, so `DATE_REPLACER`
      leaves it as it is. */
  lemma TidyNoOrdinal(s: string)
    requires Tidy(s)
    ensures StripOrdinals(s) == s
  {
    forall i | 0 <= i < |s| ensures OrdinalDigits(s[i..]) == 0 {
      var t := s[i..];
      if |t| >= 3 && IsDigit(t[0]) {
        assert t[0] == s[i] && t[1] == s[i + 1];
      }
      if |t| >= 4 && IsDigit(t[1]) {
        assert t[1] == s[i + 1] && t[2] == s[i + 2];
      }
    }
    assert s[0..] == s;
    StripOrdinalsNone(s);
  }

  /** A tidy text has no capital letter, so `weekday_replacer` leaves it as
      it is. */
  lemma TidyNoWeekdayFix(s: string)
    requires Tidy(s)
    ensures ReplaceWeekdays(s) == s
  {
    assert 'T' !in s by {
      forall i | 0 <= i < |s| ensures s[i] != 'T' { }
    }
    NoCapitalT(s);
    ReplaceWeekdaysAbsent(s);
  }

  lemma TidyHasNo(s: string, c: char)
    requires Tidy(s) && !IsDigit(c) && !IsLower(c) && c != ' '
    ensures c !in s
  {
  }

  // ---------------------------------------------------------------------
  // Ranges "a - b"
  // ---------------------------------------------------------------------

  /** Two dates written with a separator between blanks. */
  function Range(a: string, sep: char, b: string): string
  {
    a + [' ', sep, ' '] + b
  }

  lemma {:induction false} SplitNoSep(a: string, sep: char)
    requires sep !in a
    ensures Split(a, sep) == [a]
  {
  }

  lemma {:induction false} SplitAfter(a: string, sep: char, t: string)
    requires sep !in a
    ensures Split(a + [sep] + t, sep) == [a] + Split(t, sep)
    decreases |a|
  {
    var s := a + [sep] + t;
    if a == [] {
      assert s == [sep] + t && s[1..] == t;
    } else {
      assert s[1..] == a[1..] + [sep] + t;
      SplitAfter(a[1..], sep, t);
      var rest := Split(s[1..], sep);
      assert s[0] == a[0] && a[0] != sep;
      assert rest[0] == a[1..] && rest[1..] == Split(t, sep);
      assert [a[0]] + a[1..] == a;
    }
  }

  /** A side of a range: non-empty, without the separator, and with no
      whitespace at either end. */
  predicate Side(a: string, sep: char)
  {
    a != [] && sep !in a && !IsSpace(a[0]) && !IsSpace(a[|a| - 1])
  }

  lemma StripPadded(a: string)
    requires a != [] && !IsSpace(a[0]) && !IsSpace(a[|a| - 1])
    ensures Strip(a + " ") == a && Strip(" " + a) == a
  {
    assert LStrip(a + " ") == a + " ";
    assert (a + " ")[..|a|] == a;
    assert RStrip(a + " ") == RStrip(a) == a;
    assert (" " + a)[1..] == a;
    assert LStrip(" " + a) == LStrip(a) == a;
    assert RStrip(a) == a;
  }

  /** Splitting "a - b" at the separator and stripping gives back a and b. */
  lemma HalvesOfRange(a: string, sep: char, b: string)
    requires Side(a, sep) && Side(b, sep) && sep != ' '
    ensures sep in Range(a, sep, b)
    ensures Halves(Range(a, sep, b), sep) == (a, b)
  {
    var s := Range(a, sep, b);
    assert s[|a| + 1] == sep;
    assert s == (a + " ") + [sep] + (" " + b);
    SplitAfter(a + " ", sep, " " + b);
    SplitNoSep(" " + b, sep);
    StripPadded(a);
    StripPadded(b);
  }

  lemma TidySide(a: string, sep: char)
    requires Tidy(a) && !IsDigit(sep) && !IsLower(sep) && sep != ' '
    ensures Side(a, sep)
  {
  }

  // ---------------------------------------------------------------------
  // Texts with a field appended, as the fallbacks build them
  // ---------------------------------------------------------------------

  lemma {:induction false} RenderConcat(p: Format, q: Format, d: Date, w: nat)
    requires Printable(d) && w < 7
    ensures Render(p + q, English, d, w) == Render(p, English, d, w) + Render(q, English, d, w)
    decreases |p|
  {
    if p == [] {
      assert p + q == q;
    } else {
      assert (p + q)[1..] == p[1..] + q;
      RenderConcat(p[1..], q, d, w);
    }
  }

  /** A format without `%Y` writes the same text for dates that differ only
      in the year. */
  lemma {:induction false} RenderSameDay(p: Format, d: Date, e: Date, w: nat)
    requires Printable(d) && Printable(e) && w < 7
    requires Year !in p && d.month == e.month && d.day == e.day
    ensures Render(p, English, d, w) == Render(p, English, e, w)
    decreases |p|
  {
    if p != [] {
      RenderSameDay(p[1..], d, e, w);
    }
  }

  /** `f"{text} {year}"` on a date written without its year is the date
      written with it. */
  lemma RenderWithYear(p: Format, d: Date, y: nat, w: nat)
    requires Printable(d) && w < 7 && Year !in p
    requires Printable(Date(y, d.month, d.day))
    ensures Appended(Render(p, English, d, w), y) == Render(p + [Space, Year], English, Date(y, d.month, d.day), w)
  {
    var e := Date(y, d.month, d.day);
    RenderConcat(p, [Space, Year], e, w);
    RenderSameDay(p, d, e, w);
    YearTail(e, w);
  }

  /** A blank and `%Y`. */
  lemma YearTail(e: Date, w: nat)
    requires Printable(e) && w < 7
    ensures Render([Space, Year], English, e, w) == " " + NatStr(e.year)
  {
    assert [Space, Year][1..] == [Year];
    assert Render([Year], English, e, w) == NatStr(e.year) + Render([], English, e, w);
  }

  /** `%m` reads the month number as `str` writes it, without padding, when
      a blank follows. */
  lemma UnpaddedMonth(s: string, i: nat, m: int)
    requires 1 <= m <= 12
    requires i + |NatStr(m)| < |s| && s[i..i + |NatStr(m)|] == NatStr(m) && s[i + |NatStr(m)|] == ' '
    ensures MatchMonthNumber(s, i) == Token(m, i + |NatStr(m)|)
  {
    if m < 10 {
      assert NatStr(m) == [DigitChar(m)];
      assert s[i] == DigitChar(m);
    } else {
      assert NatStr(m) == NatStr(m / 10) + [DigitChar(m % 10)];
      assert m / 10 == 1 && NatStr(1) == [DigitChar(1)];
      assert s[i] == '1' && s[i + 1] == DigitChar(m % 10);
    }
  }

  /** The whitespace run at `i` is a single blank when a digit follows. */
  lemma OneBlank(s: string, i: nat)
    requires i + 1 < |s| && s[i] == ' ' && IsDigit(s[i + 1])
    ensures SpaceEnd(s, i) == i + 1
  {
  }

  /** The last fallback of the day-only readings: the day as written, then
      the month number and the year, read with `%m %Y` in place of the
      missing fields. */
  lemma NumericTail(p: Format, d: Date, w: nat, m: int, y: int)
    requires Printable(d) && w < 7 && Alternating(p)
    requires Day in p && !HasMonth(p) && Year !in p
    requires 1 <= m <= 12 && 1000 <= y <= 9999
    ensures Parse(Appended(Appended(Render(p, English, d, w), m), y), p + [Space, MonthNumber, Space, Year])
            == MakeDate(y, m, d.day)
  {
    NumericTailParse(p, [Space, MonthNumber, Space, Year], d, w, m, y);
  }

  /** `%m %Y`, or any format of that shape. */
  predicate MonthYearShape(q: Format)
  {
    |q| == 4 && q[0] == Space && q[1] == MonthNumber && q[2] == Space && q[3] == Year
  }

  lemma NumericTailParse(p: Format, q: Format, d: Date, w: nat, m: int, y: int)
    requires Printable(d) && w < 7 && Alternating(p) && MonthYearShape(q)
    requires Day in p && !HasMonth(p) && Year !in p
    requires 1 <= m <= 12 && 1000 <= y <= 9999
    ensures Parse(Appended(Appended(Render(p, English, d, w), m), y), p + q) == MakeDate(y, m, d.day)
  {
    var x := Render(p, English, d, w);
    var s := Appended(Appended(x, m), y);
    var f := CaptureAll(p, d, w, NoFields);
    NumericPrefix(p, q, d, w, m, y);
    NumericFields(q, s, |x|, f, m, y);
    CaptureAllFields(p, d, w, NoFields);
    var g := f.(month := Some(m)).(year := Some(y));
    assert g.year == Some(y) && g.month == Some(m) && g.day == Some(d.day);
    ParseWhole(s, p + q, g);
  }

  /** The written fields at the head of "{x} {m} {y}" are read back, leaving
      " {m} {y}". */
  lemma NumericPrefix(p: Format, q: Format, d: Date, w: nat, m: nat, y: nat)
    requires Printable(d) && w < 7 && Alternating(p)
    ensures var x := Render(p, English, d, w);
            var s := Appended(Appended(x, m), y);
            |x| <= |s| && s[|x|..] == " " + NatStr(m) + " " + NatStr(y) &&
            MatchFrom(p + q, English, s, 0, NoFields) == MatchFrom(q, English, s, |x|, CaptureAll(p, d, w, NoFields))
  {
    var x := Render(p, English, d, w);
    var t := " " + NatStr(m) + " " + NatStr(y);
    AppendedTwice(x, m, y);
    PrefixOfConcat(x, t);
    AlternatingShape(p);
    RenderedPrefixScans(p, d, w, t);
    MatchFromConcat(p, q, English, x + t, 0, NoFields);
  }

  lemma AppendedTwice(x: string, m: nat, y: nat)
    ensures Appended(Appended(x, m), y) == x + (" " + NatStr(m) + " " + NatStr(y))
  {
  }

  /** A match that reaches the end of the text yields the date of its fields. */
  lemma ParseWhole(s: string, fmt: Format, g: Fields)
    requires MatchFrom(fmt, English, s, 0, NoFields) == Scanned(g, |s|)
    ensures Parse(s, fmt) == Resolve(g)
  {
  }

  /** " {m} {y}" at `k` is read by `%m %Y` after the blank before it. */
  lemma NumericFields(q: Format, s: string, k: nat, f: Fields, m: int, y: int)
    requires MonthYearShape(q)
    requires 1 <= m <= 12 && 1000 <= y <= 9999
    requires k <= |s| && s[k..] == " " + NatStr(m) + " " + NatStr(y)
    ensures MatchFrom(q, English, s, k, f) == Scanned(f.(month := Some(m)).(year := Some(y)), |s|)
  {
    var j := NumericMonthStep(q, s, k, f, m, y);
    NumericYearStep(q[2..], s, j, f.(month := Some(m)), y);
  }

  /** The blank and `%m` of " {m} {y}" are read, leaving " {y}". */
  lemma NumericMonthStep(q: Format, s: string, k: nat, f: Fields, m: int, y: int) returns (j: nat)
    requires MonthYearShape(q)
    requires 1 <= m <= 12 && 1000 <= y <= 9999
    requires k <= |s| && s[k..] == " " + NatStr(m) + " " + NatStr(y)
    ensures j <= |s| && s[j..] == " " + NatStr(y)
    ensures MatchFrom(q, English, s, k, f) == MatchFrom(q[2..], English, s, j, f.(month := Some(m)))
  {
    var n := NatStr(m);
    j := k + 1 + |n|;
    MonthField(s, k, f, m);
    assert s[j..] == " " + NatStr(y) by {
      ConcatAssoc(" " + n, " ", NatStr(y));
      ConcatCut(" " + n, " " + NatStr(y), 0);
      assert s[j..] == s[k..][1 + |n|..];
    }
    assert q[1..][1..] == q[2..];
    FirstField(q, s, k, f, f, k + 1);
    FirstField(q[1..], s, k + 1, f, f.(month := Some(m)), j);
  }

  /** The blank and `%Y` of " {y}" at the end of the text are read. */
  lemma NumericYearStep(r: Format, s: string, j: nat, g: Fields, y: int)
    requires |r| == 2 && r[0] == Space && r[1] == Year
    requires 1000 <= y <= 9999
    requires j <= |s| && s[j..] == " " + NatStr(y)
    ensures MatchFrom(r, English, s, j, g) == Scanned(g.(year := Some(y)), |s|)
  {
    YearField(s, j, g, y);
    assert r[1..][1..] == [];
    FirstField(r, s, j, g, g, j + 1);
    FirstField(r[1..], s, j + 1, g, g.(year := Some(y)), |s|);
  }

  lemma FirstField(q: Format, s: string, i: nat, f: Fields, g: Fields, j: nat)
    requires q != [] && i <= j <= |s|
    requires MatchOne(q[0], English, s, i, f) == Scanned(g, j)
    ensures MatchFrom(q, English, s, i, f) == MatchFrom(q[1..], English, s, j, g)
  {
  }

  /** The blank and the unpadded month number of " {m} ...". */
  lemma MonthField(s: string, k: nat, f: Fields, m: int)
    requires 1 <= m <= 12
    requires k + 1 + |NatStr(m)| < |s| && s[k..k + 1 + |NatStr(m)|] == " " + NatStr(m)
    requires s[k + 1 + |NatStr(m)|] == ' '
    ensures MatchOne(Space, English, s, k, f) == Scanned(f, k + 1)
    ensures MatchOne(MonthNumber, English, s, k + 1, f) == Scanned(f.(month := Some(m)), k + 1 + |NatStr(m)|)
  {
    var n := NatStr(m);
    SplitSlice(s, k, " ", n);
    assert s[k] == s[k..k + 1][0];
    assert s[k + 1] == s[k + 1..k + 1 + |n|][0];
    OneBlank(s, k);
    UnpaddedMonth(s, k + 1, m);
  }

  /** The blank and the four-digit year of " {y}" at the end of the text. */
  lemma YearField(s: string, j: nat, g: Fields, y: int)
    requires 1000 <= y <= 9999
    requires j <= |s| && s[j..] == " " + NatStr(y)
    ensures MatchOne(Space, English, s, j, g) == Scanned(g, j + 1)
    ensures MatchOne(Year, English, s, j + 1, g) == Scanned(g.(year := Some(y)), |s|)
  {
    var t := NatStr(y);
    NatStrFourDigits(y);
    assert s[j] == ' ' && s[j + 1] == t[0];
    OneBlank(s, j);
    assert s[j + 1..j + 5] == t;
    YearPieceMatches(Date(y, 1, 1), s, j + 1);
  }

  /** No name starts with a digit. */
  lemma {:induction false} NameAtDigit(names: seq<string>, s: string, i: nat, k: nat)
    requires GoodTable(names)
    requires i < |s| && IsDigit(s[i])
    ensures MatchName(names, s, i, k) == NoToken
    decreases |names| - k
  {
    if k < |names| {
      var n := names[k];
      if i + |n| <= |s| {
        assert Lower(s[i..i + |n|])[0] == LowerChar(s[i]);
      }
      NameAtDigit(names, s, i, k + 1);
    }
  }

  /** A date written without its month, with a year appended, does not
      match a format that wants a month name after the written fields. */
  lemma NameMissing(p: Format, name: Directive, rest: Format, d: Date, w: nat, y: nat)
    requires Printable(d) && w < 7 && Alternating(p)
    requires name == MonthName || name == MonthAbbr
    ensures Parse(Appended(Render(p, English, d, w), y), p + ([Space, name] + rest)) == Fail(NoMatch)
  {
    var x := Render(p, English, d, w);
    var t := " " + NatStr(y);
    assert Appended(x, y) == x + t;
    NameMissingScan(p, name, rest, d, w, t);
  }

  /** The scan behind `NameMissing`: the written fields are read, then the
      digit after the blank is not a month name. */
  lemma NameMissingScan(p: Format, name: Directive, rest: Format, d: Date, w: nat, t: string)
    requires Printable(d) && w < 7 && Alternating(p)
    requires name == MonthName || name == MonthAbbr
    requires |t| >= 2 && t[0] == ' ' && IsDigit(t[1])
    ensures MatchFrom(p + ([Space, name] + rest), English, Render(p, English, d, w) + t, 0, NoFields) == NoScan
  {
    var x := Render(p, English, d, w);
    AlternatingShape(p);
    RenderedPrefixScans(p, d, w, t);
    var q := [Space, name] + rest;
    MatchFromConcat(p, q, English, x + t, 0, NoFields);
    NameAfterBlank(q, x, t, CaptureAll(p, d, w, NoFields));
  }

  lemma NameAfterBlank(q: Format, x: string, t: string, f: Fields)
    requires |q| >= 2 && q[0] == Space && (q[1] == MonthName || q[1] == MonthAbbr)
    requires |t| >= 2 && t[0] == ' ' && IsDigit(t[1])
    ensures MatchFrom(q, English, x + t, |x|, f) == NoScan
  {
    var s, k := x + t, |x|;
    assert s[k] == ' ' && s[k + 1] == t[1];
    EnglishIsGood();
    OneBlank(s, k);
    FirstField(q, s, k, f, f, k + 1);
    NameAtDigit(NamesOf(q[1], English), s, k + 1, 0);
    assert MatchOne(q[1], English, s, k + 1, f) == NoScan;
  }
}
