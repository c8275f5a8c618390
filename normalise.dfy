/** The text clean-ups applied to raw date text before it is parsed:
    ordinal suffixes (`DATE_REPLACER`), four-letter weekday abbreviations
    (`weekday_replacer`) and the Warwick Arts Centre's `fix_date_text`. */
module Normalise {
  import opened Text

  // ---------------------------------------------------------------------
  // Ordinal suffixes: re.sub(r"\b([0123]?[0-9])(st|th|nd|rd)\b", r"\1", s)
  // ---------------------------------------------------------------------

  predicate IsOrdinalSuffix(a: char, b: char)
  {
    (a == 's' && b == 't') || (a == 't' && b == 'h') || (a == 'n' && b == 'd') || (a == 'r' && b == 'd')
  }

  predicate IsTensDigit(c: char) { '0' <= c <= '3' }

  /** `\b` at position `j` when the character before it is a word character. */
  predicate WordEndsAt(s: string, j: nat)
  {
    j >= |s| || !IsWordChar(s[j])
  }

  /** How many digits an ordinal at the start of `s` keeps (0 when the
      pattern does not match there), given that the character before `s`
      is not a word character. The optional tens digit is greedy, so the
      two-digit reading is tried first. */
  function OrdinalDigits(s: string): (n: nat)
    ensures n <= 2
    ensures n > 0 ==> |s| >= n + 2 && IsOrdinalSuffix(s[n], s[n + 1]) && WordEndsAt(s, n + 2)
    ensures n > 0 ==> forall k :: 0 <= k < n + 2 ==> IsWordChar(s[k])
  {
    if |s| >= 4 && IsTensDigit(s[0]) && IsDigit(s[1]) && IsOrdinalSuffix(s[2], s[3]) && WordEndsAt(s, 4) then 2
    else if |s| >= 3 && IsDigit(s[0]) && IsOrdinalSuffix(s[1], s[2]) && WordEndsAt(s, 3) then 1
    else 0
  }

  /** The substitution, scanning left to right; `afterWord` says whether the
      character just before `s` is a word character, in which case `\b`
      cannot hold in front of a digit. After a replacement the scan resumes
      behind the suffix, whose last letter is a word character. */
  function StripOrdinalsAfter(s: string, afterWord: bool): (r: string)
    ensures |r| <= |s|
    ensures forall c :: c in r ==> c in s
    decreases |s|
  {
    if s == [] then []
    else
      var n := if afterWord then 0 else OrdinalDigits(s);
      if n > 0 then s[..n] + StripOrdinalsAfter(s[n + 2..], true)
      else [s[0]] + StripOrdinalsAfter(s[1..], IsWordChar(s[0]))
  }

  /** `DATE_REPLACER.sub(r"\1", s)`: it only ever deletes. */
  function StripOrdinals(s: string): (r: string)
    ensures |r| <= |s|
    ensures forall c :: c in r ==> c in s
  {
    StripOrdinalsAfter(s, false)
  }

  /** No ordinal pattern matches anywhere in `s` (with `afterWord` the word
      status of the character before `s`). */
  predicate NoOrdinalAfter(s: string, afterWord: bool)
  {
    && (!afterWord ==> OrdinalDigits(s) == 0)
    && forall i :: 1 <= i < |s| && !IsWordChar(s[i - 1]) ==> OrdinalDigits(s[i..]) == 0
  }

  /** Text in which nothing matches is returned unchanged. */
  lemma {:induction false} StripOrdinalsAfterNone(s: string, afterWord: bool)
    requires NoOrdinalAfter(s, afterWord)
    ensures StripOrdinalsAfter(s, afterWord) == s
    decreases |s|
  {
    if s != [] {
      assert NoOrdinalAfter(s[1..], IsWordChar(s[0])) by {
        forall i | 1 <= i < |s[1..]| && !IsWordChar(s[1..][i - 1])
          ensures OrdinalDigits(s[1..][i..]) == 0
        {
          assert s[1..][i..] == s[i + 1..];
        }
        if !IsWordChar(s[0]) {
          assert s[1..] == s[1..][0..];
        }
      }
      StripOrdinalsAfterNone(s[1..], IsWordChar(s[0]));
    }
  }

  /** Other text is untouched: with no match, the substitution is the identity. */
  lemma StripOrdinalsNone(s: string)
    requires NoOrdinalAfter(s, false)
    ensures StripOrdinals(s) == s
  {
    StripOrdinalsAfterNone(s, false);
  }

  /** A match never runs across a character that is not a word character. */
  lemma OrdinalDigitsPrefix(a: string, t: string)
    requires a != [] && !IsWordChar(a[|a| - 1])
    ensures OrdinalDigits(a + t) == OrdinalDigits(a)
    ensures OrdinalDigits(a) > 0 ==> OrdinalDigits(a) + 2 < |a|
  {
    var s := a + t;
    var n := OrdinalDigits(s);
    var m := OrdinalDigits(a);
    assert !IsWordChar(s[|a| - 1]);
    if n > 0 {
      assert |a| > n + 2;
      assert forall k :: 0 <= k <= n + 2 ==> s[k] == a[k];
    }
    if m > 0 {
      assert |a| > m + 2;
      assert forall k :: 0 <= k <= m + 2 ==> s[k] == a[k];
    }
  }

  /** The substitution works independently on two texts glued after a
      character that is not a word character. */
  lemma {:induction false} StripOrdinalsAfterConcat(a: string, t: string, afterWord: bool)
    requires a != [] && !IsWordChar(a[|a| - 1])
    ensures StripOrdinalsAfter(a + t, afterWord) == StripOrdinalsAfter(a, afterWord) + StripOrdinalsAfter(t, false)
    decreases |a|
  {
    var s := a + t;
    OrdinalDigitsPrefix(a, t);
    var n := if afterWord then 0 else OrdinalDigits(s);
    var tail := StripOrdinalsAfter(t, false);
    if n > 0 {
      ConcatCut(a, t, n);
      ConcatCut(a, t, n + 2);
      StripOrdinalsAfterConcat(a[n + 2..], t, true);
      assert StripOrdinalsAfter(s, afterWord) == a[..n] + StripOrdinalsAfter(a[n + 2..] + t, true);
      ConcatAssoc(a[..n], StripOrdinalsAfter(a[n + 2..], true), tail);
    } else {
      assert s[0] == a[0];
      ConcatCut(a, t, 1);
      assert StripOrdinalsAfter(s, afterWord) == [a[0]] + StripOrdinalsAfter(a[1..] + t, IsWordChar(a[0]));
      if |a| == 1 {
        assert a[1..] == [];
        assert StripOrdinalsAfter(a, afterWord) == [a[0]];
        assert StripOrdinalsAfter(a[1..] + t, IsWordChar(a[0])) == tail by {
          assert a[1..] + t == t;
        }
      } else {
        StripOrdinalsAfterConcat(a[1..], t, IsWordChar(a[0]));
        ConcatAssoc([a[0]], StripOrdinalsAfter(a[1..], IsWordChar(a[0])), tail);
      }
    }
  }

  /** The day number of an ordinal the pattern accepts: one digit, or two
      digits of which the first is 0 to 3. */
  predicate IsDayDigits(d: string)
  {
    (|d| == 1 && IsDigit(d[0])) || (|d| == 2 && IsTensDigit(d[0]) && IsDigit(d[1]))
  }

  /** A character that is not a word character, or nothing, ends a word
      whatever came before it. */
  lemma StripOrdinalsAfterBoundary(t: string)
    requires t == [] || !IsWordChar(t[0])
    ensures StripOrdinalsAfter(t, true) == StripOrdinalsAfter(t, false)
  {
    if t != [] {
      assert !IsDigit(t[0]);
    }
  }

  /** The ordinal of a day standing as a word of its own: the suffix goes,
      the digits stay. */
  lemma StripOrdinalWord(d: string, suffix: string, t: string)
    requires IsDayDigits(d)
    requires |suffix| == 2 && IsOrdinalSuffix(suffix[0], suffix[1])
    requires t == [] || !IsWordChar(t[0])
    ensures StripOrdinals(d + suffix + t) == d + StripOrdinals(t)
  {
    var s := d + suffix + t;
    assert s[..|d|] == d;
    assert s[|d| + 2..] == t;
    assert OrdinalDigits(s) == |d|;
    StripOrdinalsAfterBoundary(t);
  }

  /** "Other text is untouched": an ordinal day between two non-word
      characters loses exactly its suffix, and the text around it is
      treated as if on its own. */
  lemma StripOrdinalInText(a: string, d: string, suffix: string, t: string)
    requires a != [] && !IsWordChar(a[|a| - 1])
    requires IsDayDigits(d)
    requires |suffix| == 2 && IsOrdinalSuffix(suffix[0], suffix[1])
    requires t == [] || !IsWordChar(t[0])
    ensures StripOrdinals(a + d + suffix + t) == StripOrdinals(a) + d + StripOrdinals(t)
  {
    assert a + d + suffix + t == a + (d + suffix + t);
    StripOrdinalsAfterConcat(a, d + suffix + t, false);
    StripOrdinalWord(d, suffix, t);
  }

  /** A suffix behind three digits or inside a word stays. */
  lemma StripOrdinalsKeptExamples()
    ensures StripOrdinals("123rd") == "123rd"
    ensures StripOrdinals("x1st") == "x1st"
  {
    InWordAfter("123rd");
    InWordAfter("x1st");
  }

  /** Inside a word, nothing is replaced: `\b` never holds before a digit
      that follows a word character. */
  lemma {:induction false} StripOrdinalsInWord(s: string)
    requires forall k :: 0 <= k < |s| ==> IsWordChar(s[k])
    ensures StripOrdinalsAfter(s, true) == s
    decreases |s|
  {
    if s != [] {
      StripOrdinalsInWord(s[1..]);
    }
  }

  /** A word whose first character starts no ordinal is kept whole. */
  lemma InWordAfter(s: string)
    requires s != [] && OrdinalDigits(s) == 0
    requires forall k :: 0 <= k < |s| ==> IsWordChar(s[k])
    ensures StripOrdinals(s) == s
  {
    StripOrdinalsInWord(s[1..]);
  }

  // ---------------------------------------------------------------------
  // weekday_replacer: text.replace("Thurs", "Thu").replace("Tues", "Tue")
  // ---------------------------------------------------------------------

  /** `weekday_replacer`: it only ever shortens, and only text with a
      capital T. */
  function ReplaceWeekdays(s: string): (r: string)
    ensures |r| <= |s|
    ensures 'T' !in s ==> r == s
  {
    var t := ReplaceAll(s, "Thurs", "Thu");
    if 'T' !in s then
      NoCapitalT(s);
      ReplaceAbsent(s, "Thurs", "Thu");
      ReplaceAbsent(s, "Tues", "Tue");
      ReplaceAll(t, "Tues", "Tue")
    else ReplaceAll(t, "Tues", "Tue")
  }

  /** Text with neither "Thurs" nor "Tues" in it comes back unchanged. */
  lemma ReplaceWeekdaysAbsent(s: string)
    requires !Contains(s, "Thurs") && !Contains(s, "Tues")
    ensures ReplaceWeekdays(s) == s
  {
    ReplaceAbsent(s, "Thurs", "Thu");
    ReplaceAbsent(s, "Tues", "Tue");
  }

  /** `replace` copies a prefix in which no occurrence of the pattern starts. */
  lemma {:induction false} ReplaceAllSkip(x: string, t: string, pat: string, rep: string)
    requires |pat| > 0
    requires forall i :: 0 <= i < |x| && i + |pat| <= |x + t| ==> !OccursAt(x + t, pat, i)
    ensures ReplaceAll(x + t, pat, rep) == x + ReplaceAll(t, pat, rep)
    decreases |x|
  {
    if x != [] {
      var s := x + t;
      if |s| < |pat| {
        assert ReplaceAll(s, pat, rep) == s;
        assert ReplaceAll(t, pat, rep) == t;
      } else {
        assert !OccursAt(s, pat, 0);
        assert s[..|pat|] != pat by { assert s[0..|pat|] == s[..|pat|]; }
        assert ReplaceAll(s, pat, rep) == [s[0]] + ReplaceAll(s[1..], pat, rep);
        assert s[1..] == x[1..] + t;
        forall i | 0 <= i < |x[1..]| && i + |pat| <= |x[1..] + t|
          ensures !OccursAt(x[1..] + t, pat, i)
        {
          assert (x[1..] + t)[i..i + |pat|] == s[i + 1..i + 1 + |pat|] by {
            assert forall k :: i <= k < i + |pat| ==> (x[1..] + t)[k] == s[k + 1];
          }
          assert !OccursAt(s, pat, i + 1);
        }
        ReplaceAllSkip(x[1..], t, pat, rep);
        assert s[0] == x[0];
        calc {
          ReplaceAll(s, pat, rep);
          [x[0]] + (x[1..] + ReplaceAll(t, pat, rep));
          ([x[0]] + x[1..]) + ReplaceAll(t, pat, rep);
          { assert [x[0]] + x[1..] == x; }
          x + ReplaceAll(t, pat, rep);
        }
      }
    } else {
      assert x + t == t;
    }
  }

  /** A pattern found at the start is replaced. */
  lemma ReplaceAllHead(pat: string, t: string, rep: string)
    requires |pat| > 0
    ensures ReplaceAll(pat + t, pat, rep) == rep + ReplaceAll(t, pat, rep)
  {
    assert (pat + t)[..|pat|] == pat;
    assert (pat + t)[|pat|..] == t;
  }

  /** No occurrence of a pattern starts in `x` when every one of its
      positions shows a character the pattern's first letter is not. */
  lemma NoStartIn(x: string, t: string, pat: string)
    requires |pat| > 0
    requires forall i :: 0 <= i < |x| ==> x[i] != pat[0]
    ensures forall i :: 0 <= i < |x| && i + |pat| <= |x + t| ==> !OccursAt(x + t, pat, i)
  {
    forall i | 0 <= i < |x| && i + |pat| <= |x + t| ensures !OccursAt(x + t, pat, i) {
      assert (x + t)[i..i + |pat|][0] == x[i];
    }
  }

  /** "Thurs" + rest becomes "Thu" + rest when the rest needs no replacing. */
  lemma ReplaceWeekdaysThurs(rest: string)
    requires !Contains(rest, "Thurs") && !Contains(rest, "Tues")
    ensures ReplaceWeekdays("Thurs" + rest) == "Thu" + rest
  {
    ReplaceAllHead("Thurs", rest, "Thu");
    ReplaceAbsent(rest, "Thurs", "Thu");
    // in "Thu" + rest, "Tues" can only start at 0, where an 'h' follows the 'T'
    var s := "Thu" + rest;
    assert s[0] == 'T' && s[1] == 'h' && s[2] == 'u';
    forall i | 0 <= i < 3 && i + 4 <= |s| ensures !OccursAt(s, "Tues", i) {
      assert s[i..i + 4][0] == s[i] && s[i..i + 4][1] == s[i + 1];
    }
    ReplaceAllSkip("Thu", rest, "Tues", "Tue");
    ReplaceAbsent(rest, "Tues", "Tue");
  }

  /** "Tues" + rest becomes "Tue" + rest when the rest needs no replacing. */
  lemma ReplaceWeekdaysTues(rest: string)
    requires !Contains(rest, "Thurs") && !Contains(rest, "Tues")
    ensures ReplaceWeekdays("Tues" + rest) == "Tue" + rest
  {
    var s := "Tues" + rest;
    assert s[0] == 'T' && s[1] == 'u' && s[2] == 'e' && s[3] == 's';
    forall i | 0 <= i < 4 && i + 5 <= |s| ensures !OccursAt(s, "Thurs", i) {
      assert s[i..i + 5][0] == s[i] && s[i..i + 5][1] == s[i + 1];
    }
    ReplaceAllSkip("Tues", rest, "Thurs", "Thu");
    ReplaceAbsent(rest, "Thurs", "Thu");
    ReplaceAllHead("Tues", rest, "Tue");
    ReplaceAbsent(rest, "Tues", "Tue");
  }

  /** A text without a capital T needs no replacing. */
  lemma NoCapitalT(s: string)
    requires 'T' !in s
    ensures !Contains(s, "Thurs") && !Contains(s, "Tues")
  {
    assert s + [] == s;
    NoStartIn(s, [], "Thurs");
    NoStartIn(s, [], "Tues");
  }

  /** The replacement is a raw substring replacement, not a whole-word one:
      "Thursday" loses its "rs". */
  lemma ReplaceWeekdaysInsideWord()
    ensures ReplaceWeekdays("Thursday") == "Thuday"
  {
    NoCapitalT("day");
    ReplaceWeekdaysThurs("day");
  }

  // ---------------------------------------------------------------------
  // Warwick Arts Centre: fix_date_text
  // ---------------------------------------------------------------------

  /** Recurring weekdays, dropped as words of their own. */
  const RepeatedDays: set<string> :=
    {"Mondays", "Tuesdays", "Wednesdays", "Thursdays", "Fridays", "Saturdays", "Sundays"}

  const EnDash: char := '\U{2013}'

  /** A word that survives the filter: no "pm" or "am" anywhere in it, not
      "from" and not a plural weekday. */
  predicate KeepWord(w: string)
  {
    !Contains(w, "pm") && !Contains(w, "am") && w != "from" && w !in RepeatedDays
  }

  /** The list comprehension over the words. */
  function KeepWords(ws: seq<string>): (r: seq<string>)
    ensures |r| <= |ws|
    ensures forall w :: w in r <==> w in ws && KeepWord(w)
  {
    if ws == [] then []
    else if KeepWord(ws[0]) then [ws[0]] + KeepWords(ws[1..])
    else KeepWords(ws[1..])
  }

  /** The filter works word by word: on a concatenation it is the
      filters of the two parts, one after the other, so order and
      repetitions are kept. */
  lemma {:induction false} KeepWordsConcat(a: seq<string>, b: seq<string>)
    ensures KeepWords(a + b) == KeepWords(a) + KeepWords(b)
    decreases |a|
  {
    if a == [] {
      assert a + b == b;
    } else {
      assert (a + b)[0] == a[0] && (a + b)[1..] == a[1..] + b;
      KeepWordsConcat(a[1..], b);
    }
  }

  /** Keeping the words that are kept changes nothing. */
  lemma {:induction false} KeepWordsAllKept(ws: seq<string>)
    requires forall i :: 0 <= i < |ws| ==> KeepWord(ws[i])
    ensures KeepWords(ws) == ws
  {
    if ws != [] {
      KeepWordsAllKept(ws[1..]);
    }
  }

  /** The first step of `fix_date_text`: split into words, drop the
      decorative ones and rejoin with single blanks. */
  function KeptText(txt: string): string
  {
    Join(KeepWords(Words(txt)), " ")
  }

  /** `.split(",")[0].rstrip("-").split("(")[0]`: cut at the first comma,
      drop trailing hyphens, cut at the first parenthesis. */
  function Cut(joined: string): (c: string)
    ensures ',' !in c && '(' !in c
    ensures |c| <= |joined| && c == joined[..|c|]
  {
    var a := Before(joined, ',');
    var b := RStripChar(a, '-');
    var c := Before(b, '(');
    assert ',' !in b by {
      forall i | 0 <= i < |b| ensures b[i] != ',' { assert b[i] == a[i]; }
    }
    c
  }

  /** `.replace("–", "-").rstrip("&")` and the final `.strip()`. */
  function Finish(c: string): (r: string)
    ensures EnDash !in r
    ensures NoEdgeSpace(r)
    ensures ',' !in c ==> ',' !in r
    ensures '(' !in c ==> '(' !in r
  {
    var d := ReplaceAll(c, [EnDash], "-");
    var e := RStripChar(d, '&');
    ReplaceCharRemoves(c, EnDash, "-");
    ReplaceKeepsAbsent(c, [EnDash], "-", ',');
    ReplaceKeepsAbsent(c, [EnDash], "-", '(');
    Strip(e)
  }

  /** `fix_date_text(txt)`: split into words, drop the decorative ones,
      rejoin with single blanks, cut at the first comma, drop trailing
      hyphens, cut at the first parenthesis, turn en dashes into hyphens,
      drop trailing ampersands and strip the ends. */
  function FixDateText(txt: string): (r: string)
    ensures ',' !in r && '(' !in r && EnDash !in r
    ensures NoEdgeSpace(r)
  {
    Finish(Cut(KeptText(txt)))
  }

  /** A character in neither the text nor the replacement is not in the result. */
  lemma {:induction false} ReplaceKeepsAbsent(s: string, pat: string, rep: string, c: char)
    requires |pat| > 0 && c !in rep
    ensures c !in s ==> c !in ReplaceAll(s, pat, rep)
    decreases |s|
  {
    if |s| >= |pat| && c !in s {
      if s[..|pat|] == pat {
        assert c !in s[|pat|..];
        ReplaceKeepsAbsent(s[|pat|..], pat, rep, c);
      } else {
        assert c !in s[1..];
        ReplaceKeepsAbsent(s[1..], pat, rep, c);
      }
    }
  }

  /** No comma, parenthesis or en dash for the later steps of
      `fix_date_text` to cut at, and no trailing hyphen or ampersand for
      them to strip. */
  predicate NothingToCut(s: string)
  {
    && ',' !in s && '(' !in s && EnDash !in s
    && (s != [] ==> s[|s| - 1] != '-' && s[|s| - 1] != '&')
  }

  /** No whitespace at either end. */
  predicate NoEdgeSpace(s: string)
  {
    s == [] || (!IsSpace(s[0]) && !IsSpace(s[|s| - 1]))
  }

  /** Text that is already clean — words that are all kept, separated by
      single blanks, with nothing to cut at or strip — is returned as it is. */
  lemma FixDateTextClean(ws: seq<string>)
    requires forall i :: 0 <= i < |ws| ==> IsWord(ws[i]) && KeepWord(ws[i])
    requires NothingToCut(Join(ws, " "))
    ensures FixDateText(Join(ws, " ")) == Join(ws, " ")
  {
    var s := Join(ws, " ");
    WordsOfJoin(ws);
    KeepWordsAllKept(ws);
    JoinWordsEnds(ws);
    FixDateTextOfKept(s, s);
  }

  /** Once the kept words rejoin to a clean text, the later steps change
      nothing. */
  lemma FixDateTextOfKept(txt: string, s: string)
    requires KeptText(txt) == s
    requires NothingToCut(s) && NoEdgeSpace(s)
    ensures FixDateText(txt) == s
  {
    CutClean(s);
    FinishClean(s);
  }

  /** Text with no comma, no parenthesis and no trailing hyphen goes
      through the cutting unchanged. */
  lemma CutClean(s: string)
    requires ',' !in s && '(' !in s && (s != [] ==> s[|s| - 1] != '-')
    ensures Cut(s) == s
  {
    RStripCharKeeps(s, '-');
  }

  /** Clean text goes through the last steps unchanged. */
  lemma FinishClean(s: string)
    requires NothingToCut(s) && NoEdgeSpace(s)
    ensures Finish(s) == s
  {
    ReplaceCharAbsent(s, EnDash, "-");
    RStripCharKeeps(s, '&');
    StripKeeps(s);
  }

  /** Everything from the first comma on is dropped. */
  lemma FixDateTextComma(txt: string, p: string, q: string)
    requires KeptText(txt) == p + "," + q
    requires NothingToCut(p) && NoEdgeSpace(p)
    ensures FixDateText(txt) == p
  {
    BeforeAt(p + "," + q, ',', p);
    CutClean(p);
    FinishClean(p);
  }

  /** Everything from the first parenthesis on is dropped, whatever
      follows it. */
  lemma FixDateTextParen(txt: string, p: string, q: string)
    requires KeptText(txt) == p + "(" + q
    requires NothingToCut(p) && NoEdgeSpace(p)
    ensures FixDateText(txt) == p
  {
    CutParen(p, q);
    FinishClean(p);
  }

  lemma CutParen(p: string, q: string)
    requires NothingToCut(p)
    ensures Cut(p + "(" + q) == p
  {
    var k := p + "(" + q;
    assert k[|p|] == '(' && k[..|p|] == p;
    var a := Before(k, ',');
    PrefixThrough(k, a, p, '(', ',');
    var b := RStripChar(a, '-');
    PrefixThroughStrip(a, b, p, '(', '-');
    BeforeAt(b, '(', p);
  }

  /** A hyphen left dangling at the end, after the words behind it were
      dropped, is stripped with the blank before it: "Thu 5 Dec -" reads
      as "Thu 5 Dec", which has no "-" for the range rule to split on. */
  lemma FixDateTextTrailingDash(txt: string, p: string)
    requires KeptText(txt) == p + " -"
    requires NothingToCut(p) && NoEdgeSpace(p)
    ensures FixDateText(txt) == p
  {
    CutTrailingDash(p);
    FinishBlankEnd(p);
  }

  /** A trailing "&" is stripped in the same way: "Sat 7 Dec &" reads as
      "Sat 7 Dec". */
  lemma FixDateTextTrailingAmpersand(txt: string, p: string)
    requires KeptText(txt) == p + " &"
    requires NothingToCut(p) && NoEdgeSpace(p)
    ensures FixDateText(txt) == p
  {
    CutTrailingAmpersand(p);
    FinishTrailingAmpersand(p);
  }

  lemma CutTrailingDash(p: string)
    requires NothingToCut(p)
    ensures Cut(p + " -") == p + " "
  {
    var q := p + " ";
    assert p + " -" == q + ['-'];
    assert ',' !in q + ['-'];
    RStripCharOne(q, '-');
  }

  lemma CutTrailingAmpersand(p: string)
    requires NothingToCut(p)
    ensures Cut(p + " &") == p + " &"
  {
    var k := p + " &";
    assert k == (p + " ") + ['&'] && k[|k| - 1] == '&';
    CutClean(k);
  }

  lemma FinishTrailingAmpersand(p: string)
    requires NothingToCut(p) && NoEdgeSpace(p)
    ensures Finish(p + " &") == p
  {
    var q := p + " ";
    var k := p + " &";
    assert k == q + ['&'];
    ReplaceCharAbsent(k, EnDash, "-");
    RStripCharOne(q, '&');
    StripBlankEnd(p);
  }

  /** Stripping `c` from text that ends in exactly one `c`. */
  lemma RStripCharOne(p: string, c: char)
    requires p != [] ==> p[|p| - 1] != c
    ensures RStripChar(p + [c], c) == p
  {
    var s := p + [c];
    assert s[..|s| - 1] == p;
    RStripCharKeeps(p, c);
  }

  /** The last steps turn clean text with one blank behind it into the
      clean text. */
  lemma FinishBlankEnd(p: string)
    requires NothingToCut(p) && NoEdgeSpace(p)
    ensures Finish(p + " ") == p
  {
    var q := p + " ";
    ReplaceCharAbsent(q, EnDash, "-");
    RStripCharKeeps(q, '&');
    StripBlankEnd(p);
  }

  /** Stripping removes a single blank behind text with clean ends. */
  lemma StripBlankEnd(p: string)
    requires NoEdgeSpace(p)
    ensures Strip(p + " ") == p
  {
    var s := p + " ";
    if p == [] {
      assert LStrip(s) == LStrip(s[1..]) && s[1..] == [];
    } else {
      assert s[0] == p[0];
      assert LStrip(s) == s;
      assert s[..|s| - 1] == p;
      assert RStrip(p) == p;
    }
  }

  /** An en dash between two clean sides becomes a hyphen, which is what
      the Warwick's range rule looks for. */
  lemma FixDateTextEnDash(txt: string, a: string, b: string)
    requires KeptText(txt) == a + " " + [EnDash] + " " + b
    requires a != [] && b != []
    requires NothingToCut(a) && NoEdgeSpace(a) && NothingToCut(b) && NoEdgeSpace(b)
    ensures FixDateText(txt) == a + " - " + b
  {
    EnDashJoinUncut(a, b);
    CutClean(a + " " + [EnDash] + " " + b);
    FinishEnDash(a, b);
  }

  lemma EnDashJoinUncut(a: string, b: string)
    requires b != [] && ',' !in a && '(' !in a && ',' !in b && '(' !in b && b[|b| - 1] != '-'
    ensures var k := a + " " + [EnDash] + " " + b; ',' !in k && '(' !in k && k[|k| - 1] != '-'
  {
    var k := a + " " + [EnDash] + " " + b;
    assert k == (a + " " + [EnDash] + " ") + b;
    assert k[|k| - 1] == b[|b| - 1];
  }

  lemma FinishEnDash(a: string, b: string)
    requires a != [] && b != []
    requires NothingToCut(a) && NoEdgeSpace(a) && NothingToCut(b) && NoEdgeSpace(b)
    ensures Finish(a + " " + [EnDash] + " " + b) == a + " - " + b
  {
    var m := " " + [EnDash] + " ";
    var k := a + " " + [EnDash] + " " + b;
    assert k == a + (m + b);
    ReplaceCharConcat(a, m + b, EnDash, "-");
    ReplaceCharConcat(m, b, EnDash, "-");
    ReplaceCharAbsent(a, EnDash, "-");
    ReplaceCharAbsent(b, EnDash, "-");
    assert m == " " + ([EnDash] + " ");
    ReplaceCharConcat(" ", [EnDash] + " ", EnDash, "-");
    ReplaceCharAbsent(" ", EnDash, "-");
    ReplaceAllHead([EnDash], " ", "-");
    assert ReplaceAll(m, [EnDash], "-") == " - ";
    var d := a + " - " + b;
    assert ReplaceAll(k, [EnDash], "-") == d by {
      assert a + (" - " + b) == d;
    }
    assert d[|d| - 1] == b[|b| - 1] && d[0] == a[0];
    RStripCharKeeps(d, '&');
    StripKeeps(d);
  }

  /** The text before a separator that first occurs right after `p`. */
  lemma {:induction false} BeforeAt(s: string, sep: char, p: string)
    requires |p| < |s| && s[..|p|] == p && s[|p|] == sep && sep !in p
    ensures Before(s, sep) == p
    decreases |p|
  {
    if p != [] {
      assert s[0] == p[0];
      assert s[1..][..|p| - 1] == p[1..];
      BeforeAt(s[1..], sep, p[1..]);
    }
  }

  /** Cutting at a character that neither `p` nor the character `x` after
      it holds, or stripping such a character, keeps `p` and `x`. */
  lemma PrefixThrough(s: string, r: string, p: string, x: char, c: char)
    requires |p| < |s| && s[..|p|] == p && s[|p|] == x && c !in p && x != c
    requires |r| <= |s| && r == s[..|r|]
    requires |r| < |s| ==> s[|r|] == c
    ensures |p| < |r| && r[..|p|] == p && r[|p|] == x
  {
  }

  /** Stripping a character off the end stops at a character `x` that is
      not it. */
  lemma PrefixThroughStrip(s: string, r: string, p: string, x: char, c: char)
    requires |p| < |s| && s[..|p|] == p && s[|p|] == x && x != c
    requires |r| <= |s| && r == s[..|r|]
    requires forall i :: |r| <= i < |s| ==> s[i] == c
    ensures |p| < |r| && r[..|p|] == p && r[|p|] == x
  {
  }

  /** Replacing a character works piece by piece. */
  lemma {:induction false} ReplaceCharConcat(x: string, y: string, c: char, rep: string)
    ensures ReplaceAll(x + y, [c], rep) == ReplaceAll(x, [c], rep) + ReplaceAll(y, [c], rep)
    decreases |x|
  {
    if x == [] {
      assert x + y == y;
    } else {
      assert (x + y)[..1] == [x[0]] && x[..1] == [x[0]];
      assert (x + y)[1..] == x[1..] + y;
      ReplaceCharConcat(x[1..], y, c, rep);
    }
  }

  /** Replacing a character that does not occur changes nothing. */
  lemma {:induction false} ReplaceCharAbsent(s: string, c: char, rep: string)
    requires c !in s
    ensures ReplaceAll(s, [c], rep) == s
    decreases |s|
  {
    if s != [] {
      assert s[..1] == [s[0]];
      ReplaceCharAbsent(s[1..], c, rep);
    }
  }

  lemma RStripCharKeeps(s: string, c: char)
    requires s != [] ==> s[|s| - 1] != c
    ensures RStripChar(s, c) == s
  {
  }

  /** A text that neither starts nor ends with whitespace is its own strip. */
  lemma StripKeeps(s: string)
    requires NoEdgeSpace(s)
    ensures Strip(s) == s
  {
    assert LStrip(s) == s;
    assert RStrip(s) == s;
  }

  /** Words joined by blanks neither start nor end with whitespace. */
  lemma {:induction false} JoinWordsEnds(ws: seq<string>)
    requires forall i :: 0 <= i < |ws| ==> IsWord(ws[i])
    ensures NoEdgeSpace(Join(ws, " "))
  {
    if |ws| > 1 {
      assert forall i :: 0 <= i < |ws[1..]| ==> IsWord(ws[1..][i]) by {
        forall i | 0 <= i < |ws[1..]| ensures IsWord(ws[1..][i]) { assert ws[1..][i] == ws[i + 1]; }
      }
      JoinWordsEnds(ws[1..]);
      var rest := Join(ws[1..], " ");
      assert Join(ws, " ") == ws[0] + " " + rest;
      assert IsWord(ws[0]);
    } else if |ws| == 1 {
      assert IsWord(ws[0]);
    }
  }
}
