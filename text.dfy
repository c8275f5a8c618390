/** The handful of Python string operations the ingest code relies on, with
    the semantics of CPython's `str` methods restricted to what the venues'
    date text needs. Case mapping and word characters are ASCII only. */
module Text {

  /** `str.isspace()` and the `\s` class of a `str` regular expression. */
  predicate IsSpace(c: char)
  {
    c == ' ' || c == '\t' || c == '\n' || c == '\r' || c == '\U{000B}' || c == '\U{000C}'
    || ('\U{001C}' <= c <= '\U{001F}') || c == '\U{0085}' || c == '\U{00A0}'
    || c == '\U{1680}' || ('\U{2000}' <= c <= '\U{200A}') || c == '\U{2028}'
    || c == '\U{2029}' || c == '\U{202F}' || c == '\U{205F}' || c == '\U{3000}'
  }

  predicate IsDigit(c: char) { '0' <= c <= '9' }

  predicate IsUpper(c: char) { 'A' <= c <= 'Z' }

  predicate IsLower(c: char) { 'a' <= c <= 'z' }

  /** `\w` of a regular expression, restricted to ASCII. */
  predicate IsWordChar(c: char) { IsDigit(c) || IsUpper(c) || IsLower(c) || c == '_' }

  function LowerChar(c: char): (r: char)
    ensures !IsUpper(r)
    ensures IsUpper(c) || r == c
    ensures IsSpace(r) <==> IsSpace(c)
    ensures IsDigit(r) <==> IsDigit(c)
  {
    if IsUpper(c) then (c as int - 'A' as int + 'a' as int) as char else c
  }

  function UpperChar(c: char): (r: char)
    ensures !IsLower(r)
    ensures IsLower(c) || r == c
    ensures IsLower(c) ==> IsUpper(r) && LowerChar(r) == c
    ensures IsSpace(r) <==> IsSpace(c)
  {
    if IsLower(c) then (c as int - 'a' as int + 'A' as int) as char else c
  }

  /** `str.lower()`. */
  function Lower(s: string): (r: string)
    ensures |r| == |s|
    ensures forall i :: 0 <= i < |s| ==> r[i] == LowerChar(s[i])
  {
    if s == [] then [] else [LowerChar(s[0])] + Lower(s[1..])
  }

  /** No upper-case letter: `Lower` leaves such a string alone. */
  predicate NoUpper(s: string)
  {
    forall i :: 0 <= i < |s| ==> !IsUpper(s[i])
  }

  lemma LowerNoUpper(s: string)
    requires NoUpper(s)
    ensures Lower(s) == s
  {
  }

  lemma LowerAppend(a: string, b: string)
    ensures Lower(a + b) == Lower(a) + Lower(b)
  {
    forall i | 0 <= i < |a + b|
      ensures Lower(a + b)[i] == (Lower(a) + Lower(b))[i]
    {
      if i < |a| {
        assert (a + b)[i] == a[i];
      } else {
        assert (a + b)[i] == b[i - |a|];
      }
    }
  }

  /** Lowering a slice is slicing the lowered text. */
  lemma LowerSlice(s: string, i: nat, j: nat)
    requires i <= j <= |s|
    ensures Lower(s)[i..j] == Lower(s[i..j])
  {
    assert forall k :: 0 <= k < j - i ==> Lower(s)[i..j][k] == Lower(s[i..j])[k];
  }

  /** `str.lstrip()`: drops the leading run of whitespace. */
  function LStrip(s: string): (r: string)
    ensures |r| <= |s| && r == s[|s| - |r|..]
    ensures r == [] || !IsSpace(r[0])
    ensures forall i :: 0 <= i < |s| - |r| ==> IsSpace(s[i])
  {
    if s != [] && IsSpace(s[0]) then
      var r := LStrip(s[1..]);
      SuffixOfTail(s, r);
      r
    else s
  }

  /** A suffix of `s[1..]` is a suffix of `s`, past the characters before it. */
  lemma SuffixOfTail<T>(s: seq<T>, r: seq<T>)
    requires s != [] && |r| <= |s| - 1 && r == s[1..][|s| - 1 - |r|..]
    ensures r == s[|s| - |r|..]
    ensures forall i :: 1 <= i < |s| - |r| ==> s[i] == s[1..][i - 1]
  {
  }

  /** `str.rstrip()`: drops the trailing run of whitespace. */
  function RStrip(s: string): (r: string)
    ensures |r| <= |s| && r == s[..|r|]
    ensures r == [] || !IsSpace(r[|r| - 1])
    ensures forall i :: |r| <= i < |s| ==> IsSpace(s[i])
  {
    if s != [] && IsSpace(s[|s| - 1]) then
      var r := RStrip(s[..|s| - 1]);
      PrefixOfInit(s, r);
      r
    else s
  }

  /** A prefix of `s[..|s| - 1]` is a prefix of `s`. */
  lemma PrefixOfInit<T>(s: seq<T>, r: seq<T>)
    requires s != [] && |r| <= |s| - 1 && r == s[..|s| - 1][..|r|]
    ensures r == s[..|r|]
    ensures forall i :: |r| <= i < |s| - 1 ==> s[i] == s[..|s| - 1][i]
  {
  }

  /** `str.strip()`. */
  function Strip(s: string): (r: string)
    ensures r == [] || (!IsSpace(r[0]) && !IsSpace(r[|r| - 1]))
    ensures forall c :: c in r ==> c in s
  {
    var l := LStrip(s);
    var r := RStrip(l);
    InnerMembers(s, l, r);
    r
  }

  /** What is kept of a text after cutting both ends comes from the text. */
  lemma InnerMembers<T>(s: seq<T>, l: seq<T>, r: seq<T>)
    requires |l| <= |s| && l == s[|s| - |l|..]
    requires |r| <= |l| && r == l[..|r|]
    ensures forall c :: c in r ==> c in s
  {
    forall c | c in r
      ensures c in s
    {
      var i :| 0 <= i < |r| && r[i] == c;
      assert s[|s| - |l| + i] == c;
    }
  }

  /** `str.rstrip(c)` for a one-character argument. */
  function RStripChar(s: string, c: char): (r: string)
    ensures |r| <= |s| && r == s[..|r|]
    ensures r == [] || r[|r| - 1] != c
    ensures forall i :: |r| <= i < |s| ==> s[i] == c
  {
    if s != [] && s[|s| - 1] == c then
      var r := RStripChar(s[..|s| - 1], c);
      PrefixOfInit(s, r);
      r
    else s
  }

  /** `sep.join(parts)`. */
  function Join(parts: seq<string>, sep: string): string
  {
    if parts == [] then []
    else if |parts| == 1 then parts[0]
    else parts[0] + sep + Join(parts[1..], sep)
  }

  /** `s.split(sep)` for a one-character separator: every occurrence separates,
      empty pieces are kept, and there is always at least one piece. */
  function Split(s: string, sep: char): (parts: seq<string>)
    ensures |parts| >= 1
    ensures forall i :: 0 <= i < |parts| ==> sep !in parts[i]
    ensures Join(parts, [sep]) == s
    ensures sep in s <==> |parts| >= 2
  {
    if s == [] then [""]
    else
      var rest := Split(s[1..], sep);
      if s[0] == sep then
        assert s == [sep] + s[1..];
        [""] + rest
      else
        var parts := [[s[0]] + rest[0]] + rest[1..];
        JoinPrepend(s[0], rest, [sep]);
        assert s == [s[0]] + s[1..];
        assert sep in s ==> sep in s[1..] by {
          if sep in s { var k :| 0 <= k < |s| && s[k] == sep; assert k != 0; assert s[1..][k - 1] == sep; }
        }
        parts
  }

  /** A character put before the first piece is put before the joined text. */
  lemma JoinPrepend(c: char, parts: seq<string>, sep: string)
    requires |parts| >= 1
    ensures Join([[c] + parts[0]] + parts[1..], sep) == [c] + Join(parts, sep)
  {
    var q := [[c] + parts[0]] + parts[1..];
    assert q[0] == [c] + parts[0] && q[1..] == parts[1..];
    if |parts| > 1 {
      ConcatAssoc([c], parts[0], sep + Join(parts[1..], sep));
      ConcatAssoc(parts[0], sep, Join(parts[1..], sep));
      ConcatAssoc([c] + parts[0], sep, Join(parts[1..], sep));
    }
  }

  /** The piece before the first separator: `s.split(sep)[0]`. */
  function Before(s: string, sep: char): (r: string)
    ensures sep !in r
    ensures |r| <= |s| && r == s[..|r|]
    ensures |r| < |s| ==> s[|r|] == sep
    ensures sep !in s ==> r == s
  {
    if s == [] || s[0] == sep then [] else [s[0]] + Before(s[1..], sep)
  }

  lemma {:induction false} SplitFirst(s: string, sep: char)
    ensures Split(s, sep)[0] == Before(s, sep)
  {
    if s != [] && s[0] != sep {
      SplitFirst(s[1..], sep);
    }
  }

  /** Past the first separator, `s.split(sep)` goes on as the split of
      what follows it. */
  lemma {:induction false} SplitRest(s: string, sep: char)
    requires sep in s
    ensures |Before(s, sep)| < |s|
    ensures Split(s, sep)[1..] == Split(s[|Before(s, sep)| + 1..], sep)
    decreases |s|
  {
    if s[0] != sep {
      assert sep in s[1..] by {
        var k :| 0 <= k < |s| && s[k] == sep;
        assert s[1..][k - 1] == sep;
      }
      SplitRest(s[1..], sep);
      assert s[|Before(s, sep)| + 1..] == s[1..][|Before(s[1..], sep)| + 1..];
    }
  }

  /** `s.split(sep)[1]` is the text between the first and the second
      separator (or the end). */
  lemma SplitSecond(s: string, sep: char)
    requires sep in s
    ensures |Before(s, sep)| < |s|
    ensures Split(s, sep)[1] == Before(s[|Before(s, sep)| + 1..], sep)
  {
    SplitRest(s, sep);
    var t := s[|Before(s, sep)| + 1..];
    SplitFirst(t, sep);
    assert Split(s, sep)[1] == Split(s, sep)[1..][0];
  }

  /** `pat in s` for strings. */
  predicate Contains(s: string, pat: string)
  {
    exists i :: 0 <= i <= |s| - |pat| && OccursAt(s, pat, i)
  }

  predicate OccursAt(s: string, pat: string, i: int)
    requires 0 <= i <= |s| - |pat|
  {
    s[i..i + |pat|] == pat
  }

  /** `s.replace(pat, rep)`: leftmost, non-overlapping occurrences, scanning
      from the left and resuming after each replaced occurrence. */
  function ReplaceAll(s: string, pat: string, rep: string): (r: string)
    requires |pat| > 0
    ensures |rep| <= |pat| ==> |r| <= |s|
    decreases |s|
  {
    if |s| < |pat| then s
    else if s[..|pat|] == pat then rep + ReplaceAll(s[|pat|..], pat, rep)
    else [s[0]] + ReplaceAll(s[1..], pat, rep)
  }

  /** Replacing a pattern that never occurs leaves the text as it was. */
  lemma {:induction false} ReplaceAbsent(s: string, pat: string, rep: string)
    requires |pat| > 0
    requires !Contains(s, pat)
    ensures ReplaceAll(s, pat, rep) == s
    decreases |s|
  {
    if |s| >= |pat| {
      assert !OccursAt(s, pat, 0);
      assert s[..|pat|] != pat;
      assert !Contains(s[1..], pat) by {
        if Contains(s[1..], pat) {
          var i :| 0 <= i <= |s[1..]| - |pat| && OccursAt(s[1..], pat, i);
          assert s[1..][i..i + |pat|] == s[i + 1..i + 1 + |pat|];
          assert OccursAt(s, pat, i + 1);
        }
      }
      ReplaceAbsent(s[1..], pat, rep);
      assert s == [s[0]] + s[1..];
    }
  }

  /** Replacing one character by a string without it removes every occurrence. */
  lemma {:induction false} ReplaceCharRemoves(s: string, c: char, rep: string)
    requires c !in rep
    ensures c !in ReplaceAll(s, [c], rep)
    decreases |s|
  {
    if |s| >= 1 {
      ReplaceCharRemoves(s[1..], c, rep);
    }
  }

  /** Longest prefix of `s` made of non-whitespace characters. */
  function WordPrefix(s: string): (w: string)
    ensures |w| <= |s| && w == s[..|w|]
    ensures forall i :: 0 <= i < |w| ==> !IsSpace(w[i])
    ensures |w| == |s| || IsSpace(s[|w|])
    ensures s != [] && !IsSpace(s[0]) ==> w != []
  {
    if s == [] || IsSpace(s[0]) then [] else [s[0]] + WordPrefix(s[1..])
  }

  /** A piece of `str.split()` output: not empty, no whitespace in it. */
  ghost predicate IsWord(w: string)
  {
    w != [] && forall i :: 0 <= i < |w| ==> !IsSpace(w[i])
  }

  /** Nothing but whitespace. */
  predicate Blank(g: string)
  {
    forall i :: 0 <= i < |g| ==> IsSpace(g[i])
  }

  /** `s.split()` with no argument: maximal runs of non-whitespace. */
  function Words(s: string): (ws: seq<string>)
    ensures forall i :: 0 <= i < |ws| ==> IsWord(ws[i])
    ensures ws == [] <==> Blank(s)
    decreases |s|
  {
    var t := LStrip(s);
    if t == [] then []
    else
      var w := WordPrefix(t);
      var rest := Words(t[|w|..]);
      WordsCons(w, rest);
      assert !IsSpace(s[|s| - |t|]);
      [w] + rest
  }

  /** Words laid out between runs of whitespace:
      `gaps[0] + ws[0] + gaps[1] + ... + ws[n - 1] + gaps[n]`. */
  function Weave(gaps: seq<string>, ws: seq<string>): string
    requires |gaps| == |ws| + 1
    decreases |ws|
  {
    if ws == [] then gaps[0] else gaps[0] + ws[0] + Weave(gaps[1..], ws[1..])
  }

  /** `split()` finds exactly the words of any text laid out as words
      between runs of whitespace, the inner runs not empty: every text has
      such a layout, so this pins the words down. */
  lemma {:induction false} WordsOfWeave(gaps: seq<string>, ws: seq<string>)
    requires |gaps| == |ws| + 1
    requires forall i :: 0 <= i < |gaps| ==> Blank(gaps[i])
    requires forall i :: 0 < i < |ws| ==> gaps[i] != []
    requires forall i :: 0 <= i < |ws| ==> IsWord(ws[i])
    ensures Words(Weave(gaps, ws)) == ws
    decreases |ws|
  {
    if ws == [] {
      assert Blank(gaps[0]);
    } else {
      var rest := Weave(gaps[1..], ws[1..]);
      WeaveTail(gaps, ws);
      WordsOfWeave(gaps[1..], ws[1..]);
      WordsAfterGap(gaps[0], ws[0], rest);
      HeadTail(ws);
    }
  }

  /** Whitespace, a word, then nothing or text that starts with whitespace:
      the word, then the words of the rest. */
  lemma WordsAfterGap(g: string, w: string, rest: string)
    requires Blank(g) && IsWord(w)
    requires rest == [] || IsSpace(rest[0])
    ensures Words(g + (w + rest)) == [w] + Words(rest)
  {
    LStripBlank(g, w + rest);
    WordsOfSameStrip(g + (w + rest), w + rest);
    WordsAfterWordOf(w, rest);
  }

  /** What follows the first word of a layout is a layout too, and it is
      empty or starts with whitespace. */
  lemma WeaveTail(gaps: seq<string>, ws: seq<string>)
    requires |gaps| == |ws| + 1 && ws != []
    requires forall i :: 0 <= i < |gaps| ==> Blank(gaps[i])
    requires forall i :: 0 < i < |ws| ==> gaps[i] != []
    requires forall i :: 0 <= i < |ws| ==> IsWord(ws[i])
    ensures forall i :: 0 <= i < |gaps[1..]| ==> Blank(gaps[1..][i])
    ensures forall i :: 0 < i < |ws[1..]| ==> gaps[1..][i] != []
    ensures forall i :: 0 <= i < |ws[1..]| ==> IsWord(ws[1..][i])
    ensures var rest := Weave(gaps[1..], ws[1..]); rest == [] || IsSpace(rest[0])
    ensures Weave(gaps, ws) == gaps[0] + (ws[0] + Weave(gaps[1..], ws[1..]))
    ensures Blank(gaps[0]) && IsWord(ws[0])
  {
    var rest := Weave(gaps[1..], ws[1..]);
    assert Blank(gaps[1]);
    if |ws| > 1 {
      assert gaps[1] != [];
      assert rest == gaps[1] + ws[1] + Weave(gaps[1..][1..], ws[1..][1..]);
      assert rest[0] == gaps[1][0];
    }
  }

  /** Leading whitespace makes no difference to `lstrip()`. */
  lemma {:induction false} LStripBlank(g: string, x: string)
    requires Blank(g)
    ensures LStrip(g + x) == LStrip(x)
    decreases |g|
  {
    if g != [] {
      assert (g + x)[1..] == g[1..] + x;
      LStripBlank(g[1..], x);
    } else {
      assert g + x == x;
    }
  }

  /** A word, then nothing or text that starts with whitespace: the word,
      then the words of the rest. */
  lemma WordsAfterWordOf(w: string, rest: string)
    requires IsWord(w)
    requires rest == [] || IsSpace(rest[0])
    ensures Words(w + rest) == [w] + Words(rest)
  {
    var s := w + rest;
    assert s[0] == w[0];
    if rest == [] {
      assert s == w;
      WordPrefixWhole(w);
    } else {
      WordPrefixOf(w, rest);
    }
    WordsUnfold(s);
    assert s[|w|..] == rest;
  }

  lemma WordsCons(w: string, rest: seq<string>)
    requires IsWord(w)
    requires forall i :: 0 <= i < |rest| ==> IsWord(rest[i])
    ensures forall i :: 0 <= i < |[w] + rest| ==> IsWord(([w] + rest)[i])
  {
    forall i | 0 <= i < |[w] + rest|
      ensures IsWord(([w] + rest)[i])
    {
      if i > 0 { assert ([w] + rest)[i] == rest[i - 1]; }
    }
  }

  /** Splitting words joined by single spaces gives the same words back. */
  lemma {:induction false} WordsOfJoin(ws: seq<string>)
    requires forall i :: 0 <= i < |ws| ==> IsWord(ws[i])
    ensures Words(Join(ws, " ")) == ws
  {
    if ws == [] {
    } else if |ws| == 1 {
      var w := ws[0];
      assert Join(ws, " ") == w;
      WordPrefixWhole(w);
      WordsUnfold(w);
      assert w[|w|..] == [];
    } else {
      var w := ws[0];
      var tail := ws[1..];
      var rest := Join(tail, " ");
      assert Join(ws, " ") == w + (" " + rest);
      assert forall i :: 0 <= i < |tail| ==> IsWord(tail[i]) by {
        forall i | 0 <= i < |tail| ensures IsWord(tail[i]) { assert tail[i] == ws[i + 1]; }
      }
      WordsOfJoin(tail);
      WordsAfterWord(w, rest);
      HeadTail(ws);
    }
  }

  lemma HeadTail<T>(xs: seq<T>)
    requires xs != []
    ensures xs == [xs[0]] + xs[1..]
  {
  }

  lemma PrefixOfConcat<T>(a: seq<T>, b: seq<T>)
    ensures (a + b)[0..|a|] == a && (a + b)[|a|..] == b
  {
  }

  lemma ConcatAssoc<T>(x: seq<T>, y: seq<T>, z: seq<T>)
    ensures x + (y + z) == (x + y) + z
  {
  }

  /** Cutting `a + t` inside `a`. */
  lemma ConcatCut<T>(a: seq<T>, t: seq<T>, k: nat)
    requires k <= |a|
    ensures (a + t)[..k] == a[..k] && (a + t)[k..] == a[k..] + t
  {
  }

  /** A stretch of `s` that holds `p + r` holds `p`, then `r`. */
  lemma SplitSlice<T>(s: seq<T>, i: nat, p: seq<T>, r: seq<T>)
    requires i + |p| + |r| <= |s| && s[i..i + |p| + |r|] == p + r
    ensures s[i..i + |p|] == p
    ensures s[i + |p|..i + |p| + |r|] == r
  {
    assert s[i..i + |p|] == (p + r)[..|p|];
    assert s[i + |p|..i + |p| + |r|] == (p + r)[|p|..];
  }

  /** A word, a blank, then more text: the word, then the words of the rest. */
  lemma WordsAfterWord(w: string, rest: string)
    requires IsWord(w)
    ensures Words(w + (" " + rest)) == [w] + Words(rest)
  {
    var s := w + (" " + rest);
    assert s[0] == w[0];
    WordPrefixOf(w, " " + rest);
    WordsUnfold(s);
    assert s[|w|..] == " " + rest;
    WordsLeadingSpace(rest);
  }

  lemma WordsUnfold(s: string)
    requires s != [] && !IsSpace(s[0])
    ensures Words(s) == [WordPrefix(s)] + Words(s[|WordPrefix(s)|..])
  {
    assert LStrip(s) == s;
  }

  lemma WordsLeadingSpace(s: string)
    ensures Words(" " + s) == Words(s)
  {
    LStripLeadingSpace(s);
    WordsOfSameStrip(" " + s, s);
  }

  lemma LStripLeadingSpace(s: string)
    ensures LStrip(" " + s) == LStrip(s)
  {
    assert (" " + s)[1..] == s;
  }

  /** `split()` only looks at what `lstrip()` leaves. */
  lemma WordsOfSameStrip(a: string, b: string)
    requires LStrip(a) == LStrip(b)
    ensures Words(a) == Words(b)
  {
  }

  lemma JoinHead(ws: seq<string>, sep: string)
    requires ws != [] && ws[0] != []
    ensures Join(ws, sep) != [] && Join(ws, sep)[0] == ws[0][0]
  {
  }

  lemma {:induction false} WordPrefixWhole(w: string)
    requires forall i :: 0 <= i < |w| ==> !IsSpace(w[i])
    ensures WordPrefix(w) == w
  {
    if w != [] { WordPrefixWhole(w[1..]); }
  }

  lemma {:induction false} WordPrefixOf(w: string, t: string)
    requires forall i :: 0 <= i < |w| ==> !IsSpace(w[i])
    requires t != [] && IsSpace(t[0])
    ensures WordPrefix(w + t) == w
  {
    if w != [] {
      assert (w + t)[1..] == w[1..] + t;
      WordPrefixOf(w[1..], t);
    } else {
      assert w + t == t;
    }
  }

  /** A one-character string of a decimal digit. */
  function DigitChar(d: nat): (c: char)
    requires d < 10
    ensures IsDigit(c) && c as int == '0' as int + d
  {
    ('0' as int + d) as char
  }

  function DigitValue(c: char): (d: nat)
    requires IsDigit(c)
    ensures d < 10 && DigitChar(d) == c
    ensures d == c as int - '0' as int
  {
    c as int - '0' as int
  }

  /** `str(n)` for a non-negative integer. */
  function NatStr(n: nat): (s: string)
    ensures s != []
    ensures forall i :: 0 <= i < |s| ==> IsDigit(s[i])
  {
    if n < 10 then [DigitChar(n)] else NatStr(n / 10) + [DigitChar(n % 10)]
  }

  /** `int(s)` for a string of ASCII digits. */
  function DigitsValue(s: string): (n: nat)
    requires forall i :: 0 <= i < |s| ==> IsDigit(s[i])
  {
    if s == [] then 0 else 10 * DigitsValue(s[..|s| - 1]) + DigitValue(s[|s| - 1])
  }

  /** `int(str(n)) == n`. */
  lemma {:induction false} NatStrValue(n: nat)
    ensures DigitsValue(NatStr(n)) == n
  {
    if n >= 10 {
      NatStrValue(n / 10);
      var s := NatStr(n);
      assert s[..|s| - 1] == NatStr(n / 10);
    }
  }

  /** A year in 1000..9999 prints as exactly four digits. */
  lemma NatStrFourDigits(n: nat)
    requires 1000 <= n <= 9999
    ensures |NatStr(n)| == 4
  {
    var a := n / 10;
    var b := a / 10;
    assert 100 <= a <= 999 && 10 <= b <= 99 && 1 <= b / 10 <= 9;
    NatStrGrows(n);
    NatStrGrows(a);
    NatStrGrows(b);
  }

  /** One more digit for every factor of ten. */
  lemma NatStrGrows(n: nat)
    requires n >= 10
    ensures |NatStr(n)| == |NatStr(n / 10)| + 1
  {
  }

  /** `str.capitalize()`: first character upper case, the rest lower case. */
  function Capitalize(w: string): (r: string)
    ensures |r| == |w|
    ensures r != [] ==> r[0] == UpperChar(w[0]) && !IsLower(r[0]) && (IsLower(w[0]) || r[0] == w[0])
    ensures forall i :: 1 <= i < |r| ==> r[i] == LowerChar(w[i])
    ensures forall i :: 0 <= i < |r| ==> (IsSpace(r[i]) <==> IsSpace(w[i]))
  {
    if w == [] then [] else [UpperChar(w[0])] + Lower(w[1..])
  }
}
