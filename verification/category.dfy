/** The category helpers of utils/utils.py: which region of a page holds the
    category label, which words lie in it, how the label is normalised, and
    the issue number taken from a directory name. */
module CategoryRegions {
  import opened Results
  import opened Text
  import opened PageContent

  /** One entry of `page.get_text("words")`: its box and its text. */
  datatype Word = Word(x0: real, y0: real, x1: real, y1: real, text: string)

  /** All four coordinates of the word lie in the rectangle, borders included. */
  predicate Inside(w: Word, r: Rect)
  {
    && r.x0 <= w.x0 <= r.x1 && r.y0 <= w.y0 <= r.y1
    && r.x0 <= w.x1 <= r.x1 && r.y0 <= w.y1 <= r.y1
  }

  /** The loop of `_check_for_word_in_rect` (lines 199-207): `acc` is `text_in_rect`. */
  function CollectFrom(words: seq<Word>, r: Rect, acc: string): string
    decreases |words|
  {
    if words == [] then acc
    else if Inside(words[0], r) then CollectFrom(words[1..], r, acc + words[0].text + " ")
    else CollectFrom(words[1..], r, acc)
  }

  /** `_check_for_word_in_rect`: the collected text, stripped (line 209). */
  function WordsInRect(words: seq<Word>, r: Rect): string
  {
    Strip(CollectFrom(words, r, []))
  }

  /** Independent description: the texts of the words inside, in input order. */
  function Kept(words: seq<Word>, r: Rect): (ts: seq<string>)
    ensures |ts| <= |words|
  {
    if words == [] then []
    else (if Inside(words[0], r) then [words[0].text] else []) + Kept(words[1..], r)
  }

  /** Every text followed by one blank. */
  function Spaced(ts: seq<string>): string
  {
    if ts == [] then [] else ts[0] + " " + Spaced(ts[1..])
  }

  lemma {:induction false} CollectSpaced(words: seq<Word>, r: Rect, acc: string)
    ensures CollectFrom(words, r, acc) == acc + Spaced(Kept(words, r))
  {
    if words != [] {
      var rest := Kept(words[1..], r);
      if Inside(words[0], r) {
        CollectSpaced(words[1..], r, acc + words[0].text + " ");
        assert Kept(words, r) == [words[0].text] + rest;
        assert ([words[0].text] + rest)[1..] == rest;
      } else {
        CollectSpaced(words[1..], r, acc);
        assert Kept(words, r) == rest;
      }
    }
  }

  lemma {:induction false} SpacedJoin(ts: seq<string>)
    ensures Spaced(ts) == if ts == [] then [] else JoinWith(ts, " ") + " "
  {
    if |ts| >= 2 {
      SpacedJoin(ts[1..]);
    }
  }

  /** The words inside the rectangle, joined by single blanks in input order and
      stripped. */
  lemma WordsInRectJoined(words: seq<Word>, r: Rect)
    ensures WordsInRect(words, r) == Strip(JoinWith(Kept(words, r), " "))
  {
    CollectSpaced(words, r, []);
    assert [] + Spaced(Kept(words, r)) == Spaced(Kept(words, r));
    SpacedJoin(Kept(words, r));
    if Kept(words, r) != [] {
      StripAppendSpace(JoinWith(Kept(words, r), " "));
    }
  }

  /** The region at the top of the page (lines 139-141): a band 30 to 60 points
      from the top, at the right edge for even page indexes (right-hand pages)
      and at the left edge for odd ones. */
  function TopRect(i: nat): (r: Rect)
    ensures 0.0 <= r.x0 < r.x1 <= 580.0 && r.y0 == 30.0 && r.y1 == 60.0
    ensures i % 2 == 0 <==> r.x0 >= 290.0
  {
    if i % 2 == 0 then Rect(400.0, 30.0, 580.0, 60.0) else Rect(60.0, 30.0, 200.0, 60.0)
  }

  /** The region at the side of the page (lines 154-156): a column from 55
      points down, overlapping the lower edge of the top band, on the same side
      of the page as the top region. */
  function SideRect(i: nat): (r: Rect)
    ensures 0.0 <= r.x0 < r.x1 <= 580.0 && r.y0 == 55.0 && r.y0 < TopRect(i).y1 < r.y1
    ensures i % 2 == 0 <==> r.x0 >= 290.0
  {
    if i % 2 == 0 then Rect(450.0, 55.0, 580.0, 350.0) else Rect(10.0, 55.0, 80.0, 450.0)
  }

  const NoCategory: string := "Keine Kategorie gefunden"

  /** Lines 167-171: lowercase the label, and collapse any label that mentions
      editorial to exactly "editorial". */
  function Normalise(t: string): (r: string)
    ensures |t| > 0 ==> r != []
    ensures forall k :: 0 <= k < |r| ==> !('A' <= r[k] <= 'Z')
    ensures Contains(Lower(t), "editorial") ==> r == "editorial"
    ensures !Contains(Lower(t), "editorial") ==> r == Lower(t)
    ensures Contains(r, "editorial") ==> r == "editorial"
  {
    var lowered := Lower(t);
    if Contains(lowered, "editorial") then "editorial" else lowered
  }

  /** `identify_category(page, i, ...)` on the words of the page. The label comes
      from the top region; the side region is consulted only when the top one
      is empty; with neither the fallback is used. */
  function IdentifyCategory(words: seq<Word>, i: nat): (r: string)
    ensures r != []
    ensures forall k :: 0 <= k < |r| ==> !('A' <= r[k] <= 'Z')
    ensures WordsInRect(words, TopRect(i)) != [] ==> r == Normalise(WordsInRect(words, TopRect(i)))
    ensures WordsInRect(words, TopRect(i)) == [] && WordsInRect(words, SideRect(i)) != [] ==>
              r == Normalise(WordsInRect(words, SideRect(i)))
    ensures WordsInRect(words, TopRect(i)) == [] && WordsInRect(words, SideRect(i)) == [] ==>
              r == "keine kategorie gefunden"
  {
    var top := WordsInRect(words, TopRect(i));
    var text := if top != [] then top else WordsInRect(words, SideRect(i));
    if text != [] then Normalise(text)
    else
      FallbackLabel();
      Normalise(NoCategory)
  }

  /** A character of the pattern that the text lacks rules the pattern out. */
  lemma {:induction false} MissingChar(s: string, pat: string, c: char)
    requires c in pat && c !in s
    ensures !Contains(s, pat)
    decreases |s|
  {
    if s != [] {
      MissingChar(s[1..], pat, c);
    }
  }

  lemma LowerNoCategory()
    ensures Lower(NoCategory) == "keine kategorie gefunden"
  {
  }

  /** The fallback label normalises to itself lowercased: it does not mention
      editorial (it has no 'l'). */
  lemma FallbackLabel()
    ensures Normalise(NoCategory) == "keine kategorie gefunden"
  {
    LowerNoCategory();
    MissingChar("keine kategorie gefunden", "editorial", 'l');
  }

  /** The longest prefix made of digits. */
  function DigitRunLength(s: string): (n: nat)
    ensures n <= |s|
    ensures forall k :: 0 <= k < n ==> IsDigit(s[k])
    ensures n == |s| || !IsDigit(s[n])
  {
    if s == [] || !IsDigit(s[0]) then 0 else 1 + DigitRunLength(s[1..])
  }

  /** `re.findall(r"\d+", s)`: the maximal digit runs, left to right. */
  function DigitRuns(s: string): (runs: seq<string>)
    ensures forall k :: 0 <= k < |runs| ==> IsDecimal(runs[k])
    decreases |s|
  {
    if s == [] then []
    else if !IsDigit(s[0]) then DigitRuns(s[1..])
    else
      var n := DigitRunLength(s);
      [s[..n]] + DigitRuns(s[n..])
  }

  /** `extract_version_number(name)` (lines 261-268). */
  function ExtractVersionNumber(name: string): (r: Result<nat>)
    ensures r.Err? ==> r.error.ValueError?
  {
    var runs := DigitRuns(name);
    if |runs| != 1 then Err(ValueError("The directory name does not contain exactly one number."))
    else Ok(DecimalValue(runs[0]))
  }

  predicate DigitFree(s: string)
  {
    forall k :: 0 <= k < |s| ==> !IsDigit(s[k])
  }

  lemma {:induction false} RunsAfterDigitFree(a: string, t: string)
    requires DigitFree(a)
    ensures DigitRuns(a + t) == DigitRuns(t)
  {
    if a != [] {
      assert (a + t)[1..] == a[1..] + t;
      assert !IsDigit((a + t)[0]);
      assert DigitRuns(a + t) == DigitRuns((a + t)[1..]);
      RunsAfterDigitFree(a[1..], t);
    } else {
      assert a + t == t;
    }
  }

  lemma {:induction false} RunLengthOf(d: string, t: string)
    requires forall k :: 0 <= k < |d| ==> IsDigit(d[k])
    requires t == [] || !IsDigit(t[0])
    ensures DigitRunLength(d + t) == |d|
  {
    if d != [] {
      assert (d + t)[1..] == d[1..] + t;
      RunLengthOf(d[1..], t);
    }
  }

  /** A maximal run contributes itself as one element. */
  lemma {:induction false} RunsOfRun(d: string, t: string)
    requires IsDecimal(d)
    requires t == [] || !IsDigit(t[0])
    ensures DigitRuns(d + t) == [d] + DigitRuns(t)
  {
    RunLengthOf(d, t);
    assert (d + t)[..|d|] == d;
    assert (d + t)[|d|..] == t;
  }

  /** A name with exactly one digit run yields that run's value. */
  lemma VersionOfSingleRun(a: string, d: string, b: string)
    requires DigitFree(a) && IsDecimal(d) && DigitFree(b)
    ensures ExtractVersionNumber(a + d + b) == Ok(DecimalValue(d))
  {
    assert a + d + b == a + (d + b);
    RunsAfterDigitFree(a, d + b);
    RunsOfRun(d, b);
    RunsAfterDigitFree(b, []);
    assert b + [] == b;
  }

  /** A name without digits is rejected. */
  lemma VersionWithoutDigits(a: string)
    requires DigitFree(a)
    ensures ExtractVersionNumber(a).Err?
  {
    RunsAfterDigitFree(a, []);
    assert a + [] == a;
  }

  /** A name with two separate digit runs is rejected, whatever follows them. */
  lemma VersionOfTwoRuns(a: string, d1: string, m: string, d2: string, t: string)
    requires DigitFree(a) && IsDecimal(d1) && m != [] && DigitFree(m) && IsDecimal(d2)
    ensures ExtractVersionNumber(a + d1 + m + d2 + t).Err?
  {
    var rest := m + d2 + t;
    assert a + d1 + m + d2 + t == a + (d1 + rest);
    RunsAfterDigitFree(a, d1 + rest);
    RunsOfRun(d1, rest);
    assert rest == m + (d2 + t);
    RunsAfterDigitFree(m, d2 + t);
    assert DigitRuns(d2 + t) != [] by {
      assert IsDigit((d2 + t)[0]);
    }
  }
}
