/** Per-page typographic signals of utils/parser_augustin.py (lines 122-195):
    which spans are start markers (drop capitals), how many end glyphs the page
    carries, and which spans are headlines. */
module SpanSignals {
  import opened Results
  import opened Text
  import opened Hex
  import opened PageContent

  /** The end-of-article glyph "■" (U+25A0). */
  const EndGlyph: char := '\U{25A0}'

  /** The bold display face that marks a headline whatever its size. */
  const BoldFace: string := "AmasisMTStd-Bold"

  /** The colour test of lines 150-153 as written: the span's `#%06x` code is
      the dark brown or the black of body text. */
  predicate BodyInkCode(color: int)
  {
    var code := FormatHex06(color);
    code == "#2e2013" || code == "#000000"
  }

  /** Body ink as two integers; the classifier below uses this form, which
      `BodyInkColours` proves equal to the string test of the source. */
  predicate IsBodyInk(color: int)
  {
    color == 0x2E2013 || color == 0
  }

  /** The hex-string test is the same as testing the two integers. */
  lemma BodyInkColours(color: int)
    ensures BodyInkCode(color) <==> IsBodyInk(color)
  {
    assert ToHex(0x2) == "2";
    assert ToHex(0x2e) == "2e";
    assert ToHex(0x2e2) == "2e2";
    assert ToHex(0x2e20) == "2e20";
    assert ToHex(0x2e201) == "2e201";
    assert ToHex(0x2e2013) == "2e2013";
    assert FormatHex06(0x2E2013) == "#2e2013";
    assert FormatHex06(0) == "#000000";
    if FormatHex06(color) == "#2e2013" {
      FormatHex06Injective(color, 0x2E2013);
    }
    if FormatHex06(color) == "#000000" {
      FormatHex06Injective(color, 0);
    }
  }

  /** The text test of lines 126-131: not all digits, shorter than three
      characters, not the end glyph, and no article is being continued. */
  predicate QualifiesAsStart(text: string, searching: bool)
  {
    !IsDecimal(text) && |text| < 3 && text != [EndGlyph] && !searching
  }

  /** `extract_starting_characters`: appends the stripped text exactly when the
      span qualifies, creating the list if there was none. */
  function ExtractStartingCharacters(span: Span, markers: Option<seq<string>>, searching: bool)
    : (r: Option<seq<string>>)
    ensures r != markers <==> QualifiesAsStart(span.text, searching)
    ensures r.Some? ==> OrEmpty(markers) <= r.value && |r.value| <= |OrEmpty(markers)| + 1
    ensures r != markers ==> r.Some? && r.value == OrEmpty(markers) + [Strip(span.text)]
  {
    if QualifiesAsStart(span.text, searching) then Some(OrEmpty(markers) + [Strip(span.text)])
    else markers
  }

  /** `extract_ending_symbols`: one more exactly when the span shows the glyph. */
  function ExtractEndingSymbols(span: Span, count: nat): (r: nat)
    ensures r == count || r == count + 1
    ensures r == count + 1 <==> EndGlyph in span.text
  {
    if EndGlyph in span.text then count + 1 else count
  }

  /** Headline style (line 161): larger than 12 pt, or set in the bold face. */
  predicate IsHeadlineStyle(span: Span)
  {
    span.size > 12.0 || span.font == BoldFace
  }

  /** The three values threaded through the spans of a page. */
  datatype Signals = Signals(startMarkers: Option<seq<string>>, endCount: nat, headlines: Option<seq<string>>)

  /** The headline part of `process_span` (lines 159-165): a headline-style
      span creates the list if there was none, and adds its stripped text
      unless an article is being continued. */
  function HeadlinesAfter(span: Span, headlines: Option<seq<string>>, searching: bool): Option<seq<string>>
  {
    if IsHeadlineStyle(span) then
      if !searching then Some(OrEmpty(headlines) + [Strip(span.text)]) else Some(OrEmpty(headlines))
    else headlines
  }

  /** `process_span`: spans outside body ink go through the start-marker and
      end-glyph tests; every span goes through the headline test. */
  function ProcessSpan(span: Span, acc: Signals, searching: bool): (r: Signals)
    ensures IsBodyInk(span.color) ==> r.startMarkers == acc.startMarkers && r.endCount == acc.endCount
    ensures acc.endCount <= r.endCount <= acc.endCount + 1
    ensures r.endCount == acc.endCount + 1 <==> !IsBodyInk(span.color) && EndGlyph in span.text
    ensures r.startMarkers != acc.startMarkers <==> !IsBodyInk(span.color) && QualifiesAsStart(span.text, searching)
    ensures OrEmpty(acc.headlines) <= OrEmpty(r.headlines)
    ensures |OrEmpty(r.headlines)| <= |OrEmpty(acc.headlines)| + 1
    ensures |OrEmpty(r.headlines)| == |OrEmpty(acc.headlines)| + 1 <==> IsHeadlineStyle(span) && !searching
    ensures |OrEmpty(r.headlines)| > |OrEmpty(acc.headlines)| ==>
              OrEmpty(r.headlines) == OrEmpty(acc.headlines) + [Strip(span.text)]
    ensures r.headlines.None? <==> acc.headlines.None? && !IsHeadlineStyle(span)
  {
    var markers := if !IsBodyInk(span.color) then ExtractStartingCharacters(span, acc.startMarkers, searching)
                   else acc.startMarkers;
    var count := if !IsBodyInk(span.color) then ExtractEndingSymbols(span, acc.endCount) else acc.endCount;
    Signals(markers, count, HeadlinesAfter(span, acc.headlines, searching))
  }

  /** The fold of `process_span` over spans in reading order. */
  function ProcessSpans(spans: seq<Span>, acc: Signals, searching: bool): Signals
    decreases |spans|
  {
    if spans == [] then acc else ProcessSpans(spans[1..], ProcessSpan(spans[0], acc, searching), searching)
  }

  /** Independent description of the fold: the stripped texts of the spans that
      are start markers, in order. */
  function StartTexts(spans: seq<Span>, searching: bool): seq<string>
  {
    if spans == [] then []
    else
      (if !IsBodyInk(spans[0].color) && QualifiesAsStart(spans[0].text, searching) then [Strip(spans[0].text)] else [])
      + StartTexts(spans[1..], searching)
  }

  /** The stripped texts of the headline spans, in order (none while searching). */
  function HeadlineTexts(spans: seq<Span>, searching: bool): seq<string>
  {
    if spans == [] then []
    else (if IsHeadlineStyle(spans[0]) && !searching then [Strip(spans[0].text)] else [])
         + HeadlineTexts(spans[1..], searching)
  }

  predicate AnyHeadlineStyle(spans: seq<Span>)
  {
    exists k :: 0 <= k < |spans| && IsHeadlineStyle(spans[k])
  }

  /** The number of spans outside body ink that show the end glyph. */
  function CountEnds(spans: seq<Span>): nat
  {
    if spans == [] then 0
    else (if !IsBodyInk(spans[0].color) && EndGlyph in spans[0].text then 1 else 0) + CountEnds(spans[1..])
  }

  /** Appends to an optional list, creating it only when something is appended. */
  function ExtendOpt(o: Option<seq<string>>, xs: seq<string>): Option<seq<string>>
  {
    if xs == [] then o else Some(OrEmpty(o) + xs)
  }

  lemma ExtendOptTwice(o: Option<seq<string>>, xs: seq<string>, ys: seq<string>)
    ensures ExtendOpt(ExtendOpt(o, xs), ys) == ExtendOpt(o, xs + ys)
  {
    if xs != [] && ys != [] {
      assert OrEmpty(o) + xs + ys == OrEmpty(o) + (xs + ys);
    } else if ys == [] {
      assert xs + ys == xs;
    } else {
      assert xs + ys == ys;
    }
  }

  /** The fold over spans equals the independent description: start markers
      and headlines are the carried lists extended by the matching texts, and
      the end count grows by the number of end glyphs. */
  lemma {:induction false} ProcessSpansClosedForm(spans: seq<Span>, acc: Signals, searching: bool)
    ensures ProcessSpans(spans, acc, searching) ==
      Signals(ExtendOpt(acc.startMarkers, StartTexts(spans, searching)),
              acc.endCount + CountEnds(spans),
              if AnyHeadlineStyle(spans) then Some(OrEmpty(acc.headlines) + HeadlineTexts(spans, searching))
              else acc.headlines)
  {
    if spans == [] {
      assert OrEmpty(acc.startMarkers) + [] == OrEmpty(acc.startMarkers);
    } else {
      var s := spans[0];
      var rest := spans[1..];
      var acc1 := ProcessSpan(s, acc, searching);
      ProcessSpansClosedForm(rest, acc1, searching);
      StartStep(s, acc, searching, StartTexts(rest, searching));
      HeadlineStep(spans, acc.headlines, searching);
    }
  }

  lemma StartStep(s: Span, acc: Signals, searching: bool, later: seq<string>)
    ensures ExtendOpt(ProcessSpan(s, acc, searching).startMarkers, later)
            == ExtendOpt(acc.startMarkers,
                         (if !IsBodyInk(s.color) && QualifiesAsStart(s.text, searching) then [Strip(s.text)] else [])
                         + later)
  {
    var t1 := if !IsBodyInk(s.color) && QualifiesAsStart(s.text, searching) then [Strip(s.text)] else [];
    assert ProcessSpan(s, acc, searching).startMarkers == ExtendOpt(acc.startMarkers, t1);
    ExtendOptTwice(acc.startMarkers, t1, later);
  }

  lemma NoHeadlineNoTexts(spans: seq<Span>, searching: bool)
    requires !AnyHeadlineStyle(spans)
    ensures HeadlineTexts(spans, searching) == []
  {
    if spans != [] {
      assert !IsHeadlineStyle(spans[0]);
      assert !AnyHeadlineStyle(spans[1..]) by {
        forall k | 0 <= k < |spans[1..]| ensures !IsHeadlineStyle(spans[1..][k]) {
          assert spans[1..][k] == spans[k + 1];
        }
      }
      NoHeadlineNoTexts(spans[1..], searching);
    }
  }

  lemma AnyHeadlineStyleCons(spans: seq<Span>)
    requires spans != []
    ensures AnyHeadlineStyle(spans) <==> IsHeadlineStyle(spans[0]) || AnyHeadlineStyle(spans[1..])
  {
    var rest := spans[1..];
    if AnyHeadlineStyle(rest) {
      var k :| 0 <= k < |rest| && IsHeadlineStyle(rest[k]);
      assert spans[k + 1] == rest[k];
    }
    if AnyHeadlineStyle(spans) && !IsHeadlineStyle(spans[0]) {
      var k :| 0 <= k < |spans| && IsHeadlineStyle(spans[k]);
      assert rest[k - 1] == spans[k];
    }
  }

  lemma HeadlineStep(spans: seq<Span>, h: Option<seq<string>>, searching: bool)
    requires spans != []
    ensures var h1 := HeadlinesAfter(spans[0], h, searching);
            var rest := spans[1..];
            (if AnyHeadlineStyle(rest) then Some(OrEmpty(h1) + HeadlineTexts(rest, searching)) else h1)
            == (if AnyHeadlineStyle(spans) then Some(OrEmpty(h) + HeadlineTexts(spans, searching)) else h)
  {
    AnyHeadlineStyleCons(spans);
    if IsHeadlineStyle(spans[0]) {
      HeadlineStepStyled(spans, h, searching);
      assert HeadlinesAfter(spans[0], h, searching).Some?;
    } else {
      var rest := spans[1..];
      assert HeadlinesAfter(spans[0], h, searching) == h;
      assert HeadlineTexts(spans, searching) == [] + HeadlineTexts(rest, searching);
      assert [] + HeadlineTexts(rest, searching) == HeadlineTexts(rest, searching);
    }
  }

  lemma HeadlineStepStyled(spans: seq<Span>, h: Option<seq<string>>, searching: bool)
    requires spans != [] && IsHeadlineStyle(spans[0])
    ensures var rest := spans[1..];
            var grown := OrEmpty(HeadlinesAfter(spans[0], h, searching));
            (if AnyHeadlineStyle(rest) then grown + HeadlineTexts(rest, searching) else grown)
            == OrEmpty(h) + HeadlineTexts(spans, searching)
  {
    var s := spans[0];
    var rest := spans[1..];
    var later := HeadlineTexts(rest, searching);
    var stripped := Strip(s.text);
    var t1: seq<string> := if !searching then [stripped] else [];
    if searching {
      assert HeadlineTexts(spans, searching) == later;
      assert HeadlinesAfter(s, h, searching) == Some(OrEmpty(h));
    } else {
      assert HeadlineTexts(spans, searching) == [stripped] + later;
      assert HeadlinesAfter(s, h, searching) == Some(OrEmpty(h) + [stripped]);
    }
    assert HeadlineTexts(spans, searching) == t1 + later;
    assert OrEmpty(HeadlinesAfter(s, h, searching)) == OrEmpty(h) + t1;
    if !AnyHeadlineStyle(rest) {
      NoHeadlineNoTexts(rest, searching);
      assert later == [];
      assert t1 + later == t1;
    } else {
      assert OrEmpty(h) + t1 + later == OrEmpty(h) + (t1 + later);
    }
  }

  /** `extract_headlines`: folds `process_span` over the spans of every block
      that has lines (a block without lines raises KeyError, which is
      swallowed, line 193). The end count is the page's own, starting at 0;
      the carried lists are only extended. */
  function ExtractHeadlines(page: Page, markers: Option<seq<string>>, headlines: Option<seq<string>>,
                            searching: bool): (r: Signals)
    ensures r.endCount == CountEnds(AllSpans(page.blocks))
    ensures r.startMarkers == ExtendOpt(markers, StartTexts(AllSpans(page.blocks), searching))
    ensures r.headlines ==
              if AnyHeadlineStyle(AllSpans(page.blocks))
              then Some(OrEmpty(headlines) + HeadlineTexts(AllSpans(page.blocks), searching))
              else headlines
    ensures OrEmpty(markers) <= OrEmpty(r.startMarkers) && OrEmpty(headlines) <= OrEmpty(r.headlines)
    ensures page.blocks == [] ==> r == Signals(markers, 0, headlines)
  {
    if page.blocks == [] then Signals(markers, 0, headlines)
    else
      ProcessSpansClosedForm(AllSpans(page.blocks), Signals(markers, 0, headlines), searching);
      ProcessSpans(AllSpans(page.blocks), Signals(markers, 0, headlines), searching)
  }

  lemma NoTextsWhileSearching(spans: seq<Span>)
    ensures StartTexts(spans, true) == [] && HeadlineTexts(spans, true) == []
  {
  }

  /** On a continuation page no start marker or headline is added: the lists
      come back with the same contents (only an absent headline list may turn
      into an empty one). */
  lemma SearchingKeepsLists(page: Page, markers: Option<seq<string>>, headlines: Option<seq<string>>)
    ensures ExtractHeadlines(page, markers, headlines, true).startMarkers == markers
    ensures OrEmpty(ExtractHeadlines(page, markers, headlines, true).headlines) == OrEmpty(headlines)
  {
    NoTextsWhileSearching(AllSpans(page.blocks));
    assert OrEmpty(headlines) + [] == OrEmpty(headlines);
  }

  /** A coloured bold drop capital is both a start marker and a headline. */
  lemma StartMarkerAndHeadline()
    ensures var span := Span("A", BoldFace, 9.0, 0xe7534a, Rect(0.0, 0.0, 0.0, 0.0));
            var r := ProcessSpan(span, Signals(None, 0, None), false);
            r.startMarkers == Some(["A"]) && r.headlines == Some(["A"])
  {
    var span := Span("A", BoldFace, 9.0, 0xe7534a, Rect(0.0, 0.0, 0.0, 0.0));
    assert LeadingSpaces("A") == 0 && TrailingStart("A") == 1;
    assert "A"[0..1] == "A";
    assert !IsDigit('A');
    assert QualifiesAsStart(span.text, false);
    assert IsHeadlineStyle(span) && !IsBodyInk(span.color);
    assert [] + ["A"] == ["A"];
  }
}
