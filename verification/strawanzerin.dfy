/** The Strawanzerin supplement, utils/parser_strawanzerin.py (lines 41-100):
    large spans are collected as headline material, and the first page's text
    is read region by region below the "gratis" headline. */
module Strawanzerin {
  import opened Results
  import opened Text
  import opened PageContent

  /** An element of the flat headline list: the text, the box or the size of a span. */
  datatype HeadlineItem = TextItem(text: string) | BoxItem(box: Rect) | SizeItem(size: real)

  /** A page as the headline scan reads it: its text blocks (the extraction
      flags leave out image blocks) and its size. */
  datatype SPage = SPage(blocks: seq<TextBlock>, width: real, height: real)

  /** `headlines += text, bbox, size` for every span: three items per span. */
  function Flatten(spans: seq<Span>): seq<HeadlineItem>
  {
    if spans == [] then []
    else [TextItem(spans[0].text), BoxItem(spans[0].bbox), SizeItem(spans[0].size)] + Flatten(spans[1..])
  }

  /** The spans larger than 30 points, in order (line 54). */
  function LargeSpans(spans: seq<Span>): (r: seq<Span>)
    ensures |r| <= |spans|
    ensures forall k :: 0 <= k < |r| ==> r[k].size > 30.0
  {
    if spans == [] then []
    else (if spans[0].size > 30.0 then [spans[0]] else []) + LargeSpans(spans[1..])
  }

  /** A single span is kept exactly when it is larger than 30 points. */
  lemma LargeSpansOne(x: Span)
    ensures LargeSpans([x]) == if x.size > 30.0 then [x] else []
  {
    assert [x][1..] == [];
  }

  /** The filter distributes over concatenation, so with `LargeSpansOne` every
      span larger than 30 points is kept, in span order. */
  lemma {:induction false} LargeSpansAppend(a: seq<Span>, b: seq<Span>)
    ensures LargeSpans(a + b) == LargeSpans(a) + LargeSpans(b)
  {
    if a == [] {
      assert a + b == b;
    } else {
      assert (a + b)[0] == a[0];
      assert (a + b)[1..] == a[1..] + b;
      LargeSpansAppend(a[1..], b);
    }
  }

  /** Items at positions 3k, 3k+1 and 3k+2 are a text, a box and a size. */
  predicate WellShaped(items: seq<HeadlineItem>)
  {
    && |items| % 3 == 0
    && (forall k :: 0 <= k < |items| ==>
          (k % 3 == 0 ==> items[k].TextItem?) && (k % 3 == 1 ==> items[k].BoxItem?) && (k % 3 == 2 ==> items[k].SizeItem?))
  }

  /** The flat list holds each span as text, box and size, in span order. */
  lemma {:induction false} FlattenShape(spans: seq<Span>)
    ensures |Flatten(spans)| == 3 * |spans|
    ensures forall k :: 0 <= k < |spans| ==>
              && Flatten(spans)[3 * k] == TextItem(spans[k].text)
              && Flatten(spans)[3 * k + 1] == BoxItem(spans[k].bbox)
              && Flatten(spans)[3 * k + 2] == SizeItem(spans[k].size)
    ensures WellShaped(Flatten(spans))
  {
    if spans != [] {
      FlattenShape(spans[1..]);
      var head := [TextItem(spans[0].text), BoxItem(spans[0].bbox), SizeItem(spans[0].size)];
      var f := Flatten(spans);
      assert f == head + Flatten(spans[1..]);
      forall k | 3 <= k < |f|
        ensures f[k] == Flatten(spans[1..])[k - 3]
      {
      }
      forall k | 1 <= k < |spans|
        ensures && f[3 * k] == TextItem(spans[k].text)
                && f[3 * k + 1] == BoxItem(spans[k].bbox)
                && f[3 * k + 2] == SizeItem(spans[k].size)
      {
        assert spans[1..][k - 1] == spans[k];
        assert 3 * k - 3 == 3 * (k - 1);
      }
      forall k | 3 <= k < |f|
        ensures (k % 3 == 0 ==> f[k].TextItem?) && (k % 3 == 1 ==> f[k].BoxItem?) && (k % 3 == 2 ==> f[k].SizeItem?)
      {
        assert (k - 3) % 3 == k % 3;
      }
    }
  }

  /** The headline items of one page. */
  function PageItems(page: SPage): seq<HeadlineItem>
  {
    Flatten(LargeSpans(TextSpans(page.blocks)))
  }

  /** The loop of lines 44-59 from page `index` on; `last` is the list of the
      previous iteration (`None` while `headlines` is unbound). */
  function ScanPages(doc: seq<SPage>, index: nat, onlyFirstPage: bool, last: Option<seq<HeadlineItem>>)
    : (r: Result<seq<HeadlineItem>>)
    ensures r.Err? <==> index >= |doc| && last.None?
    ensures r.Err? ==> r.error == UnboundLocal("headlines")
    ensures r.Ok? && (last.None? || WellShaped(last.value)) ==> WellShaped(r.value)
    decreases |doc| - index
  {
    if index >= |doc| then
      if last.None? then Err(UnboundLocal("headlines")) else Ok(last.value)
    else if index == 0 && !onlyFirstPage then ScanPages(doc, index + 1, onlyFirstPage, Some([]))
    else
      FlattenShape(LargeSpans(TextSpans(doc[index].blocks)));
      if onlyFirstPage then Ok(PageItems(doc[index]))
      else ScanPages(doc, index + 1, onlyFirstPage, Some(PageItems(doc[index])))
  }

  /** `parse_strawanzerin_headline(src, only_first_page)`: only an empty
      document leaves the list unbound, and the list always holds whole
      (text, box, size) triples. */
  function ParseHeadline(doc: seq<SPage>, onlyFirstPage: bool): (r: Result<seq<HeadlineItem>>)
    ensures r.Err? <==> doc == []
    ensures r.Err? ==> r.error == UnboundLocal("headlines")
    ensures r.Ok? ==> WellShaped(r.value)
  {
    ScanPages(doc, 0, onlyFirstPage, None)
  }

  lemma {:induction false} ScanPagesToEnd(doc: seq<SPage>, index: nat, last: seq<HeadlineItem>)
    requires 1 <= index <= |doc|
    ensures ScanPages(doc, index, false, Some(last)) ==
            Ok(if index < |doc| then PageItems(doc[|doc| - 1]) else last)
    decreases |doc| - index
  {
    if index < |doc| {
      ScanPagesToEnd(doc, index + 1, PageItems(doc[index]));
    }
  }

  /** An empty document leaves the list unbound; with `onlyFirstPage` only
      page 0 is read; otherwise page 0 is skipped and the list is rebuilt for
      every page, so only the last page's items survive. */
  lemma ParseHeadlineCases(doc: seq<SPage>, onlyFirstPage: bool)
    ensures doc == [] ==> ParseHeadline(doc, onlyFirstPage) == Err(UnboundLocal("headlines"))
    ensures doc != [] && onlyFirstPage ==> ParseHeadline(doc, onlyFirstPage) == Ok(PageItems(doc[0]))
    ensures |doc| == 1 && !onlyFirstPage ==> ParseHeadline(doc, onlyFirstPage) == Ok([])
    ensures |doc| >= 2 && !onlyFirstPage ==> ParseHeadline(doc, onlyFirstPage) == Ok(PageItems(doc[|doc| - 1]))
  {
    if doc != [] && !onlyFirstPage {
      ScanPagesToEnd(doc, 1, []);
    }
  }

  /** The five clip regions of lines 82-88 below a headline whose box starts at `y0`. */
  function ClipRegions(y0: real, width: real, height: real): seq<Rect>
  {
    [Rect(0.0, 0.0, width, y0),
     Rect(0.0, y0, 180.0, height),
     Rect(180.0, y0, 320.0, height),
     Rect(320.0, y0, 460.0, height),
     Rect(460.0, y0, width, height)]
  }

  /** Lines 76-88: item 3 (the second large span's text) must read "gratis" in
      lower case, and item 4 (its box) gives the top of the columns. Fewer than
      four items raise an IndexError. The regions are a header band above the
      headline and four columns below it that meet edge to edge. */
  function FirstPageRegions(items: seq<HeadlineItem>, width: real, height: real): (r: Result<seq<Rect>>)
    requires WellShaped(items)
    ensures |items| < 4 ==> r == Err(IndexError)
    ensures |items| >= 4 ==> (r.Ok? <==> Lower(items[3].text) == "gratis")
    ensures r.Err? && |items| >= 4 ==> r.error.ValueError?
    ensures r.Ok? ==> |r.value| == 5 && |items| >= 6
    ensures r.Ok? ==> r.value[0] == Rect(0.0, 0.0, width, items[4].box.y0)
    ensures r.Ok? ==> forall k :: 1 <= k < 5 ==>
              r.value[k].y0 == items[4].box.y0 && r.value[k].y1 == height
    ensures r.Ok? ==> r.value[1].x0 == 0.0 && r.value[4].x1 == width
    ensures r.Ok? ==> forall k :: 1 <= k < 4 ==> r.value[k].x1 == r.value[k + 1].x0
  {
    if |items| < 4 then Err(IndexError)
    else if Lower(items[3].text) == "gratis" then
      assert items[4].BoxItem?;
      Ok(ClipRegions(items[4].box.y0, width, height))
    else Err(ValueError("Error: No headline gratis found!"))
  }

  /** `parse_strawanzerin_first_page` once the document is open: the text of
      page 0 read through each clip region in turn. `clipText` stands for the
      PDF library's `get_text("text", clip=...)` on page 0. Page 0 needs at
      least two large spans, the second reading "gratis"; its box gives the
      top of the columns. */
  function ParseFirstPage(doc: seq<SPage>, clipText: Rect -> string): (r: Result<string>)
    ensures doc == [] ==> r == Err(IndexError)
    ensures doc != [] ==>
              var spans := LargeSpans(TextSpans(doc[0].blocks));
              && (|spans| < 2 ==> r == Err(IndexError))
              && (|spans| >= 2 ==> (r.Ok? <==> Lower(spans[1].text) == "gratis"))
              && (|spans| >= 2 && r.Err? ==> r.error.ValueError?)
              && (r.Ok? ==> r.value == ClipText(ClipRegions(spans[1].bbox.y0, doc[0].width, doc[0].height), clipText))
  {
    if doc == [] then Err(IndexError)
    else
      var spans := LargeSpans(TextSpans(doc[0].blocks));
      FlattenShape(spans);
      ParseHeadlineCases(doc, true);
      var items := ParseHeadline(doc, true).value;
      assert |spans| >= 2 ==> items[3] == TextItem(spans[1].text) && items[4] == BoxItem(spans[1].bbox);
      match FirstPageRegions(items, doc[0].width, doc[0].height)
      case Err(e) => Err(e)
      case Ok(regions) => Ok(ClipText(regions, clipText))
  }

  /** The texts of the regions, concatenated in order (lines 89-92). */
  function ClipText(regions: seq<Rect>, clipText: Rect -> string): string
  {
    if regions == [] then [] else clipText(regions[0]) + ClipText(regions[1..], clipText)
  }
}
