/** `extract_color_code` of parsers/extract_page_0.py (lines 57-72): the issue's
    colour is read off the cover page, where the word "tragen" is printed in
    the same colour as the span "Registrierte ". */
module CoverColor {
  import opened Results
  import opened Hex
  import opened PageContent

  const Marker: string := "Registrierte "
  const Partner: string := "tragen"

  /** The two locals of the scan: `color_code` and `hex_color_code`, `None`
      while unbound. */
  datatype Scan = Scan(colorCode: Option<int>, hexCode: Option<string>)

  /** Lines 67-70 for one span. Reading `color_code` before it is bound raises. */
  function ScanSpan(st: Scan, span: Span): (r: Result<Scan>)
    ensures r.Err? <==> span.text == Partner && st.colorCode.None?
    ensures r.Ok? && span.text == Marker ==> r.value == Scan(Some(span.color), st.hexCode)
    ensures r.Ok? && span.text != Marker ==> r.value.colorCode == st.colorCode
  {
    if span.text == Marker then Ok(st.(colorCode := Some(span.color)))
    else if span.text == Partner then
      if st.colorCode.None? then Err(UnboundLocal("color_code"))
      else if st.colorCode.value == span.color then Ok(st.(hexCode := Some(FormatHex06(span.color))))
      else Ok(st)
    else Ok(st)
  }

  /** `hex_color_code`, once bound, holds a formatted code. */
  predicate CodeFormatted(st: Scan)
  {
    st.hexCode.Some? ==> |st.hexCode.value| >= 7 && st.hexCode.value[0] == '#'
  }

  /** The loop over the spans, in order; an exception ends it. */
  function ScanSpans(st: Scan, spans: seq<Span>): (r: Result<Scan>)
    ensures r.Err? ==> r.error == UnboundLocal("color_code")
    ensures r.Ok? && CodeFormatted(st) ==> CodeFormatted(r.value)
    decreases |spans|
  {
    if spans == [] then Ok(st)
    else
      match ScanSpan(st, spans[0])
      case Err(e) => Err(e)
      case Ok(next) => ScanSpans(next, spans[1..])
  }

  /** `extract_color_code` on the cover's text blocks. */
  function ExtractColorCode(blocks: seq<TextBlock>): (r: Result<string>)
    ensures r.Err? ==> r.error == UnboundLocal("color_code") || r.error == UnboundLocal("hex_color_code")
    ensures r.Ok? ==> |r.value| >= 7 && r.value[0] == '#'
  {
    match ScanSpans(Scan(None, None), TextSpans(blocks))
    case Err(e) => Err(e)
    case Ok(st) => if st.hexCode.None? then Err(UnboundLocal("hex_color_code")) else Ok(st.hexCode.value)
  }

  /** Reference definitions, read from the end of the span list. */

  /** The colour of the last "Registrierte " span. */
  function LastMarkerColor(spans: seq<Span>): Option<int>
  {
    if spans == [] then None
    else if spans[|spans| - 1].text == Marker then Some(spans[|spans| - 1].color)
    else LastMarkerColor(spans[..|spans| - 1])
  }

  /** Some "tragen" span comes before every "Registrierte " span. */
  predicate EarlyPartner(spans: seq<Span>)
  {
    spans != [] &&
    (EarlyPartner(spans[..|spans| - 1]) ||
     (spans[|spans| - 1].text == Partner && LastMarkerColor(spans[..|spans| - 1]).None?))
  }

  /** The colour of the last "tragen" span coloured like the "Registrierte "
      span most recently before it. */
  function LastHitColor(spans: seq<Span>): Option<int>
  {
    if spans == [] then None
    else
      var init, last := spans[..|spans| - 1], spans[|spans| - 1];
      if last.text == Partner && LastMarkerColor(init) == Some(last.color) then Some(last.color)
      else LastHitColor(init)
  }

  function HexOf(c: Option<int>): Option<string>
  {
    match c
    case None => None
    case Some(v) => Some(FormatHex06(v))
  }

  lemma {:induction false} ScanSpansSnoc(st: Scan, spans: seq<Span>, x: Span)
    ensures ScanSpans(st, spans + [x]) ==
            match ScanSpans(st, spans)
            case Err(e) => Err(e)
            case Ok(mid) => ScanSpan(mid, x)
    decreases |spans|
  {
    if spans == [] {
      assert spans + [x] == [x];
    } else {
      assert (spans + [x])[0] == spans[0];
      assert (spans + [x])[1..] == spans[1..] + [x];
      var r := ScanSpan(st, spans[0]);
      if r.Ok? {
        ScanSpansSnoc(r.value, spans[1..], x);
      }
    }
  }

  /** The scan, a left fold, agrees with the reference definitions: it fails
      exactly when a "tragen" span precedes every "Registrierte " span, and
      otherwise remembers the last marker colour and the last hit. */
  lemma {:induction false} ScanCharacterised(spans: seq<Span>)
    ensures ScanSpans(Scan(None, None), spans) ==
            if EarlyPartner(spans) then Err(UnboundLocal("color_code"))
            else Ok(Scan(LastMarkerColor(spans), HexOf(LastHitColor(spans))))
    decreases |spans|
  {
    if spans != [] {
      var init, last := spans[..|spans| - 1], spans[|spans| - 1];
      assert spans == init + [last];
      ScanCharacterised(init);
      ScanSpansSnoc(Scan(None, None), init, last);
    }
  }

  /** `extract_color_code` fails on an early "tragen" and when nothing matches,
      and otherwise formats the colour of the last matching "tragen" span. */
  lemma ExtractColorCodeCases(blocks: seq<TextBlock>)
    ensures var spans := TextSpans(blocks);
            && (EarlyPartner(spans) ==> ExtractColorCode(blocks) == Err(UnboundLocal("color_code")))
            && (!EarlyPartner(spans) && LastHitColor(spans).None? ==>
                  ExtractColorCode(blocks) == Err(UnboundLocal("hex_color_code")))
            && (!EarlyPartner(spans) && LastHitColor(spans).Some? ==>
                  ExtractColorCode(blocks) == Ok(FormatHex06(LastHitColor(spans).value)))
  {
    ScanCharacterised(TextSpans(blocks));
  }

  /** For a 24-bit colour the code is seven characters and reads back as the colour. */
  lemma ColorCodeFormat(blocks: seq<TextBlock>)
    requires !EarlyPartner(TextSpans(blocks)) && LastHitColor(TextSpans(blocks)).Some?
    requires 0 <= LastHitColor(TextSpans(blocks)).value < 0x100_0000
    ensures ExtractColorCode(blocks).Ok?
    ensures |ExtractColorCode(blocks).value| == 7
    ensures ParseHexColor(ExtractColorCode(blocks).value) == Some(LastHitColor(TextSpans(blocks)).value)
  {
    ExtractColorCodeCases(blocks);
    var c := LastHitColor(TextSpans(blocks)).value;
    FormatHex06Width(c);
    FormatHex06RoundTrip(c);
  }
}
