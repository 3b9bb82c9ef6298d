/** A page as the PDF library hands it over, already extracted: the plain text
    of `page.get_text()` and the blocks of `page.get_text("dict", sort=True)`,
    in that call's sorted reading order (top to bottom, then left to right).
    Nothing in the model calls the PDF library; pages are plain values. */
module PageContent {
  import opened Results

  /** A bounding box `(x0, y0, x1, y1)` in page coordinates. */
  datatype Rect = Rect(x0: real, y0: real, x1: real, y1: real)

  /** One text span of the "dict" extraction. `color` is the sRGB integer. */
  datatype Span = Span(text: string, font: string, size: real, color: int, bbox: Rect)

  /** The lines of a text block, each line a sequence of spans. */
  type TextBlock = seq<seq<Span>>

  /** A block of the default "dict" extraction: `None` is a block without a
      "lines" key (an image block). */
  type Block = Option<TextBlock>

  datatype Page = Page(rawText: string, blocks: seq<Block>)

  /** The spans of a text block in reading order. */
  function BlockSpans(lines: TextBlock): seq<Span>
  {
    if lines == [] then [] else lines[0] + BlockSpans(lines[1..])
  }

  /** The spans of a sequence of text blocks in reading order. */
  function TextSpans(blocks: seq<TextBlock>): seq<Span>
  {
    if blocks == [] then [] else BlockSpans(blocks[0]) + TextSpans(blocks[1..])
  }

  /** The spans of every block that has lines, in reading order; blocks
      without lines contribute nothing. */
  function AllSpans(blocks: seq<Block>): seq<Span>
  {
    if blocks == [] then []
    else (match blocks[0] case None => [] case Some(lines) => BlockSpans(lines)) + AllSpans(blocks[1..])
  }
}
