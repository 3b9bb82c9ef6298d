# augustin PDF parser — a Dafny model of article segmentation

The augustin PDF parser reads one issue of the Vienna street paper *augustin*, page by page, and publishes its articles to a web site. This project models the decision logic at its core, as pure Dafny functions over already-extracted page content:

- **Span signals** (`span_signals.dfy`). Every text span of a page is classified. A short span coloured outside body ink is a drop-capital *start marker*. A span showing the end glyph "■" counts as an article end. A span larger than 12 pt or set in the bold display face is a *headline*.
- **Text cleaning** (`normalize.dfy`). `clean_text` anchors on the first line equal to the first start marker and joins the following lines using hyphen and punctuation rules. A character pass then cuts at the end glyph and thins out double blanks. The pass is modelled twice: as the loop it is in the source, and as a recursive function. The two are proved equal, and the pass's properties are proved on the recursive one.
- **Article assembly** (`assembly.dfy`). `extract_text`, `parse_page` and the page loop of `process_augustin_file` form a fold over pages. The fold threads a typed record in place of the loop's `meta_array` dictionary. Every upload becomes an emitted `Publish` event carrying title, body, category, image id and endpoint. An exception stops the fold; the uploads made before it are kept.
- **Category helpers** (`category.dfy`, `lookup.dfy`). These cover:
  - the word-in-rectangle filter;
  - the choice of category region by page parity;
  - label normalisation;
  - reading the issue number from a directory name;
  - the name matching of `check_for_category`.
- **Cover colour** (`cover_color.dfy`, `hex.dfy`). This is the colour scan of `extract_color_code` and Python's `f"#{c:06x}"`, which the span classifier also uses.
- **Strawanzerin supplement** (`strawanzerin.dfy`). This is the large-span headline scan and the clip-region layout of the supplement's first page.

Shared vocabulary lives in `results.dfy`: optional values, the exceptions the code lets escape, and results. The Python string operations the code relies on are in `text.dfy`, over ASCII. `page_content.dfy` holds spans, blocks and pages.

Behaviour of the code as written that a reader might not expect:

- **Spaced hyphens.** A trailing "-" is always removed. There is no exception for a spaced hyphen.
- **End of capture.** Capture does not stop at the line holding the end glyph. The glyph is cut only by the character pass, and only when that pass looks at it: a glyph right after a deleted blank survives.
- **Double blanks.** They are thinned, not collapsed: a run of three blanks keeps two.
- **Pages with nothing to open.** A page with neither a headline nor a start marker is still published, titled with its category.
- **Continuation pages.**
  - The stored headline and start-marker lists are appended to themselves.
  - The stored raw text gets blanks between its characters before the page's text is added.
  - The page's text itself repeats the stored text.
- **End of the issue.** An article still waiting for its end glyph after the last page is never published. There is no page limit.
- **Exceptions.** The uploads made before an exception stay made, including those earlier in the same iteration.
- **Editorial pages.** An editorial page fails with a KeyError once the record has been reset, because the reset record lacks the cover's image id. The record is reset after a page has been published, and in the same iteration when a category change force-publishes the stored article. A Gustl post alone does not reset it. Before any such reset, an editorial page runs and takes the cover's image.

`IsBodyInk` tests the colour as an integer (0x2E2013 or 0). `SpanSignals.BodyInkColours` proves this is the same as the source's test on the `#%06x` string.

## Model

| member | source | states |
|---|---|---|
| Text.Strip | utils/utils.py:209 | `strip()` is empty exactly for blank text, otherwise starts and ends with a non-space character, and is never longer than its input |
| Text.StripTrims | utils/utils.py:209 | the stripped text is a slice of the input with only whitespace before and after it |
| Text.StripAppendSpace | utils/utils.py:207-209 | the trailing blank added after the last collected word does not change the stripped text |
| Text.Lower | utils/utils.py:167 | `lower()` keeps the length, leaves no upper-case letter, and changes a character only by mapping an upper-case letter to its lower-case form |
| Text.JoinSplit | utils/parser_augustin.py:78 | joining the pieces of `split("\n")` with the separator gives back the raw text, so no character is lost when the text is cut into lines |
| Text.SplitJoin | utils/parser_augustin.py:78 | splitting the join of separator-free pieces gives back those pieces |
| Text.InterleaveShape | utils/parser_augustin.py:527 | `" ".join` applied to the stored raw text puts its characters at even positions and a blank at every odd position, 2n-1 characters in all |
| Hex.FormatHex06 | parsers/extract_page_0.py:70 | the code is at least seven characters and starts with "#"; a non-negative colour is followed by hexadecimal digits only, a negative one by "-" and then hexadecimal digits |
| Hex.FromHexToHex | parsers/extract_page_0.py:70 | reading the hexadecimal digits of `format(n, "x")` gives back n |
| Hex.FormatHex06RoundTrip | parsers/extract_page_0.py:70 | for every non-negative colour, the `#%06x` code reads back as that colour |
| Hex.FormatHex06Width | parsers/extract_page_0.py:70 | a 24-bit colour is written as exactly seven characters |
| Hex.FormatHex06Sign | utils/parser_augustin.py:150 | the character after "#" is "-" exactly for negative colours |
| Hex.FormatHex06Injective | utils/parser_augustin.py:150 | two colours with the same code are equal |
| Hex.IssueColourExample | parsers/test_extract_page_0.py:12-13 | the colour 0xe7534a is written "#e7534a", the first code the tests expect |
| SpanSignals.BodyInkColours | utils/parser_augustin.py:150-153 | the code is "#2e2013" or "#000000" exactly when the colour is 0x2E2013 or 0 |
| SpanSignals.ExtractStartingCharacters | utils/parser_augustin.py:122-135 | the list changes exactly when the text is not all digits, is shorter than three, is not "■" and no article is being continued. A change appends exactly the stripped text to the old list, or to a new one. Otherwise the list, or its absence, comes back unchanged |
| SpanSignals.ExtractEndingSymbols | utils/parser_augustin.py:138-142 | the count rises by one exactly when the text contains "■", and is otherwise unchanged |
| SpanSignals.ProcessSpan | utils/parser_augustin.py:145-167 | a body-ink span never changes start markers or end count. The count rises exactly for a non-body-ink span showing "■"; the markers change exactly for a non-body-ink qualifying span. The headline list keeps its old contents and grows by exactly the stripped text when the span is larger than 12 pt or bold and no article is continued. A headline-style span creates the list |
| SpanSignals.ProcessSpansClosedForm | utils/parser_augustin.py:180-191 | folding `process_span` over the spans equals the closed form: the carried lists extended by the marker texts and headline texts in span order, and the end count increased by the number of glyph spans |
| SpanSignals.ExtractHeadlines | utils/parser_augustin.py:170-195 | the end count is this page's own, starting from 0. The lists are the carried ones extended in span order, so old contents stay a prefix. A page without blocks returns its inputs with count 0 |
| SpanSignals.SearchingKeepsLists | utils/parser_augustin.py:126-165 | on a continuation page the start markers come back as given and the headlines with the same contents |
| SpanSignals.StartMarkerAndHeadline | utils/parser_augustin.py:149-167 | a coloured bold one-letter span counts both as start marker and as headline |
| Normalize.LineContribution | utils/parser_augustin.py:79-108 | after the anchor: a blank line adds nothing; a line ending in . ! ? : gains a line break; punctuation plus a blank becomes punctuation plus a line break; a trailing hyphen is removed; any other line is added as it is, twice when it equals the anchor |
| Normalize.AssembleFound | utils/parser_augustin.py:78-105 | once the anchor is found, the loop appends each later line's contribution in order |
| Normalize.AssembleAtAnchor | utils/parser_augustin.py:78-108 | nothing before the first line equal to the anchor is kept; that line is kept verbatim, followed by the contributions of all later lines |
| Normalize.AssembleWithoutAnchor | utils/parser_augustin.py:78-108 | without a line equal to the anchor the article is empty |
| Normalize.FormatArticle | utils/parser_augustin.py:110-119 | the pass, run as a loop over the list being edited, agrees with the recursive definition `PostPass`. It only deletes characters. The first end glyph is visited exactly when it is not right after a deleted blank (`GlyphReached`, defined by which original positions the pass deletes). A visited glyph goes together with everything after it, leaving a subsequence of the text before it; a skipped glyph stays in the result. Text without a glyph, without adjacent blanks and not both starting and ending with a blank comes back unchanged |
| Normalize.PostPassProperties | utils/parser_augustin.py:110-119 | the same properties stated on the recursive pass `PostPass` itself: subsequence of its input; unchanged on clean text; cut before the first glyph when the pass visits it; the glyph kept when the pass skips it |
| Normalize.GlyphReachedExamples | utils/parser_augustin.py:111-117 | a glyph after one blank ("a ■b" gives "a ") is visited; after two blanks it is skipped; after three it is visited again |
| Normalize.CleanText | utils/parser_augustin.py:72-119 | with no line equal to the first start marker the article is empty |
| Normalize.NoAnchorNoArticle | utils/parser_augustin.py:78-108 | the line loop keeps nothing when no line equals the anchor |
| Normalize.CleanTextShape | utils/parser_augustin.py:72-119 | the article is the character pass applied to the anchor line followed by the contributions of every later line |
| Normalize.JoinHyphenExample | utils/parser_augustin.py:96-99 | "exam-" followed by "ple" joins to "example" |
| Normalize.JoinBlankExample | utils/parser_augustin.py:80-95 | a sentence end keeps its line break and a blank line in between adds nothing |
| Normalize.JoinTrailingSpaceExample | utils/parser_augustin.py:86-89 | "Ende. " gives "Ende." and a line break |
| Normalize.PostPassExamples | utils/parser_augustin.py:111-117 | "foo  bar" becomes "foo bar"; three blanks keep two; a glyph after a deleted blank survives; a leading blank goes when the text ends in one; a visited glyph cuts the rest |
| CategoryRegions.CollectSpaced | utils/utils.py:199-207 | the word loop adds every word inside the rectangle followed by one blank, in input order |
| CategoryRegions.WordsInRectJoined | utils/utils.py:175-211 | the text `WordsInRect` finds in a rectangle is the words with all four coordinates inside it (borders included), joined by single blanks in input order and stripped |
| CategoryRegions.TopRect | utils/utils.py:139-141 | the top region is a band from y 30 to 60 inside the page width, at the right edge on even page indexes and at the left edge on odd ones |
| CategoryRegions.SideRect | utils/utils.py:154-156 | the side region is a column from y 55, overlapping the bottom of the top band, on the same side of the page as the top region |
| CategoryRegions.Normalise | utils/utils.py:166-171 | a label mentioning "editorial" in any case becomes exactly "editorial"; any other label becomes its lower-cased form. The result is non-empty for non-empty input and mentions "editorial" only when it is exactly that |
| CategoryRegions.IdentifyCategory | utils/utils.py:136-173 | the result is never empty and has no upper-case letter. It comes from the top region when that has text, else from the side region, else it is "keine kategorie gefunden" |
| CategoryRegions.FallbackLabel | utils/utils.py:162-171 | the fallback label normalises to "keine kategorie gefunden" |
| CategoryRegions.DigitRuns | utils/utils.py:263 | every run found is a non-empty string of digits |
| CategoryRegions.ExtractVersionNumber | utils/utils.py:261-268 | every failure is a ValueError |
| CategoryRegions.RunsOfRun | utils/utils.py:263 | a maximal digit run is found as one run |
| CategoryRegions.VersionOfSingleRun | utils/utils.py:263-268 | a name with exactly one digit run yields that run's decimal value |
| CategoryRegions.VersionWithoutDigits | utils/utils.py:263-266 | a name without digits is refused |
| CategoryRegions.VersionOfTwoRuns | utils/utils.py:263-266 | a name with two separate digit runs is refused |
| CategoryLookup.CheckForCategory | utils/requests.py:101-110 | with no matching name the id is 1. Otherwise the id is that of the first entry whose stripped name equals the stripped label, or is "tun &amp; lassen" for the label "tun & lassen"; earlier entries do not match |
| CategoryLookup.EscapedNameMatch | utils/requests.py:104-107 | the escaped stored name matches the plain label, but an escaped label does not match a plain name |
| CoverColor.ExtractColorCode | parsers/extract_page_0.py:57-72 | the only failures are the two unbound locals `color_code` and `hex_color_code`; a result is a "#" code of at least seven characters |
| CoverColor.ScanSpan | parsers/extract_page_0.py:67-70 | a "tragen" span before any "Registrierte " span raises. A "Registrierte " span sets the remembered colour. Other spans never change it |
| CoverColor.ScanCharacterised | parsers/extract_page_0.py:64-70 | the scan fails exactly when a "tragen" span precedes every "Registrierte " span. Otherwise it holds the colour of the last "Registrierte " span and the code of the last "tragen" span coloured like the marker before it |
| CoverColor.ExtractColorCodeCases | parsers/extract_page_0.py:57-72 | an early "tragen" and a missing match are both unbound-variable errors, never a default. Otherwise the result is the code of the last matching "tragen" span |
| CoverColor.ColorCodeFormat | parsers/extract_page_0.py:69-72 | for a 24-bit matching colour the result is seven characters long and reads back as that colour |
| Strawanzerin.LargeSpans | utils/parser_strawanzerin.py:54 | the spans kept are all larger than 30 points |
| Strawanzerin.LargeSpansOne | utils/parser_strawanzerin.py:54 | a single span is kept exactly when it is larger than 30 points |
| Strawanzerin.LargeSpansAppend | utils/parser_strawanzerin.py:50-55 | the filter distributes over concatenation, so every large span is kept, in input order, and nothing else |
| Strawanzerin.FlattenShape | utils/parser_strawanzerin.py:50-55 | each kept span contributes its text, box and size at positions 3k, 3k+1 and 3k+2, in span order |
| Strawanzerin.ParseHeadline | utils/parser_strawanzerin.py:41-61 | the headline list is unbound exactly for an empty document, and always holds whole (text, box, size) triples |
| Strawanzerin.ParseHeadlineCases | utils/parser_strawanzerin.py:41-61 | an empty document leaves the list unbound. With only the first page, page 0 alone is read. Otherwise page 0 is skipped and the list is rebuilt per page, so only the last page's items survive |
| Strawanzerin.FirstPageRegions | utils/parser_strawanzerin.py:73-88 | fewer than four items is an IndexError. The layout is produced exactly when item 3 lower-cased is "gratis", and is a ValueError otherwise. The layout is a header band above the headline box and four columns below it that meet edge to edge, from x 0 to the page width |
| Strawanzerin.ParseFirstPage | utils/parser_strawanzerin.py:63-92 | fewer than two large spans on page 0 is an IndexError, and a second large span not reading "gratis" is a ValueError. Otherwise the text is that of the five regions below the second large span's box, in order |
| Assembly.MakePublish | utils/parser_augustin.py:57-69 | the title is the headline, or the category when the headline is empty; the paper endpoint is chosen exactly for "editorial" |
| Assembly.ExtractText | utils/parser_augustin.py:199-245 | the raw text is previous + " " + page text when there is a previous text, in every branch. The lists are those of `extract_headlines`. A non-empty article needs both lists non-empty and an end glyph on the page, and is then the cleaned raw text |
| Assembly.ParsePage | utils/parser_augustin.py:308-389 | the next page is requested exactly when the article is empty and both lists are non-empty. Otherwise one post is made: titled with the joined headlines, with the article (or the stored raw text) plus the image text as body |
| Assembly.FlushEvent | utils/parser_augustin.py:341-367 | a forced upload publishes the stored raw text plus image text under the stored category, titled with the joined stored headlines or the category |
| Assembly.EventsBefore | utils/parser_augustin.py:460-499 | before `parse_page`, the uploads so far are kept and at most a forced upload and a Gustl post are added, the forced one first; the list ends with exactly the page's Gustl post, if any |
| Assembly.Prepare | utils/parser_augustin.py:460-519 | an editorial page fails with a KeyError exactly when the record has been reset. The record gets the page's category and image text, and keeps its stored article unless a forced upload reset it, in which case the stored text, headlines and start markers are empty and the cover's image id is gone; otherwise the cover's image id is kept. An editorial page takes the cover's image id |
| Assembly.Advance | utils/parser_augustin.py:521-544 | a page that needs the next one appends its lists and raw text to the record and leaves its category, image id, image text and the cover's image id as they are; any other page adds its post and resets the record |
| Assembly.Step | utils/parser_augustin.py:425-544 | one iteration stops exactly on the KeyError case and never drops an upload. When it stops, or the page waits for the next one, the uploads are exactly those made before `parse_page`; otherwise they are those followed by the page's own post. A record holds a category exactly while an article is open |
| Assembly.RunAppend | utils/parser_augustin.py:425-548 | `Run`, the page loop: running the loop over two stretches of pages is running it over the first and continuing from where it left off |
| Assembly.RunKeepsEvents | utils/parser_augustin.py:425-548 | `Run` only ever appends uploads, also when it stops |
| Assembly.ProcessIssue | utils/parser_augustin.py:392-548 | an unreadable issue number fails before any upload; an issue of at most one page uploads nothing. Otherwise the issue reports exactly the uploads of the loop over pages 1 and on, including those made before an exception, and fails exactly when that loop stops, with its exception |
| Assembly.IssueUploadsGrow | utils/parser_augustin.py:425-548 | more pages never take back an upload, and an issue that stopped ignores later pages |
| Assembly.OpenPageAddsNothing | utils/parser_augustin.py:521-531 | a page that leaves its article waiting for the next page, forces no upload and has no Gustl post adds no upload |
| Assembly.RunThenOpenPage | utils/parser_augustin.py:521-531 | a run followed by a page that waits for the next one, without forced upload or Gustl post, ends with the same uploads |
| Assembly.OpenArticleNotPublished | utils/parser_augustin.py:521-548 | such a page at the end of the issue leaves the issue's result unchanged: the open article is never published |
| Assembly.CoverNeverParsed | utils/parser_augustin.py:425-432 | the content of page 0 plays no part in the result |
| Assembly.ContinuationDoubles | utils/parser_augustin.py:524-529 | on a continuation page that needs yet another page, the stored lists are appended to themselves and the stored raw text is interleaved with blanks before the page's raw text |
| Assembly.IdlePagePublishes | utils/parser_augustin.py:334-367 | a page with no headline and no stored article is still published, titled with its category, with only the image text as body |
| Assembly.NextPageMeansNoEnd | utils/parser_augustin.py:219-238 | a page asks for the next one only when it has no end glyph or its cleaned article is empty |
| Assembly.WaitingKeepsRecord | utils/parser_augustin.py:460-531 | a page that waits for the next one leaves the record with its own category, the image chosen for it, its image text, and the cover's image id unless a forced upload reset the record first |
| Assembly.FlushAfterWaiting | utils/parser_augustin.py:460-470 | the page after a waiting one, if its category differs, first uploads the waiting article under the waiting page's category and image, with the stored raw text followed by that page's image text |
| Assembly.AllWaitingKeepsCover | utils/parser_augustin.py:505-531 | while every page waits for the next one and none forces an upload, the loop keeps running and the record keeps the cover's image id |
| Assembly.EditorialBeforeReset | utils/parser_augustin.py:512-515 | before any page has been published or force-published, an editorial page that forces no upload does not stop the issue and takes the cover's image |
| Assembly.EditorialAfterReset | utils/parser_augustin.py:512-515 | after an iteration that published its page, an editorial page stops the issue with a KeyError for `first_page_image_id` |

## Left out

- The PDF library. Pages are values: the text of `get_text()` and the blocks of `get_text("dict", sort=True)` (utils/parser_augustin.py:175), already in that sorted reading order. Pixmaps, debug images, A3-to-A4 splitting and cropping are not modelled. An editorial page arrives already cropped, because the content a page input carries is the page `parse_page` reads.
- The category as a loop input. The page loop takes each page's category label as an input. `CategoryRegions.IdentifyCategory` models how the label is read from the page's words, but it is not wired into the loop.
- Image extraction and upload, including the Gustl mask detection (`get_all_images`, `parse_image`). These need pixel data and network calls. Each page's image id, image text and Gustl post id are inputs. The sample-image fallback of lines 501-504 is folded into the image id input.
- The cover page's image upload (`save_page_as_image`). The cover's image id is an input.
- HTTP, authentication and base64 encoding. Each upload is a `Publish` event. These are not modelled:
  - the status-code checks;
  - the `IOError` wrappers;
  - the papers-category lookup and creation (lines 406-408);
  - the meta fields `protocol`, `photograph`, `author` and `category_papers`.
- `upload_post` as called. The call sites do not match the function's signature, and `upload_paper` is not part of this model.
- Category ids on events. `CategoryLookup.CheckForCategory` models the matching loop on its own. The id it finds is not placed on the events.
- Unread loop state. The `categories` list and the `index` key of the reset record are never read, so they are omitted.
- Unicode. `isspace`, `isdigit`, `strip`, `lower` and `\d` are modelled over ASCII.
- Floating point. Sizes and coordinates are `real` and are only compared, never computed with.
- CategoryRegions.TopRect, CategoryRegions.SideRect: the contracts state where the regions lie, not their exact x coordinates, which are the constants in the bodies.
- CoverColor.ExtractColorCode: takes page 0's blocks directly. The exception that `src[0]` raises on an empty document (parsers/extract_page_0.py:60) is not modelled.
- Strawanzerin.ParseFirstPage: an empty document is reported as an IndexError. The PDF library's own exception type for `load_page(0)` is not part of this model.
- The Strawanzerin text blocks. Scans of the supplement and of the cover use the extraction flags that leave out image blocks, so their pages hold text blocks only. A block without lines there, which would raise a KeyError, is not modelled.
- `parse_strawanzerin_image`, `parse_strawanzerin`, `save_page_0_as_image`, `pdf_check` and `upload_file`. They are file, network and environment wrappers.
- `main.py`, `utils/parser.py`, `utils/image_parser.py`, `utils/text_parser.py` and the prototype scripts. They duplicate or precede the modelled code.
