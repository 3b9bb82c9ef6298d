/** Article assembly of utils/parser_augustin.py: `create_meta_information`,
    `extract_text`, `parse_page` and the page loop of `process_augustin_file`.
    The loop is a fold over the pages that threads the `meta_array` record;
    every upload to the web site becomes an emitted `Publish` event. */
module Assembly {
  import opened Results
  import opened Text
  import opened PageContent
  import opened SpanSignals
  import opened Normalize
  import opened CategoryRegions

  /** The web site's id of an uploaded image. */
  type ImageId = string

  /** Posts go to the article endpoint; the editorial goes to the paper endpoint. */
  datatype Route = Post | Paper

  /** One upload: title, text, category label, featured image and endpoint. */
  datatype Publish = Publish(title: string, body: string, category: string, imageId: ImageId, route: Route)

  /** `meta_array` of the loop. `category` is `None` for the initial 0;
      `firstPageImageId` is `None` once the record has been replaced by a reset
      record, which lacks that key. */
  datatype Meta = Meta(
    category: Option<string>,
    imageId: ImageId,
    imageText: string,
    rawText: string,
    headlines: seq<string>,
    startMarkers: seq<string>,
    firstPageImageId: Option<ImageId>)

  /** The record written at lines 475-484 and 535-544. */
  const ResetMeta: Meta := Meta(None, "", "", "", [], [], None)

  /** One page of the issue as the loop sees it: the category label that
      `identify_category` read from it, the page content `parse_page` reads, and
      what `parse_image` found (the image id already falls back to the sample
      image when the page has none) including the id of a Gustl post, if any. */
  datatype PageInput = PageInput(
    category: string,
    content: Page,
    imageId: ImageId,
    imageText: string,
    gustlId: Option<ImageId>)

  /** `create_meta_information(category, headline)` (lines 57-69), reduced to
      the fields an upload reads, plus the endpoint choice of line 368. */
  function MakePublish(category: string, headline: string, body: string, imageId: ImageId): (e: Publish)
    ensures e.title == (if headline != [] then headline else category)
    ensures e.route == Paper <==> category == "editorial"
    ensures e.body == body && e.category == category && e.imageId == imageId
  {
    Publish(if headline != [] then headline else category, body, category, imageId,
            if category == "editorial" then Paper else Post)
  }

  /** What `extract_text` returns: raw text, article, headlines, start markers. */
  datatype Extracted = Extracted(
    rawText: string,
    article: string,
    headlines: Option<seq<string>>,
    startMarkers: Option<seq<string>>)

  /** `extract_text(page, previous, markers, headlines, searching)` (lines 199-245). */
  function ExtractText(page: Page, previous: Option<string>, markers: Option<seq<string>>,
                       headlines: Option<seq<string>>, searching: bool): (r: Extracted)
    ensures r.rawText == if previous.None? then page.rawText else previous.value + " " + page.rawText
    ensures var sig := ExtractHeadlines(page, markers, headlines, searching);
            r.headlines == sig.headlines && r.startMarkers == sig.startMarkers
    ensures var sig := ExtractHeadlines(page, markers, headlines, searching);
            r.article != [] ==> Truthy(sig.headlines) && Truthy(sig.startMarkers) && sig.endCount >= 1
    ensures var sig := ExtractHeadlines(page, markers, headlines, searching);
            Truthy(sig.headlines) && Truthy(sig.startMarkers) && sig.endCount >= 1 ==>
              r.article == CleanText(r.rawText, sig.startMarkers.value)
  {
    var newRaw := if previous.None? then page.rawText else previous.value + " " + page.rawText;
    var sig := ExtractHeadlines(page, markers, headlines, searching);
    if Truthy(sig.headlines) && Truthy(sig.startMarkers) then
      if sig.endCount == 0 then Extracted(newRaw, [], sig.headlines, sig.startMarkers)
      else Extracted(newRaw, CleanText(newRaw, sig.startMarkers.value), sig.headlines, sig.startMarkers)
    else Extracted(newRaw, [], sig.headlines, sig.startMarkers)
  }

  /** The call at lines 315-326: a stored raw text makes this a continuation page. */
  function ExtractFor(page: Page, meta: Meta): Extracted
  {
    if meta.rawText != [] then ExtractText(page, Some(meta.rawText), Some(meta.startMarkers), Some(meta.headlines), true)
    else ExtractText(page, None, None, None, false)
  }

  /** `parse_page` either asks for the next page or uploads. */
  datatype PageOutcome =
    | NextPage(rawText: string, headlines: seq<string>, startMarkers: seq<string>)
    | Posted(event: Publish)

  /** `parse_page(page, meta)` without `upload_data_now` (lines 313-340, 345-389). */
  function ParsePage(page: Page, meta: Meta): (r: PageOutcome)
    requires meta.category.Some?
    ensures var ex := ExtractFor(page, meta);
            r.NextPage? <==> ex.article == [] && Truthy(ex.headlines) && Truthy(ex.startMarkers)
    ensures var ex := ExtractFor(page, meta);
            r.NextPage? ==> r == NextPage(ex.rawText, ex.headlines.value, ex.startMarkers.value)
    ensures var ex := ExtractFor(page, meta);
            r.Posted? ==> r.event == MakePublish(meta.category.value, JoinWith(OrEmpty(ex.headlines), " "),
                                                 (if ex.article != [] then ex.article else meta.rawText) + meta.imageText,
                                                 meta.imageId)
  {
    var ex := ExtractFor(page, meta);
    if ex.article == [] && Truthy(ex.headlines) && Truthy(ex.startMarkers) then
      NextPage(ex.rawText, ex.headlines.value, ex.startMarkers.value)
    else
      var headline := JoinWith(OrEmpty(ex.headlines), " ");
      var body := if ex.article != [] then ex.article else meta.rawText;
      Posted(MakePublish(meta.category.value, headline, body + meta.imageText, meta.imageId))
  }

  /** `parse_page(page, meta)` with `upload_data_now` set (lines 341-389): the
      stored article is uploaded as it stands, without reading the page. */
  function FlushEvent(meta: Meta): (e: Publish)
    requires meta.category.Some?
    ensures e.category == meta.category.value && e.imageId == meta.imageId
    ensures e.body == meta.rawText + meta.imageText
    ensures e.title == if JoinWith(meta.headlines, " ") != [] then JoinWith(meta.headlines, " ") else meta.category.value
    ensures e.route == Paper <==> meta.category.value == "editorial"
  {
    MakePublish(meta.category.value, JoinWith(meta.headlines, " "), meta.rawText + meta.imageText, meta.imageId)
  }

  /** The loop variables: `meta_array`, `next_page_needed`, and the uploads so far. */
  datatype Loop = Loop(meta: Meta, nextPageNeeded: bool, events: seq<Publish>)

  /** Lines 460-464: an article waiting for its end is uploaded as it stands
      when the category changes. */
  predicate Flushes(st: Loop, category: string)
  {
    st.meta.category.Some? && category != st.meta.category.value && st.nextPageNeeded
  }

  function GustlEvents(p: PageInput, category: string): seq<Publish>
  {
    match p.gustlId
    case None => []
    case Some(id) => [Publish("Gustl", "", category, id, Post)]
  }

  /** The uploads of an iteration before `parse_page` runs: the forced upload
      of lines 460-470 and the Gustl post of lines 489-499. */
  function EventsBefore(st: Loop, p: PageInput): (es: seq<Publish>)
    ensures st.events <= es
    ensures |es| == |st.events| + (if Flushes(st, p.category) then 1 else 0) + |GustlEvents(p, p.category)|
    ensures Flushes(st, p.category) ==> es[|st.events|] == FlushEvent(st.meta)
    ensures es[|es| - |GustlEvents(p, p.category)|..] == GustlEvents(p, p.category)
  {
    var cat := p.category;
    st.events + (if Flushes(st, cat) then [FlushEvent(st.meta)] else []) + GustlEvents(p, cat)
  }

  /** The record `parse_page` is called with (lines 460-519): reset after a
      forced upload, then given the page's image, text and category; an
      editorial page takes the cover's image id, which a reset record lacks. */
  function Prepare(st: Loop, p: PageInput): (r: Result<Meta>)
    ensures var cat := p.category;
            r.Err? <==> cat == "editorial" && (Flushes(st, cat) || st.meta.firstPageImageId.None?)
    ensures r.Err? ==> r.error == KeyError("first_page_image_id")
    ensures r.Ok? ==> r.value.category == Some(p.category)
    ensures r.Ok? && Flushes(st, p.category) ==>
              r.value.rawText == [] && r.value.headlines == [] && r.value.startMarkers == []
    ensures r.Ok? && !Flushes(st, p.category) ==>
              r.value.rawText == st.meta.rawText && r.value.headlines == st.meta.headlines
              && r.value.startMarkers == st.meta.startMarkers
    ensures r.Ok? ==> r.value.imageText == p.imageText
    ensures r.Ok? ==> r.value.imageId == if p.category == "editorial" then st.meta.firstPageImageId.value else p.imageId
    ensures r.Ok? ==> r.value.firstPageImageId == if Flushes(st, p.category) then None else st.meta.firstPageImageId
  {
    var cat := p.category;
    var meta0 := if Flushes(st, cat) then ResetMeta else st.meta;
    var meta1 := meta0.(imageId := p.imageId, imageText := p.imageText, category := Some(cat));
    if cat == "editorial" && meta1.firstPageImageId.None? then Err(KeyError("first_page_image_id"))
    else if cat == "editorial" then Ok(meta1.(imageId := meta1.firstPageImageId.value))
    else Ok(meta1)
  }

  /** Lines 521-544: a page that needs the next one extends the record (the
      raw text through `" ".join`); any other page resets it. */
  function Advance(meta: Meta, events: seq<Publish>, outcome: PageOutcome): (r: Loop)
    requires meta.category.Some?
    ensures r.nextPageNeeded <==> outcome.NextPage?
    ensures r.meta.category.Some? <==> r.nextPageNeeded
    ensures outcome.Posted? ==> r.meta == ResetMeta && r.events == events + [outcome.event]
    ensures outcome.NextPage? ==> r.events == events
    ensures outcome.NextPage? ==>
              && r.meta.rawText == Interleave(meta.rawText) + outcome.rawText
              && r.meta.headlines == meta.headlines + outcome.headlines
              && r.meta.startMarkers == meta.startMarkers + outcome.startMarkers
    ensures outcome.NextPage? ==>
              && r.meta.category == meta.category && r.meta.imageId == meta.imageId
              && r.meta.imageText == meta.imageText && r.meta.firstPageImageId == meta.firstPageImageId
  {
    match outcome
    case NextPage(raw, hs, sms) =>
      Loop(meta.(rawText := Interleave(meta.rawText) + raw,
                 headlines := meta.headlines + hs,
                 startMarkers := meta.startMarkers + sms), true, events)
    case Posted(e) =>
      Loop(ResetMeta, false, events + [e])
  }

  /** Where the loop stands after a page: still running, or stopped by an
      exception after the uploads in `events` had already been made. */
  datatype Progress = Running(loop: Loop) | Stopped(events: seq<Publish>, error: Error)

  /** The uploads made so far, whether or not the loop is still running. */
  function Uploads(pr: Progress): seq<Publish>
  {
    match pr
    case Running(l) => l.events
    case Stopped(es, _) => es
  }

  /** One iteration of the page loop (lines 434-544). The KeyError of line 515
      comes after the forced upload and the Gustl post of the same iteration. */
  function Step(st: Loop, p: PageInput): (r: Progress)
    ensures var cat := p.category;
            r.Stopped? <==> cat == "editorial" && (Flushes(st, cat) || st.meta.firstPageImageId.None?)
    ensures r.Stopped? ==> r.error == KeyError("first_page_image_id")
    ensures st.events <= Uploads(r)
    ensures var cat := p.category;
            |Uploads(r)| == |st.events| + (if Flushes(st, cat) then 1 else 0) + |GustlEvents(p, cat)|
                            + (if r.Running? && !r.loop.nextPageNeeded then 1 else 0)
    ensures Flushes(st, p.category) ==> Uploads(r)[|st.events|] == FlushEvent(st.meta)
    ensures r.Running? ==> (r.loop.meta.category.Some? <==> r.loop.nextPageNeeded)
    ensures r.Running? && !r.loop.nextPageNeeded ==> r.loop.meta == ResetMeta
    ensures r.Stopped? ==> Uploads(r) == EventsBefore(st, p)
    ensures r.Running? ==> Prepare(st, p).Ok?
    ensures r.Running? && r.loop.nextPageNeeded ==> Uploads(r) == EventsBefore(st, p)
    ensures r.Running? && !r.loop.nextPageNeeded ==>
              && Prepare(st, p).Ok?
              && ParsePage(p.content, Prepare(st, p).value).Posted?
              && Uploads(r) == EventsBefore(st, p) + [ParsePage(p.content, Prepare(st, p).value).event]
  {
    match Prepare(st, p)
    case Err(e) => Stopped(EventsBefore(st, p), e)
    case Ok(meta) => Running(Advance(meta, EventsBefore(st, p), ParsePage(p.content, meta)))
  }

  /** The page loop over the given pages; an exception ends the issue. */
  function Run(st: Loop, pages: seq<PageInput>): Progress
    decreases |pages|
  {
    if pages == [] then Running(st)
    else
      match Step(st, pages[0])
      case Stopped(es, e) => Stopped(es, e)
      case Running(next) => Run(next, pages[1..])
  }

  /** The loop over a concatenation is the loop over the second part started
      from where the first part left off. */
  lemma {:induction false} RunAppend(st: Loop, ps: seq<PageInput>, qs: seq<PageInput>)
    ensures Run(st, ps + qs) ==
            match Run(st, ps)
            case Stopped(es, e) => Stopped(es, e)
            case Running(mid) => Run(mid, qs)
    decreases |ps|
  {
    if ps == [] {
      assert ps + qs == qs;
    } else {
      assert (ps + qs)[0] == ps[0];
      assert (ps + qs)[1..] == ps[1..] + qs;
      var r := Step(st, ps[0]);
      if r.Running? {
        RunAppend(r.loop, ps[1..], qs);
      }
    }
  }

  /** The loop only ever appends uploads, also when it stops. */
  lemma {:induction false} RunKeepsEvents(st: Loop, pages: seq<PageInput>)
    ensures st.events <= Uploads(Run(st, pages))
    decreases |pages|
  {
    if pages != [] {
      var r := Step(st, pages[0]);
      if r.Running? {
        RunKeepsEvents(r.loop, pages[1..]);
      }
    }
  }

  /** The loop state before page 1 (lines 411-423 and 429): no category yet,
      nothing stored, and the cover's image id. */
  function Start(coverId: ImageId): Loop
  {
    Loop(ResetMeta.(firstPageImageId := Some(coverId)), false, [])
  }

  /** What processing an issue leaves behind: the uploads made, in order, and
      the exception that ended it early, if any. */
  datatype Report = Report(uploads: seq<Publish>, error: Option<Error>)

  /** `process_augustin_file` after the PDF has been split into pages: the
      issue number must be readable from the directory name (line 401); page 0
      is the cover, whose image id is `coverId` and which is never parsed; the
      loop runs over pages 1 and on. An article still waiting for its end after
      the last page is not uploaded. */
  function ProcessIssue(directory: string, coverId: ImageId, pages: seq<PageInput>): (r: Report)
    ensures ExtractVersionNumber(directory).Err? ==> r == Report([], Some(ExtractVersionNumber(directory).error))
    ensures ExtractVersionNumber(directory).Ok? && |pages| <= 1 ==> r == Report([], None)
    ensures ExtractVersionNumber(directory).Ok? && |pages| > 1 ==>
              (r.error.None? <==> Run(Start(coverId), pages[1..]).Running?)
    ensures ExtractVersionNumber(directory).Ok? && pages != [] ==>
              && r.uploads == Uploads(Run(Start(coverId), pages[1..]))
              && (Run(Start(coverId), pages[1..]).Stopped? ==> r.error == Some(Run(Start(coverId), pages[1..]).error))
  {
    match ExtractVersionNumber(directory)
    case Err(e) => Report([], Some(e))
    case Ok(_) =>
      if pages == [] then Report([], None)
      else
        match Run(Start(coverId), pages[1..])
        case Stopped(es, e) => Report(es, Some(e))
        case Running(last) => Report(last.events, None)
  }

  /** More pages never take back an upload: the uploads of an issue come
      first among the uploads of the same issue with pages appended, and an
      issue that stopped with an exception ignores whatever follows. */
  lemma IssueUploadsGrow(directory: string, coverId: ImageId, ps: seq<PageInput>, qs: seq<PageInput>)
    requires ps != []
    ensures ProcessIssue(directory, coverId, ps).uploads <= ProcessIssue(directory, coverId, ps + qs).uploads
    ensures ProcessIssue(directory, coverId, ps).error.Some? ==>
              ProcessIssue(directory, coverId, ps + qs) == ProcessIssue(directory, coverId, ps)
  {
    if ExtractVersionNumber(directory).Ok? {
      var start := Start(coverId);
      assert (ps + qs)[1..] == ps[1..] + qs;
      RunAppend(start, ps[1..], qs);
      var r := Run(start, ps[1..]);
      if r.Running? {
        RunKeepsEvents(r.loop, qs);
      }
    }
  }

  /** A page that leaves its article waiting for an end glyph, forces no
      upload and has no Gustl post adds no upload. */
  lemma OpenPageAddsNothing(st: Loop, q: PageInput)
    requires q.gustlId.None? && !Flushes(st, q.category)
    requires Step(st, q).Running? && Step(st, q).loop.nextPageNeeded
    ensures Uploads(Step(st, q)) == st.events
  {
  }

  /** The loop over one page is that page's iteration. */
  lemma RunOne(st: Loop, q: PageInput)
    ensures Run(st, [q]) == Step(st, q)
  {
    assert [q][0] == q && [q][1..] == [];
  }

  /** A page that leaves its article open, after a stretch of pages that ran
      through, leaves the loop running with the same uploads. */
  lemma RunThenOpenPage(st: Loop, rest: seq<PageInput>, q: PageInput, mid: Loop)
    requires Run(st, rest) == Running(mid)
    requires q.gustlId.None? && !Flushes(mid, q.category)
    requires Step(mid, q).Running? && Step(mid, q).loop.nextPageNeeded
    ensures Run(st, rest + [q]).Running? && Run(st, rest + [q]).loop.events == mid.events
  {
    RunAppend(st, rest, [q]);
    RunOne(mid, q);
    OpenPageAddsNothing(mid, q);
  }

  /** Such a page at the end of the issue changes nothing: the open article
      is never published. `mid` is the loop state before the last page. */
  lemma OpenArticleNotPublished(directory: string, coverId: ImageId, ps: seq<PageInput>, q: PageInput, mid: Loop)
    requires ps != [] && Run(Start(coverId), ps[1..]) == Running(mid)
    requires q.gustlId.None? && !Flushes(mid, q.category)
    requires Step(mid, q).Running? && Step(mid, q).loop.nextPageNeeded
    ensures ProcessIssue(directory, coverId, ps + [q]) == ProcessIssue(directory, coverId, ps)
  {
    AfterCoverAppend(ps, q);
    RunThenOpenPage(Start(coverId), ps[1..], q, mid);
    var last := Run(Start(coverId), ps[1..] + [q]).loop;
    IssueOfRunning(directory, coverId, ps + [q], last);
    IssueOfRunning(directory, coverId, ps, mid);
  }

  /** An issue whose page loop runs through reports the loop's uploads and no
      error, unless the issue number cannot be read. */
  lemma IssueOfRunning(directory: string, coverId: ImageId, pages: seq<PageInput>, last: Loop)
    requires pages != [] && Run(Start(coverId), pages[1..]) == Running(last)
    ensures ProcessIssue(directory, coverId, pages) ==
              if ExtractVersionNumber(directory).Ok? then Report(last.events, None)
              else Report([], Some(ExtractVersionNumber(directory).error))
  {
  }

  /** The pages after the cover, once a page is appended. */
  lemma AfterCoverAppend(ps: seq<PageInput>, q: PageInput)
    requires ps != []
    ensures (ps + [q])[1..] == ps[1..] + [q]
  {
  }

  /** The cover page's content plays no part in the result. */
  lemma CoverNeverParsed(directory: string, coverId: ImageId, p: PageInput, q: PageInput, rest: seq<PageInput>)
    ensures ProcessIssue(directory, coverId, [p] + rest) == ProcessIssue(directory, coverId, [q] + rest)
  {
    assert ([p] + rest)[1..] == rest == ([q] + rest)[1..];
  }

  /** On a continuation page that asks for yet another page, the stored lists
      are extended by themselves (they are the same list objects), and the
      stored raw text has blanks put between its characters before the page's
      raw text, which itself repeats the stored text, is appended. */
  lemma ContinuationDoubles(st: Loop, p: PageInput)
    requires !Flushes(st, p.category) && st.meta.rawText != []
    requires Step(st, p).Running? && Step(st, p).loop.nextPageNeeded
    ensures var m := Step(st, p).loop.meta;
            && m.headlines == st.meta.headlines + st.meta.headlines
            && m.startMarkers == st.meta.startMarkers + st.meta.startMarkers
            && m.rawText == Interleave(st.meta.rawText) + st.meta.rawText + " " + p.content.rawText
  {
    var meta := Prepare(st, p).value;
    SearchingKeepsLists(p.content, Some(meta.startMarkers), Some(meta.headlines));
    var ex := ExtractFor(p.content, meta);
    assert ex == ExtractText(p.content, Some(meta.rawText), Some(meta.startMarkers), Some(meta.headlines), true);
    var o := ParsePage(p.content, meta);
    assert o == NextPage(ex.rawText, ex.headlines.value, ex.startMarkers.value);
  }

  /** A page that starts no article (no start marker and no headline on a page
      after a completed one) is still uploaded: titled with its category, with
      only the image text as body. */
  lemma IdlePagePublishes(page: Page, meta: Meta)
    requires meta.category.Some? && meta.rawText == []
    requires ExtractHeadlines(page, None, None, false).headlines.None?
    ensures ParsePage(page, meta) ==
            Posted(MakePublish(meta.category.value, [], meta.imageText, meta.imageId))
  {
    assert [] + meta.imageText == meta.imageText;
  }

  /** A page asks for the next one only when its end glyph is missing or its
      cleaned article came out empty. */
  lemma NextPageMeansNoEnd(page: Page, meta: Meta)
    requires meta.category.Some? && ParsePage(page, meta).NextPage?
    ensures var sig := if meta.rawText != [] then ExtractHeadlines(page, Some(meta.startMarkers), Some(meta.headlines), true)
                       else ExtractHeadlines(page, None, None, false);
            sig.endCount == 0 || CleanText(ExtractFor(page, meta).rawText, sig.startMarkers.value) == []
  {
  }

  /** A page that waits for the next one leaves the record with its own
      category, the image `Prepare` chose for it, its image text, and the
      cover's image id unless a forced upload reset the record first. */
  lemma WaitingKeepsRecord(st: Loop, p: PageInput)
    requires Step(st, p).Running? && Step(st, p).loop.nextPageNeeded
    ensures Prepare(st, p).Ok?
    ensures var m := Step(st, p).loop.meta;
            && m.category == Some(p.category) && m.imageId == Prepare(st, p).value.imageId
            && m.imageText == p.imageText
            && m.firstPageImageId == if Flushes(st, p.category) then None else st.meta.firstPageImageId
  {
    var meta := Prepare(st, p).value;
    assert Step(st, p).loop == Advance(meta, EventsBefore(st, p), ParsePage(p.content, meta));
  }

  /** When the page after a waiting one has another category, its iteration
      first uploads the waiting article as it stands: under the waiting page's
      category and image, with the stored raw text and that page's image text. */
  lemma FlushAfterWaiting(st: Loop, p: PageInput, q: PageInput)
    requires Step(st, p).Running? && Step(st, p).loop.nextPageNeeded
    requires q.category != p.category
    ensures var mid := Step(st, p).loop;
            && Flushes(mid, q.category)
            && |mid.events| < |Uploads(Step(mid, q))|
            && var e := Uploads(Step(mid, q))[|mid.events|];
               && e.category == p.category && e.imageId == Prepare(st, p).value.imageId
               && e.body == mid.meta.rawText + p.imageText
  {
    WaitingKeepsRecord(st, p);
  }

  /** A stretch of pages in which every page waits for the next one and none
      forces an upload: nothing is published and the record is never reset. */
  predicate AllWaiting(st: Loop, pages: seq<PageInput>)
    decreases |pages|
  {
    pages == [] ||
      (&& !Flushes(st, pages[0].category)
       && Step(st, pages[0]).Running? && Step(st, pages[0]).loop.nextPageNeeded
       && AllWaiting(Step(st, pages[0]).loop, pages[1..]))
  }

  /** Along such a stretch the loop keeps running and the record keeps the
      cover's image id. */
  lemma {:induction false} AllWaitingKeepsCover(st: Loop, pages: seq<PageInput>, coverId: ImageId)
    requires AllWaiting(st, pages) && st.meta.firstPageImageId == Some(coverId)
    ensures Run(st, pages).Running? && Run(st, pages).loop.meta.firstPageImageId == Some(coverId)
    decreases |pages|
  {
    if pages != [] {
      WaitingKeepsRecord(st, pages[0]);
      AllWaitingKeepsCover(Step(st, pages[0]).loop, pages[1..], coverId);
    }
  }

  /** The converse of `EditorialAfterReset`: as long as no page has been
      published or force-published, an editorial page that forces no upload
      does not stop the issue, and it takes the cover's image. `mid` is the
      loop state after the stretch. */
  lemma EditorialBeforeReset(coverId: ImageId, ps: seq<PageInput>, q: PageInput, mid: Loop)
    requires AllWaiting(Start(coverId), ps) && Run(Start(coverId), ps) == Running(mid)
    requires q.category == "editorial" && !Flushes(mid, q.category)
    ensures Step(mid, q).Running? && Prepare(mid, q).Ok? && Prepare(mid, q).value.imageId == coverId
  {
    AllWaitingKeepsCover(Start(coverId), ps, coverId);
  }

  /** Once a page has been uploaded the record no longer holds the cover's
      image id, so a later editorial page ends the issue with a KeyError. */
  lemma EditorialAfterReset(st: Loop, p: PageInput, q: PageInput)
    requires Step(st, p).Running? && !Step(st, p).loop.nextPageNeeded
    requires q.category == "editorial"
    ensures Step(Step(st, p).loop, q).Stopped?
    ensures Step(Step(st, p).loop, q).error == KeyError("first_page_image_id")
  {
  }
}
