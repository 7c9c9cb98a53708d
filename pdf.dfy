/** The PDF parser (src/parse/parsePDF.ts).

    The text-layer extractor (`pdfToPages`), the rasteriser (`pdfToImages`
    and its `getPage`) and the OCR engine (`Tesseract.recognize`) are inputs
    gathered in `PdfBackend`; a call that throws is `None` (or `false` for
    opening the rasteriser). The page loop is the method `ParsePdf`, proved
    against the specification function `PdfOutcome`. */
module PdfParse {
  import opened Types
  import opened TextNormalize

  /** One element of what `pdfToPages` yields: a page number and its text layer. */
  datatype PdfPage = PdfPage(page: int, text: string)

  datatype PdfBackend = PdfBackend(
    pages: Option<seq<PdfPage>>,      // pdfToPages(buffer); None when it throws
    opens: bool,                      // pdfToImages(buffer, { scale: 3 }) succeeds
    getPage: int -> Option<Bytes>,    // document.getPage(n); None when it throws
    recognize: Bytes -> Option<string>) // Tesseract.recognize(image).data.text

  /** Why `parsePDF` rejects: the exception of the first step that throws. */
  datatype PdfError =
    | TextLayerFailed
    | RasterOpenFailed
    | CoverRasterFailed
    | PageRasterFailed(page: int)
    | OcrFailed(page: int)

  /** `page.text.trim() != ""`: the page has a usable text layer. */
  predicate HasTextLayer(p: PdfPage) {
    Trim(p.text) != ""
  }

  /** The record one loop iteration pushes for page `p`: its normalised text
      layer, or, for a blank page, the normalised OCR text of its raster. */
  function PageRecord(lib: PdfBackend, p: PdfPage): Result<TextRecord, PdfError> {
    if HasTextLayer(p) then Ok(PageText(p.page, Normalize(p.text)))
    else match lib.getPage(p.page)
      case None => Err(PageRasterFailed(p.page))
      case Some(image) =>
        match lib.recognize(image)
        case None => Err(OcrFailed(p.page))
        case Some(text) => Ok(PageText(p.page, Normalize(text)))
  }

  /** `PageRecord` for a fixed backend, as the per-page step of the loop. */
  function PageStep(lib: PdfBackend): PdfPage -> Result<TextRecord, PdfError> {
    p => PageRecord(lib, p)
  }

  /** The `texts` array after the loop has run `step` over `pages`, one page
      after the other, stopping at the first page whose step throws. */
  function PageTexts(pages: seq<PdfPage>, step: PdfPage -> Result<TextRecord, PdfError>)
    : (r: Result<seq<TextRecord>, PdfError>)
    ensures r.Ok? <==> forall i :: 0 <= i < |pages| ==> step(pages[i]).Ok?
    ensures r.Ok? ==> |r.value| == |pages|
    ensures r.Ok? ==> forall i :: 0 <= i < |pages| ==> r.value[i] == step(pages[i]).value
  {
    if pages == [] then Ok([])
    else
      var init := pages[..|pages| - 1];
      match PageTexts(init, step)
      case Err(e) => Err(e)
      case Ok(ts) =>
        match step(pages[|pages| - 1])
        case Err(e) => Err(e)
        case Ok(t) => Ok(ts + [t])
  }

  /** What `parsePDF` returns: the text layer, the rasteriser and the cover
      (page 1) are obtained before the loop runs; then the records and the
      cover wrapped as `${uniqueId}.jpeg`. */
  function PdfOutcome(uniqueId: string, lib: PdfBackend): Result<ParsedFile, PdfError> {
    match lib.pages
    case None => Err(TextLayerFailed)
    case Some(pages) =>
      if !lib.opens then Err(RasterOpenFailed)
      else match lib.getPage(1)
        case None => Err(CoverRasterFailed)
        case Some(cover) =>
          match PageTexts(pages, PageStep(lib))
          case Err(e) => Err(e)
          case Ok(texts) => Ok(ParsedFile(texts, CoverFile(uniqueId, cover)))
  }

  /** The page numbers the loop hands to the OCR engine when every raster
      succeeds: those of the pages without a text layer, in page order. */
  function BlankPages(pages: seq<PdfPage>): seq<int> {
    if pages == [] then []
    else
      var last := pages[|pages| - 1];
      BlankPages(pages[..|pages| - 1]) + (if HasTextLayer(last) then [] else [last.page])
  }

  /** One iteration of the page loop: the text layer when `trim()` leaves
      something, otherwise the page is rasterised and recognised. `ocr` tells
      whether the OCR engine was called. */
  method ReadPage(lib: PdfBackend, page: PdfPage) returns (r: Result<TextRecord, PdfError>, ocr: bool)
    ensures r == PageRecord(lib, page)
    ensures ocr <==> !HasTextLayer(page) && lib.getPage(page.page).Some?
  {
    if Trim(page.text) != "" {
      return Ok(PageText(page.page, Normalize(page.text))), false;
    }
    var image := lib.getPage(page.page);
    if image.None? {
      return Err(PageRasterFailed(page.page)), false;
    }
    var recognized := lib.recognize(image.value);
    if recognized.None? {
      return Err(OcrFailed(page.page)), true;
    }
    return Ok(PageText(page.page, Normalize(recognized.value))), true;
  }

  /** The `for...of` loop over the pages, pushing one record per page onto
      `texts` until a page throws. `ocrPages` lists, in call order, the pages
      whose raster went to the OCR engine. */
  method ReadPages(lib: PdfBackend, pages: seq<PdfPage>) returns (r: Result<seq<TextRecord>, PdfError>, ocrPages: seq<int>)
    ensures r == PageTexts(pages, PageStep(lib))
    ensures r.Ok? ==> ocrPages == BlankPages(pages)
    ensures ocrPages <= BlankPages(pages)
  {
    ocrPages := [];
    var texts: seq<TextRecord> := [];
    var i := 0;
    while i < |pages|
      invariant 0 <= i <= |pages|
      invariant PageTexts(pages[..i], PageStep(lib)) == Ok(texts)
      invariant ocrPages == BlankPages(pages[..i])
    {
      var record, ocr := ReadPage(lib, pages[i]);
      assert PageStep(lib)(pages[i]) == record;
      BlankPagesStep(pages, i);
      if ocr {
        ocrPages := ocrPages + [pages[i].page];
      }
      if record.Err? {
        FirstPageErrorWins(pages, PageStep(lib), i);
        BlankPagesPrefix(pages, if ocr then i + 1 else i);
        return Err(record.error), ocrPages;
      }
      assert pages[..i + 1][..i] == pages[..i];
      texts := texts + [record.value];
      i := i + 1;
    }
    assert pages[..i] == pages;
    return Ok(texts), ocrPages;
  }

  /** `parsePDF(file)`: text layer, rasteriser and cover (page 1) first, then
      the page loop, then the cover file. */
  method ParsePdf(uniqueId: string, lib: PdfBackend) returns (r: Result<ParsedFile, PdfError>, ocrPages: seq<int>)
    ensures r == PdfOutcome(uniqueId, lib)
    ensures r.Ok? ==> ocrPages == BlankPages(lib.pages.value)
    ensures lib.pages.Some? ==> ocrPages <= BlankPages(lib.pages.value)
    ensures lib.pages.None? || !lib.opens || lib.getPage(1).None? ==> ocrPages == []
  {
    if lib.pages.None? {
      return Err(TextLayerFailed), [];
    }
    var pages := lib.pages.value;
    if !lib.opens {
      return Err(RasterOpenFailed), [];
    }
    var coverImage := lib.getPage(1);
    if coverImage.None? {
      return Err(CoverRasterFailed), [];
    }
    var texts;
    texts, ocrPages := ReadPages(lib, pages);
    if texts.Err? {
      return Err(texts.error), ocrPages;
    }
    var fileImage := CoverFile(uniqueId, coverImage.value);
    return Ok(ParsedFile(texts.value, fileImage)), ocrPages;
  }

  // ---------------------------------------------------------------------
  // Properties

  /** The parse succeeds exactly when every step before the loop succeeds and
      every page's record can be produced. */
  lemma PdfOkIff(uniqueId: string, lib: PdfBackend)
    ensures PdfOutcome(uniqueId, lib).Ok? <==>
      && lib.pages.Some? && lib.opens && lib.getPage(1).Some?
      && forall i :: 0 <= i < |lib.pages.value| ==> PageRecord(lib, lib.pages.value[i]).Ok?
  {
  }

  /** On success: one record per page, in page order, tagged with the page's
      number, with normalised text that is non-empty for a page with a text
      layer; the cover is the raster of page 1. */
  lemma PdfOkContents(uniqueId: string, lib: PdfBackend)
    requires PdfOutcome(uniqueId, lib).Ok?
    ensures var f := PdfOutcome(uniqueId, lib).value;
      var pages := lib.pages.value;
      && |f.texts| == |pages|
      && (forall i :: 0 <= i < |pages| ==>
            && f.texts[i].PageText?
            && f.texts[i].page == pages[i].page
            && IsNormalized(f.texts[i].text)
            && (HasTextLayer(pages[i]) ==> f.texts[i].text == Normalize(pages[i].text) != ""))
      && f.fileImage == ImageFile(uniqueId + ".jpeg", "image/jpeg", lib.getPage(1).value)
  {
    var f := PdfOutcome(uniqueId, lib).value;
    var pages := lib.pages.value;
    forall i | 0 <= i < |pages|
      ensures && f.texts[i].PageText?
              && IsNormalized(f.texts[i].text)
              && (HasTextLayer(pages[i]) ==> f.texts[i].text == Normalize(pages[i].text) != "")
    {
      var p := pages[i];
      if HasTextLayer(p) {
        NormalizeIsNormalized(p.text);
        NormalizeEmptyIffBlank(p.text);
      } else {
        NormalizeIsNormalized(lib.recognize(lib.getPage(p.page).value).value);
      }
    }
  }

  /** A page with a text layer never reaches the rasteriser or the OCR
      engine: its record does not depend on them. */
  lemma TextLayerNeedsNoOcr(lib1: PdfBackend, lib2: PdfBackend, p: PdfPage)
    requires HasTextLayer(p)
    ensures PageRecord(lib1, p) == PageRecord(lib2, p) == Ok(PageText(p.page, Normalize(p.text)))
  {
  }

  /** A blank page is always rasterised and recognised; its text is what the
      OCR engine reads, normalised. */
  lemma BlankPageUsesOcr(lib: PdfBackend, p: PdfPage)
    requires !HasTextLayer(p)
    ensures PageRecord(lib, p).Ok? <==>
      lib.getPage(p.page).Some? && lib.recognize(lib.getPage(p.page).value).Some?
    ensures PageRecord(lib, p).Ok? ==>
      PageRecord(lib, p).value == PageText(p.page, Normalize(lib.recognize(lib.getPage(p.page).value).value))
  {
  }

  /** Unlike the EPUB parser there is no empty-result check: a document with
      no pages resolves with no records once its cover renders. */
  lemma NoPagesStillResolves(uniqueId: string, lib: PdfBackend)
    requires lib.pages == Some([]) && lib.opens && lib.getPage(1).Some?
    ensures PdfOutcome(uniqueId, lib) == Ok(ParsedFile([], CoverFile(uniqueId, lib.getPage(1).value)))
  {
  }

  /** The cover is rendered before the loop, so a failure there rejects even
      when every page would have been read. */
  lemma CoverFailureRejects(uniqueId: string, lib: PdfBackend)
    requires lib.pages.Some? && lib.opens && lib.getPage(1).None?
    ensures PdfOutcome(uniqueId, lib) == Err(CoverRasterFailed)
  {
  }

  /** The pages are awaited one after the other: the error reported is that of
      the first failing page, and every earlier page was read. */
  lemma {:induction false} FirstPageErrorWins(pages: seq<PdfPage>, step: PdfPage -> Result<TextRecord, PdfError>, k: nat)
    requires k < |pages| && step(pages[k]).Err?
    requires forall j :: 0 <= j < k ==> step(pages[j]).Ok?
    ensures PageTexts(pages, step) == Err(step(pages[k]).error)
    decreases |pages|
  {
    var init := pages[..|pages| - 1];
    if k < |pages| - 1 {
      FirstPageErrorWins(init, step, k);
    } else {
      assert PageTexts(init, step).Ok?;
    }
  }

  lemma BlankPagesStep(pages: seq<PdfPage>, i: nat)
    requires i < |pages|
    ensures BlankPages(pages[..i + 1]) ==
      BlankPages(pages[..i]) + (if HasTextLayer(pages[i]) then [] else [pages[i].page])
  {
    assert pages[..i + 1][..i] == pages[..i];
  }

  /** The pages sent to OCR by the time the loop reaches page `i` are a prefix
      of those it sends over the whole document. */
  lemma {:induction false} BlankPagesPrefix(pages: seq<PdfPage>, i: nat)
    requires i <= |pages|
    ensures BlankPages(pages[..i]) <= BlankPages(pages)
    decreases |pages|
  {
    if i < |pages| {
      var init := pages[..|pages| - 1];
      BlankPagesPrefix(init, i);
      assert init[..i] == pages[..i];
    } else {
      assert pages[..i] == pages;
    }
  }

  /** Exactly the pages without a text layer are sent to OCR, once each:
      the OCR list has one entry per blank page and none for the others. */
  lemma {:induction false} BlankPagesCount(pages: seq<PdfPage>)
    ensures |BlankPages(pages)| == |set i | 0 <= i < |pages| && !HasTextLayer(pages[i])|
    decreases |pages|
  {
    if pages != [] {
      var n := |pages| - 1;
      var init := pages[..n];
      BlankPagesCount(init);
      var before := set i | 0 <= i < n && !HasTextLayer(init[i]);
      var after := set i | 0 <= i < |pages| && !HasTextLayer(pages[i]);
      if HasTextLayer(pages[n]) {
        assert after == before;
      } else {
        assert after == before + {n};
      }
    }
  }
}
