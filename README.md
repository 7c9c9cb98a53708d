# readora-backend-node: e-book ingestion, modelled in Dafny

The service takes an uploaded book (PDF or EPUB) together with a `bookId`. It
extracts the text page by page or chapter by chapter, and takes a cover image.
It stores the texts in the storage bucket "texts" and the cover in "images",
then answers with the two public URLs. This project models the three files that
make those decisions and proves properties of the model.

- `normalize.dfy`, module `TextNormalize`: the whitespace normaliser
  `s.replace(/\s+/g, " ").trim()`. Both parsers use it on every text they emit.
  - `Normalize` models the expression as written: collapse every whitespace run,
    then trim.
  - `Words` and `JoinSpace` are an independent reference reading: the
    whitespace-separated words joined by single spaces.
  - The lemmas prove that the two readings agree. They also prove the shape of
    the result (no whitespace at either end, no two whitespace characters in a
    row, only `' '` as whitespace), idempotence, and that every non-whitespace
    character survives in order.
- `types.dfy`, module `Types`: the `ParsedFile` both parsers resolve with
  (text records plus the cover file), and the Option and Result wrappers.
- `epub.dfy`, module `EpubParse` (src/parse/parseEPUB.ts):
  - the cover search is the `for...in` loop `SelectCoverId`, proved against
    `CoverIndex`;
  - chapter assembly is the pure map `AssembleChapters`;
  - `ParseEpub` writes and unlinks the temporary copy in a `TmpDir` object, and
    is proved against `EpubOutcome`.
- `pdf.dfy`, module `PdfParse` (src/parse/parsePDF.ts):
  - the page loop, which uses the text layer or falls back to OCR, is
    `ReadPages`/`ReadPage`;
  - `ParsePdf` is proved against `PdfOutcome`, and reports which pages it sent
    to OCR.
- `service.dfy`, module `Service` (src/index.ts): the handler of
  `POST /service/books/parse`.
  - The validation ladder is `Validate`.
  - `HandleParse` runs the ladder, dispatches on MIME type, awaits the parser,
    and then makes two uploads through a `Storage` object that logs every
    upload attempted.
  - The handler is proved against `BeforeUpload`, `UploadsFor` and `Reply`.

The libraries are inputs, gathered in backend datatypes:
- the `epub` archive reader with its `getImage` and `getChapter` callbacks;
- `stripHtml`;
- `pdfToPages`;
- the `pdf-to-img` rasteriser;
- Tesseract;
- the Supabase storage client.

A library call that throws or reports an error is an `Err`, a `None` or a
`false` in its backend. `randomUUID` becomes the `uniqueId` parameter.

Behaviour modelled as the code has it, where a design reading might expect
otherwise:
- Each EPUB record carries its flow id as `chapterId`, not a 1-based position.
- The PDF parser rejects nothing for an empty document. Zero pages with a
  renderable page 1 give an empty text list.
- The temporary EPUB copy is unlinked only just before resolving. Every
  rejection leaves it in `./tmp`.
- `!coverImage` rejects only a null result. An empty buffer is accepted as a
  cover.
- `item.id || item.href` consults the href only when the id is absent or empty.
  An absent field is matched as the string "undefined".
- If the archive reader cannot open the EPUB, it reports through an "error"
  event that nothing handles. The parse promise then never settles, and the
  handler never answers (`Pending`, `NeverSettles`, a `None` reply).
- With no matching manifest entry, the cover is looked up under the id `""`.

## Model

| member | source | states |
|---|---|---|
| TextNormalize.TrimStart | src/parse/parsePDF.ts:24 | the start-trimmed string is no longer than the input and does not start with whitespace |
| TextNormalize.TrimEnd | src/parse/parsePDF.ts:24 | the end-trimmed string is no longer than the input and does not end with whitespace |
| TextNormalize.TrimStartDrops | src/parse/parsePDF.ts:24 | trimming the start removes exactly a leading all-whitespace prefix and keeps the rest |
| TextNormalize.TrimEndDrops | src/parse/parsePDF.ts:24 | trimming the end removes exactly a trailing all-whitespace suffix and keeps the rest |
| TextNormalize.TrimEmptyIffBlank | src/parse/parsePDF.ts:24 | `s.trim() == ""` holds exactly when every character of `s` is whitespace |
| TextNormalize.Word | src/parse/parseEPUB.ts:56 | the first word is the longest whitespace-free prefix: it is a prefix, has no whitespace, and is followed by whitespace or the end |
| TextNormalize.WordsAreWords | src/parse/parseEPUB.ts:56 | the reference split yields only non-empty whitespace-free words |
| TextNormalize.WordsOfJoin | src/parse/parseEPUB.ts:56 | splitting words that were joined by single spaces gives back those words |
| TextNormalize.JoinNormalized | src/parse/parseEPUB.ts:56 | words joined by single spaces form a normalised string that starts with the first word |
| TextNormalize.CollapseFromWordStart | src/parse/parseEPUB.ts:56 | collapsing whitespace runs in a string that starts with a word gives its words joined by spaces, plus one space if it ended in whitespace |
| TextNormalize.NormalizeIsJoinedWords | src/parse/parseEPUB.ts:56 | `replace(/\s+/g, " ").trim()` equals the input's words joined by single spaces |
| TextNormalize.NormalizeIsNormalized | src/parse/parsePDF.ts:28 | a normalised text has no whitespace at either end, no two whitespace characters in a row, and only spaces as whitespace |
| TextNormalize.NormalizeIdempotent | src/parse/parsePDF.ts:37 | normalising twice is the same as normalising once |
| TextNormalize.NormalizeEmptyIffBlank | src/parse/parsePDF.ts:24-28 | the normalised text is empty exactly when the input is blank, which is exactly when its `trim()` is empty |
| TextNormalize.NonWsIsFlattenedWords | src/parse/parseEPUB.ts:56 | the non-whitespace characters of a string are its words concatenated |
| TextNormalize.NormalizeKeepsNonWs | src/parse/parseEPUB.ts:56 | normalising keeps every non-whitespace character, in order, and adds none |
| EpubParse.CoverIndex | src/parse/parseEPUB.ts:19-30 | the found position holds an image item whose id (or, failing that, href) matches `/cover/i`, no earlier item does, and none is found exactly when no item qualifies |
| EpubParse.SelectCoverId | src/parse/parseEPUB.ts:19-30 | the loop with `break` leaves `coverId` as the key of the first qualifying entry, or `""` |
| EpubParse.CoverKeyIsFirstMatch | src/parse/parseEPUB.ts:19-30 | a qualifying entry with no qualifying entry before it is the one whose key is selected |
| EpubParse.NoMatchLooksUpEmptyId | src/parse/parseEPUB.ts:19 | with no qualifying entry, the cover is looked up under the empty id |
| EpubParse.HrefIgnoredWhenIdSet | src/parse/parseEPUB.ts:25 | an item with a non-empty id that lacks "cover" is not the cover, whatever its href |
| EpubParse.NoMediaTypeNeverCover | src/parse/parseEPUB.ts:24 | an item without a media type is never the cover |
| EpubParse.AssembleChapters | src/parse/parseEPUB.ts:45-62 | the chapters assemble exactly when every fetch succeeds; then there is one record per flow entry, in flow order, tagged with its id and holding its normalised stripped markup |
| EpubParse.ParseEpub | src/parse/parseEPUB.ts:8-83 | the parse settles as `EpubOutcome` says; the temporary copy is gone after a resolve and left behind after a rejection or a hang |
| EpubParse.EpubResolvedIff | src/parse/parseEPUB.ts:33-66 | the parse resolves exactly when the archive opens, the cover lookup yields a buffer, every chapter fetch succeeds and the flow is non-empty |
| EpubParse.EpubResolvedContents | src/parse/parseEPUB.ts:45-76 | a resolved parse holds one normalised record per flow entry, tagged with its flow id, and the cover as `${uniqueId}.jpeg` of type image/jpeg |
| EpubParse.CoverFailureRejects | src/parse/parseEPUB.ts:33-42 | a cover lookup that errors or yields null rejects the parse |
| EpubParse.EmptyFlowRejects | src/parse/parseEPUB.ts:64-66 | an empty flow rejects with "Failed to parse chapters" |
| EpubParse.ChapterFailureRejects | src/parse/parseEPUB.ts:51-62 | one failing chapter fetch rejects the whole parse, so there is never a partial result |
| EpubParse.TmpDir.WriteFile | src/parse/parseEPUB.ts:14 | writing adds the path to the temporary directory |
| EpubParse.TmpDir.Unlink | src/parse/parseEPUB.ts:72 | unlinking an existing path removes exactly that path |
| PdfParse.PageTexts | src/parse/parsePDF.ts:16-40 | the loop completes exactly when every page's step succeeds, and then holds one record per page, each the step's record for that page, in order |
| PdfParse.ReadPage | src/parse/parsePDF.ts:24-39 | one iteration yields the page's record, and calls OCR exactly when the page has no text layer and its raster succeeds |
| PdfParse.ReadPages | src/parse/parsePDF.ts:23-40 | the loop's result is `PageTexts`; the pages sent to OCR are a prefix of the blank pages, and all of them when the loop completes |
| PdfParse.ParsePdf | src/parse/parsePDF.ts:7-51 | the parse returns `PdfOutcome`; on success exactly the blank pages went to OCR; nothing went to OCR if a step before the loop failed |
| PdfParse.PdfOkIff | src/parse/parsePDF.ts:11-40 | the parse succeeds exactly when the text layer and the rasteriser open, page 1 renders and every page's record can be produced |
| PdfParse.PdfOkContents | src/parse/parsePDF.ts:21-50 | success gives one normalised record per page, tagged with its page number, non-empty for a page with a text layer, and the cover as page 1's raster named `${uniqueId}.jpeg` |
| PdfParse.TextLayerNeedsNoOcr | src/parse/parsePDF.ts:24-29 | a page with a text layer yields its normalised text whatever the rasteriser and OCR engine do |
| PdfParse.BlankPageUsesOcr | src/parse/parsePDF.ts:30-38 | a blank page yields the normalised OCR text of its raster, and fails exactly when the raster or OCR fails |
| PdfParse.NoPagesStillResolves | src/parse/parsePDF.ts:16-21 | a document with no pages resolves with an empty text list once page 1 renders |
| PdfParse.CoverFailureRejects | src/parse/parsePDF.ts:21 | a failure to render page 1 rejects the parse before any page is read |
| PdfParse.FirstPageErrorWins | src/parse/parsePDF.ts:23-40 | the error reported is that of the first failing page |
| PdfParse.BlankPagesPrefix | src/parse/parsePDF.ts:30-33 | the pages sent to OCR before page `i` are a prefix of those sent for the whole document |
| PdfParse.BlankPagesCount | src/parse/parsePDF.ts:24-33 | the OCR list has exactly as many entries as there are blank pages |
| Service.Storage.Upload | src/index.ts:76-85 | an upload is logged, and succeeds exactly when storage accepts it |
| Service.UploadsFor | src/index.ts:74-117 | the text upload is always attempted first, and the cover upload follows exactly when the text upload succeeded |
| Service.HandleParse | src/index.ts:22-137 | the handler answers `Reply`, attempts exactly the uploads `UploadsFor` lists once a file is parsed and none otherwise, and touches `./tmp` only through the EPUB parser |
| Service.ValidateOkIff | src/index.ts:29-54 | a request passes the ladder exactly when both fields are present, the file is a file of an accepted type and the book id is a string |
| Service.ValidateRejectsWith422 | src/index.ts:29-54 | every rejection by the ladder is a 422 without URLs |
| Service.MissingFieldReportedFirst | src/index.ts:29-34 | a missing `file` or `bookId` is reported as 422 "Missing required fields: file and bookId" before any other check |
| Service.MimeCheckedBeforeBookId | src/index.ts:43-54 | a bad MIME type is reported even when the book id is also not a string |
| Service.DispatchByType | src/index.ts:43-63 | only the three accepted types pass; `application/pdf` and nothing else goes to the PDF parser |
| Service.ParseFailureUploadsNothing | src/index.ts:58-67 | a parser failure answers 500 "Failed to parse file" and no upload is made |
| Service.UploadOrder | src/index.ts:74-104 | the text goes to "texts" as `${bookId}.txt`, text/plain, and the cover to "images" as `${bookId}.jpeg`, image/jpeg |
| Service.SuccessIff | src/index.ts:96-127 | the answer is 200 exactly when the file parses and both uploads succeed, and then it carries both public URLs |
| Service.StatusCodes | src/index.ts:26-136 | every answer is 200, 422 or 500, and only 200 carries URLs |
| Service.NoAnswerIff | src/index.ts:57-63 | the handler never answers exactly when a valid EPUB request's archive cannot be opened |

## Left out

Library internals:
- The internals of the `epub` archive reader, `stripHtml`, `pdfToPages`, the
  `pdf-to-img` rasteriser and Tesseract are not modelled, because they are
  foreign code.
- Their results are inputs:
  - the manifest in `for...in` enumeration order, the flow, and the callback
    results;
  - the page list;
  - per-page rasters;
  - OCR text.
- JavaScript puts integer-like property keys first in `for...in` order. That
  ordering is part of the input, not computed.

Text encoding:
- `JSON.stringify` is not modelled. Texts stay a sequence of records.
- src/index.ts:78 stringifies `parsed.texts`, which is already a JSON string, so
  the stored object is a doubly encoded string. The model records that the
  text upload carries the parsed records.
- Strings are sequences of Unicode scalar values. JavaScript's UTF-16 code
  units and surrogate pairs are not modelled. Every whitespace character
  `\s` matches is in the Basic Multilingual Plane, so the whitespace
  classification is the same.

Promises and events:
- `Promise.all` runs the chapter fetches concurrently. They are modelled as a
  sequential map. If several fail, the model names no particular error: every
  failure maps to the same "Failed to parse file" answer.
- An unhandled "error" event may crash the process instead of leaving the
  promise pending. The model does not tell a hang from a crash: either way the
  handler never answers.
- An exception thrown by `stripHtml` or by the `File` constructor inside the
  "end" handler is not modelled. Those are library failures outside the inputs.

Files and randomness:
- File writes (`fs.writeFileSync`) are not modelled as failing, because the
  model has no file system errors.
- `file.arrayBuffer()` and the byte contents of the upload are not modelled.
  The bytes reach the parsers only through the backends.
- `randomUUID` is the `uniqueId` parameter. Distinct requests are not
  modelled.

Storage:
- Storage upload and `getPublicUrl` are fixed functions of the request:
  `accepts` and `publicUrl`.
- Network failures are not told apart from storage errors.

Unreachable or unmodelled code:
- The check `!parsed` (src/index.ts:69-71) is not modelled. A parser that
  returns always returns an object, so that branch is unreachable.
- The outer `catch` (src/index.ts:128-136) is modelled only for a failing
  `formData()`. The other statements in that `try` either cannot throw in the
  model or are caught by the inner handlers.
- `console.log` and `console.error` calls are not modelled.
- These are not modelled, because they are configuration and I/O:
  - server startup, the CORS middleware and dotenv (src/index.ts:1-19 and
    140-148);
  - creating `./tmp`;
  - src/pkg/supabase.ts.
- The rasteriser's `scale: 3` option is not modelled, because only the
  rasteriser uses it.
