/** The upload handler `POST /service/books/parse` (src/index.ts).

    The validation ladder is the pure function `Validate`; the parse and
    upload phase is the method `HandleParse`, which runs the parser the MIME
    type selects and then the two storage uploads through a `Storage` object
    that records every upload it is asked for. `HandleParse` is proved against
    the specification functions `BeforeUpload`, `UploadsFor`, `UploadReply`
    and `Reply`; the lemmas state the ladder's order, the dispatch, and when
    the handler answers 200. */
module Service {
  import opened Types
  import opened EpubParse
  import opened PdfParse

  // ---------------------------------------------------------------------
  // Requests and responses

  /** A `File` part of the form: its declared MIME type and its contents. */
  datatype UploadedFile = UploadedFile(mimeType: string, content: Bytes)

  /** What `FormData.get` returns for a present field: a string or a file. */
  datatype FormValue = TextValue(text: string) | FileValue(file: UploadedFile)

  /** The form fields the handler reads (the first value of each). */
  datatype Form = Form(file: Option<FormValue>, bookId: Option<FormValue>)

  /** A JSON reply: its status, its `message`, and the two URLs, which only
      the success reply carries. */
  datatype Response = Response(status: int, message: string,
                               filePublicUrl: Option<string>, coverPublicUrl: Option<string>)

  /** A request that passed the ladder. */
  datatype Request = Request(file: UploadedFile, bookId: string)

  function Fail(status: int, message: string): Response {
    Response(status, message, None, None)
  }

  const MissingFields := Fail(422, "Missing required fields: file and bookId")
  const FileIsString := Fail(422, "File must be a file object, not string")
  const BadFileType := Fail(422, "File must be a PDF or EPUB file")
  const BookIdNotString := Fail(422, "bookId must be a string")
  const ParseFailure := Fail(500, "Failed to parse file")
  const TextUploadFailure := Fail(500, "Failed to upload text content")
  const CoverUploadFailure := Fail(500, "Failed to upload cover image")
  const MalformedBody := Fail(422, "Request body is not properly formatted, it must be form-data")
  const SuccessMessage := "File uploaded and processed successfully"

  const PdfType := "application/pdf"
  const EpubType := "application/epub+zip"
  const ZipType := "application/zip"

  // ---------------------------------------------------------------------
  // The validation ladder

  predicate IsAcceptedType(mimeType: string) {
    mimeType == PdfType || mimeType == EpubType || mimeType == ZipType
  }

  /** The early returns, in source order: both fields present, `file` not a
      string, an accepted MIME type, `bookId` a string. */
  function Validate(form: Form): Result<Request, Response> {
    if form.file.None? || form.bookId.None? then Err(MissingFields)
    else if form.file.value.TextValue? then Err(FileIsString)
    else if !IsAcceptedType(form.file.value.file.mimeType) then Err(BadFileType)
    else if !form.bookId.value.TextValue? then Err(BookIdNotString)
    else Ok(Request(form.file.value.file, form.bookId.value.text))
  }

  // ---------------------------------------------------------------------
  // Parsing

  datatype Parser = PdfParser | EpubParser

  /** `application/pdf` goes to the PDF parser, every other accepted type to
      the EPUB parser. */
  function ParserFor(mimeType: string): Parser {
    if mimeType == PdfType then PdfParser else EpubParser
  }

  /** What awaiting the selected parser gives the handler: a file, an
      exception, or nothing ever (the EPUB promise that stays pending). */
  datatype ParseOutcome = Parsed(file: ParsedFile) | ParseThrew | NeverSettles

  /** The parse step of the handler; the uploaded bytes reach the parsers
      through the backends, which describe what the libraries make of them. */
  function ParseWith(parser: Parser, uniqueId: string, pdf: PdfBackend, epub: EpubBackend): ParseOutcome {
    match parser
    case PdfParser =>
      (match PdfOutcome(uniqueId, pdf)
       case Ok(f) => Parsed(f)
       case Err(_) => ParseThrew)
    case EpubParser =>
      (match EpubOutcome(uniqueId, epub)
       case Resolved(f) => Parsed(f)
       case Rejected(_) => ParseThrew
       case Pending => NeverSettles)
  }

  // ---------------------------------------------------------------------
  // Storage

  /** What an upload carries: the text records or the cover file. */
  datatype Payload = TextsPayload(texts: seq<TextRecord>) | ImagePayload(image: ImageFile)

  /** One `storage.from(bucket).upload(path, body, { contentType, upsert })` call. */
  datatype StorageRequest = StorageRequest(bucket: string, path: string, body: Payload,
                                           contentType: string, upsert: bool)

  /** The storage client: whether it accepts an upload and the public URL it
      gives a path are fixed inputs; `requests` logs every upload attempted. */
  class Storage {
    const accepts: StorageRequest -> bool
    const publicUrl: (string, string) -> string
    var requests: seq<StorageRequest>

    constructor (accepts: StorageRequest -> bool, publicUrl: (string, string) -> string)
      ensures this.accepts == accepts && this.publicUrl == publicUrl
      ensures requests == []
    {
      this.accepts := accepts;
      this.publicUrl := publicUrl;
      requests := [];
    }

    /** `upload(...)`; `ok` is false when the call reports an error. */
    method Upload(request: StorageRequest) returns (ok: bool)
      modifies this
      ensures ok == accepts(request)
      ensures requests == old(requests) + [request]
    {
      requests := requests + [request];
      ok := accepts(request);
    }
  }

  /** The text upload: `${bookId}.txt` in "texts", as text/plain. */
  function TextUpload(bookId: string, f: ParsedFile): StorageRequest {
    StorageRequest("texts", bookId + ".txt", TextsPayload(f.texts), "text/plain", true)
  }

  /** The cover upload: `${bookId}.jpeg` in "images", as image/jpeg. */
  function CoverUpload(bookId: string, f: ParsedFile): StorageRequest {
    StorageRequest("images", bookId + ".jpeg", ImagePayload(f.fileImage), "image/jpeg", true)
  }

  /** The uploads attempted for a parsed file: the text first, and the cover
      only if the text was stored. */
  function UploadsFor(bookId: string, f: ParsedFile, accepts: StorageRequest -> bool): (r: seq<StorageRequest>)
    ensures 1 <= |r| <= 2 && r[0] == TextUpload(bookId, f)
    ensures |r| == 2 <==> accepts(TextUpload(bookId, f))
  {
    if accepts(TextUpload(bookId, f)) then [TextUpload(bookId, f), CoverUpload(bookId, f)]
    else [TextUpload(bookId, f)]
  }

  /** The reply once the file is parsed. */
  function UploadReply(bookId: string, f: ParsedFile, accepts: StorageRequest -> bool,
                       publicUrl: (string, string) -> string): Response
  {
    if !accepts(TextUpload(bookId, f)) then TextUploadFailure
    else if !accepts(CoverUpload(bookId, f)) then CoverUploadFailure
    else Response(200, SuccessMessage,
                  Some(publicUrl("texts", bookId + ".txt")),
                  Some(publicUrl("images", bookId + ".jpeg")))
  }

  // ---------------------------------------------------------------------
  // The whole handler

  /** Where the handler stands before any upload: it has answered (or, for a
      pending EPUB parse, will never answer), or it holds a parsed file. */
  datatype Stage = Answered(response: Option<Response>) | ReadyToUpload(request: Request, file: ParsedFile)

  /** `body` is None when `formData()` throws. */
  function BeforeUpload(body: Option<Form>, uniqueId: string, pdf: PdfBackend, epub: EpubBackend): Stage {
    match body
    case None => Answered(Some(MalformedBody))
    case Some(form) =>
      match Validate(form)
      case Err(response) => Answered(Some(response))
      case Ok(request) =>
        match ParseWith(ParserFor(request.file.mimeType), uniqueId, pdf, epub)
        case ParseThrew => Answered(Some(ParseFailure))
        case NeverSettles => Answered(None)
        case Parsed(f) => ReadyToUpload(request, f)
  }

  /** The handler's answer; None when it never answers. */
  function Reply(body: Option<Form>, uniqueId: string, pdf: PdfBackend, epub: EpubBackend,
                 accepts: StorageRequest -> bool, publicUrl: (string, string) -> string): Option<Response>
  {
    match BeforeUpload(body, uniqueId, pdf, epub)
    case Answered(response) => response
    case ReadyToUpload(request, f) => Some(UploadReply(request.bookId, f, accepts, publicUrl))
  }

  /** The EPUB parser runs exactly when the request passes the ladder with a
      type other than PDF. */
  predicate RunsEpubParser(body: Option<Form>) {
    body.Some? && Validate(body.value).Ok? && ParserFor(Validate(body.value).value.file.mimeType) == EpubParser
  }

  /** The handler for one request. `uniqueId` is the id the parser draws
      from `randomUUID`; `pdf` and `epub` are what the libraries make of the
      uploaded bytes. */
  method HandleParse(body: Option<Form>, uniqueId: string, pdf: PdfBackend, epub: EpubBackend,
                     storage: Storage, tmp: TmpDir)
    returns (response: Option<Response>)
    modifies storage, tmp
    ensures response == Reply(body, uniqueId, pdf, epub, storage.accepts, storage.publicUrl)
    ensures var stage := BeforeUpload(body, uniqueId, pdf, epub);
      storage.requests == old(storage.requests) +
        (if stage.ReadyToUpload? then UploadsFor(stage.request.bookId, stage.file, storage.accepts) else [])
    ensures !RunsEpubParser(body) ==> tmp.files == old(tmp.files)
    ensures RunsEpubParser(body) ==>
      tmp.files == if EpubOutcome(uniqueId, epub).Resolved? then old(tmp.files) - {TempPath(uniqueId)}
                   else old(tmp.files) + {TempPath(uniqueId)}
  {
    var filePublicUrl: Option<string> := None;
    var coverPublicUrl: Option<string> := None;
    if body.None? {
      return Some(MalformedBody);
    }
    var checked := Validate(body.value);
    if checked.Err? {
      return Some(checked.error);
    }
    var request := checked.value;
    var parsed: ParsedFile;
    if request.file.mimeType == PdfType {
      var result, _ := ParsePdf(uniqueId, pdf);
      if result.Err? {
        return Some(ParseFailure);
      }
      parsed := result.value;
    } else {
      var settlement := ParseEpub(uniqueId, epub, tmp);
      if settlement.Pending? {
        return None;
      }
      if settlement.Rejected? {
        return Some(ParseFailure);
      }
      parsed := settlement.file;
    }
    var textStored := storage.Upload(TextUpload(request.bookId, parsed));
    if !textStored {
      return Some(TextUploadFailure);
    }
    filePublicUrl := Some(storage.publicUrl("texts", request.bookId + ".txt"));
    var coverStored := storage.Upload(CoverUpload(request.bookId, parsed));
    if !coverStored {
      return Some(CoverUploadFailure);
    }
    coverPublicUrl := Some(storage.publicUrl("images", request.bookId + ".jpeg"));
    return Some(Response(200, SuccessMessage, filePublicUrl, coverPublicUrl));
  }

  // ---------------------------------------------------------------------
  // Properties

  /** A request passes the ladder exactly when both fields are present, the
      file is a file of an accepted type and the book id is a string; it then
      carries that file and that id. */
  lemma ValidateOkIff(form: Form)
    ensures Validate(form).Ok? <==>
      && form.file.Some? && form.file.value.FileValue?
      && IsAcceptedType(form.file.value.file.mimeType)
      && form.bookId.Some? && form.bookId.value.TextValue?
    ensures Validate(form).Ok? ==>
      Validate(form).value == Request(form.file.value.file, form.bookId.value.text)
  {
  }

  /** Every rejection of the ladder is a 422 without URLs. */
  lemma ValidateRejectsWith422(form: Form)
    requires Validate(form).Err?
    ensures Validate(form).error.status == 422
    ensures Validate(form).error.filePublicUrl.None? && Validate(form).error.coverPublicUrl.None?
  {
  }

  /** A missing field is reported before anything about the fields' values. */
  lemma MissingFieldReportedFirst(form: Form)
    requires form.file.None? || form.bookId.None?
    ensures Validate(form) == Err(MissingFields)
  {
  }

  /** A bad MIME type is reported even when the book id is not a string too. */
  lemma MimeCheckedBeforeBookId(form: Form)
    requires form.file.Some? && form.file.value.FileValue?
    requires !IsAcceptedType(form.file.value.file.mimeType)
    requires form.bookId.Some? && form.bookId.value.FileValue?
    ensures Validate(form) == Err(BadFileType)
  {
  }

  /** Only the three accepted types pass; PDF goes to the PDF parser, and both
      EPUB spellings to the EPUB parser. */
  lemma DispatchByType(form: Form)
    requires Validate(form).Ok?
    ensures var t := Validate(form).value.file.mimeType;
      t in {PdfType, EpubType, ZipType}
      && (ParserFor(t) == PdfParser <==> t == PdfType)
  {
  }

  /** A failed parse answers 500 "Failed to parse file" and nothing is uploaded. */
  lemma ParseFailureUploadsNothing(form: Form, uniqueId: string, pdf: PdfBackend, epub: EpubBackend,
                                   accepts: StorageRequest -> bool, publicUrl: (string, string) -> string)
    requires Validate(form).Ok?
    requires ParseWith(ParserFor(Validate(form).value.file.mimeType), uniqueId, pdf, epub) == ParseThrew
    ensures Reply(Some(form), uniqueId, pdf, epub, accepts, publicUrl) == Some(ParseFailure)
    ensures !BeforeUpload(Some(form), uniqueId, pdf, epub).ReadyToUpload?
  {
  }

  /** The text is uploaded before the cover, and the cover only when the text
      upload succeeded; each goes to its own bucket under the book id. */
  lemma UploadOrder(bookId: string, f: ParsedFile, accepts: StorageRequest -> bool)
    ensures var r := UploadsFor(bookId, f, accepts);
      && r[0].bucket == "texts" && r[0].path == bookId + ".txt" && r[0].contentType == "text/plain"
      && r[0].body == TextsPayload(f.texts)
      && (|r| == 2 ==>
            && r[1].bucket == "images" && r[1].path == bookId + ".jpeg"
            && r[1].contentType == "image/jpeg" && r[1].body == ImagePayload(f.fileImage))
  {
  }

  /** The handler answers 200 exactly when the form is read, the request
      passes the ladder, the parser yields a file and both uploads succeed;
      the answer then carries both public URLs. */
  lemma SuccessIff(body: Option<Form>, uniqueId: string, pdf: PdfBackend, epub: EpubBackend,
                   accepts: StorageRequest -> bool, publicUrl: (string, string) -> string)
    ensures var r := Reply(body, uniqueId, pdf, epub, accepts, publicUrl);
      var stage := BeforeUpload(body, uniqueId, pdf, epub);
      (r.Some? && r.value.status == 200) <==>
        && stage.ReadyToUpload?
        && accepts(TextUpload(stage.request.bookId, stage.file))
        && accepts(CoverUpload(stage.request.bookId, stage.file))
    ensures var r := Reply(body, uniqueId, pdf, epub, accepts, publicUrl);
      var stage := BeforeUpload(body, uniqueId, pdf, epub);
      r.Some? && r.value.status == 200 ==>
        && r.value.message == SuccessMessage
        && r.value.filePublicUrl == Some(publicUrl("texts", stage.request.bookId + ".txt"))
        && r.value.coverPublicUrl == Some(publicUrl("images", stage.request.bookId + ".jpeg"))
  {
  }

  /** Every answer is 200, 422 or 500, and only 200 carries URLs. */
  lemma StatusCodes(body: Option<Form>, uniqueId: string, pdf: PdfBackend, epub: EpubBackend,
                    accepts: StorageRequest -> bool, publicUrl: (string, string) -> string)
    requires Reply(body, uniqueId, pdf, epub, accepts, publicUrl).Some?
    ensures var r := Reply(body, uniqueId, pdf, epub, accepts, publicUrl).value;
      && r.status in {200, 422, 500}
      && (r.status != 200 ==> r.filePublicUrl.None? && r.coverPublicUrl.None?)
  {
    var stage := BeforeUpload(body, uniqueId, pdf, epub);
    if body.Some? && Validate(body.value).Err? {
      ValidateRejectsWith422(body.value);
    }
  }

  /** The handler never answers only when an EPUB archive cannot be opened. */
  lemma NoAnswerIff(body: Option<Form>, uniqueId: string, pdf: PdfBackend, epub: EpubBackend,
                    accepts: StorageRequest -> bool, publicUrl: (string, string) -> string)
    ensures Reply(body, uniqueId, pdf, epub, accepts, publicUrl).None? <==>
      RunsEpubParser(body) && epub.archive.None?
  {
  }
}
