/** The EPUB parser (src/parse/parseEPUB.ts).

    The `epub` archive reader, `stripHtml` and the file system are inputs:
    `EpubBackend` holds what the archive reader yields for the uploaded file
    (its manifest in `for...in` order and its reading-order flow, or nothing
    when it cannot open the file), its `getImage` and `getChapter` callbacks
    and the HTML stripper. The temporary copy of the upload lives in a
    `TmpDir` object whose set of files the parser changes.

    The cover search is the imperative loop `SelectCoverId`, proved against
    the specification function `CoverIndex`; chapter assembly is the pure
    map `AssembleChapters`; `ParseEpub` sequences them as the promise
    callbacks do and is proved against `EpubOutcome`. */
module EpubParse {
  import opened Types
  import opened TextNormalize

  // ---------------------------------------------------------------------
  // Inputs

  /** A manifest item; a field the OPF file does not declare is None. */
  datatype ManifestItem = ManifestItem(id: Option<string>, href: Option<string>, mediaType: Option<string>)

  /** One property of `epub.manifest`: its key and its item. */
  datatype ManifestEntry = ManifestEntry(key: string, item: ManifestItem)

  /** What `epub.getImage` hands its callback: an error, a null buffer, or data. */
  datatype ImageFetch = ImageError | ImageNull | ImageData(bytes: Bytes)

  /** What `epub.getChapter` hands its callback: an error or the chapter markup. */
  datatype ChapterFetch = ChapterError | ChapterData(markup: string)

  /** The parsed archive: manifest entries in enumeration order, and the ids
      of the flow (reading order). */
  datatype EpubArchive = EpubArchive(manifest: seq<ManifestEntry>, flow: seq<string>)

  datatype EpubBackend = EpubBackend(
    archive: Option<EpubArchive>,
    getImage: string -> ImageFetch,
    getChapter: string -> ChapterFetch,
    stripHtml: string -> string)

  // ---------------------------------------------------------------------
  // Outputs

  datatype EpubError =
    | CoverFetchFailed    // getImage reported an error
    | CoverMissing        // "Failed to extract cover"
    | ChapterFetchFailed  // some getChapter reported an error
    | NoChapters          // "Failed to parse chapters"

  /** The state of the promise `parseEpub` returns. It stays pending when the
      archive reader cannot open the file: it emits "error", which nothing
      listens to, and "end" never fires. */
  datatype Settlement = Resolved(file: ParsedFile) | Rejected(error: EpubError) | Pending

  function Message(e: EpubError): string {
    match e
    case CoverFetchFailed => "cover image fetch failed"
    case CoverMissing => "Failed to extract cover"
    case ChapterFetchFailed => "chapter fetch failed"
    case NoChapters => "Failed to parse chapters"
  }

  // ---------------------------------------------------------------------
  // Cover selection

  /** ASCII lower-casing, the only folding `/cover/i` does on these letters. */
  function LowerAscii(c: char): char {
    if 'A' <= c <= 'Z' then (c as int + 32) as char else c
  }

  /** "cover", ignoring ASCII case, starts at position `i` of `s`. */
  predicate CoverAt(s: string, i: nat)
    requires i + 5 <= |s|
  {
    forall k :: 0 <= k < 5 ==> LowerAscii(s[i + k]) == "cover"[k]
  }

  /** `/cover/i.test(s)` */
  predicate MatchesCover(s: string) {
    exists i: nat :: i + 5 <= |s| && CoverAt(s, i)
  }

  predicate StartsWith(s: string, prefix: string) {
    |prefix| <= |s| && s[..|prefix|] == prefix
  }

  /** The string the regular expression sees for an optional field: JavaScript
      turns `undefined` into "undefined". */
  function JsText(v: Option<string>): string {
    match v
    case Some(s) => s
    case None => "undefined"
  }

  /** `item.id || item.href`: the id unless it is absent or empty. */
  function CoverSubject(item: ManifestItem): Option<string> {
    if item.id.Some? && item.id.value != "" then item.id else item.href
  }

  /** The loop's condition: an `image/` media type and "cover" in `id || href`. */
  predicate IsCoverItem(item: ManifestItem) {
    && item.mediaType.Some?
    && StartsWith(item.mediaType.value, "image/")
    && MatchesCover(JsText(CoverSubject(item)))
  }

  /** The position of the first entry that passes the test, if any. */
  function CoverIndex(m: seq<ManifestEntry>): (r: Option<nat>)
    ensures r.Some? ==> r.value < |m| && IsCoverItem(m[r.value].item)
    ensures r.Some? ==> forall j :: 0 <= j < r.value ==> !IsCoverItem(m[j].item)
    ensures r.None? <==> forall j :: 0 <= j < |m| ==> !IsCoverItem(m[j].item)
  {
    if m == [] then None
    else if IsCoverItem(m[0].item) then Some(0)
    else match CoverIndex(m[1..])
      case None => None
      case Some(k) => Some(k + 1)
  }

  /** The `coverId` the loop leaves: the first passing key, or "" if none. */
  function CoverKey(m: seq<ManifestEntry>): string {
    match CoverIndex(m)
    case Some(k) => m[k].key
    case None => ""
  }

  /** The `for...in` loop over the manifest that sets `coverId` and breaks. */
  method SelectCoverId(manifest: seq<ManifestEntry>) returns (coverId: string)
    ensures coverId == CoverKey(manifest)
  {
    coverId := "";
    var i := 0;
    while i < |manifest|
      invariant 0 <= i <= |manifest|
      invariant forall j :: 0 <= j < i ==> !IsCoverItem(manifest[j].item)
      invariant coverId == ""
    {
      if IsCoverItem(manifest[i].item) {
        coverId := manifest[i].key;
        break;
      }
      i := i + 1;
    }
  }

  // ---------------------------------------------------------------------
  // Chapter assembly

  /** `epub.flow.map(...)` joined by `Promise.all`: one record per flow id,
      carrying that id and the normalised stripped markup, or nothing if any
      fetch fails. */
  function AssembleChapters(flow: seq<string>, getChapter: string -> ChapterFetch, stripHtml: string -> string)
    : (r: Option<seq<TextRecord>>)
    ensures r.Some? <==> forall i :: 0 <= i < |flow| ==> getChapter(flow[i]).ChapterData?
    ensures r.Some? ==> |r.value| == |flow|
    ensures r.Some? ==> forall i :: 0 <= i < |flow| ==>
      r.value[i] == ChapterText(flow[i], Normalize(stripHtml(getChapter(flow[i]).markup)))
  {
    if flow == [] then Some([])
    else match getChapter(flow[0])
      case ChapterError => None
      case ChapterData(markup) =>
        match AssembleChapters(flow[1..], getChapter, stripHtml)
        case None => None
        case Some(rest) => Some([ChapterText(flow[0], Normalize(stripHtml(markup)))] + rest)
  }

  // ---------------------------------------------------------------------
  // The whole parse

  /** `./tmp/${uniqueId}.epub` */
  function TempPath(uniqueId: string): string {
    "./tmp/" + uniqueId + ".epub"
  }

  /** How the promise settles, in the order the callbacks run: cover lookup
      with the selected key, then the chapters, then the empty check. */
  function EpubOutcome(uniqueId: string, lib: EpubBackend): Settlement {
    match lib.archive
    case None => Pending
    case Some(archive) =>
      match lib.getImage(CoverKey(archive.manifest))
      case ImageError => Rejected(CoverFetchFailed)
      case ImageNull => Rejected(CoverMissing)
      case ImageData(bytes) =>
        match AssembleChapters(archive.flow, lib.getChapter, lib.stripHtml)
        case None => Rejected(ChapterFetchFailed)
        case Some(texts) =>
          if |texts| == 0 then Rejected(NoChapters)
          else Resolved(ParsedFile(texts, CoverFile(uniqueId, bytes)))
  }

  /** The directory `./tmp` as a set of file paths. */
  class TmpDir {
    var files: set<string>

    constructor ()
      ensures files == {}
    {
      files := {};
    }

    /** `fs.writeFileSync(path, buffer)` */
    method WriteFile(path: string)
      modifies this
      ensures files == old(files) + {path}
    {
      files := files + {path};
    }

    /** `fs.unlinkSync(path)`; it throws on a missing file, so the file must exist. */
    method Unlink(path: string)
      requires path in files
      modifies this
      ensures files == old(files) - {path}
    {
      files := files - {path};
    }
  }

  /** `parseEpub(file)`: writes the temporary copy, then settles as
      `EpubOutcome` says; the copy is unlinked only just before resolving. */
  method ParseEpub(uniqueId: string, lib: EpubBackend, tmp: TmpDir) returns (s: Settlement)
    modifies tmp
    ensures s == EpubOutcome(uniqueId, lib)
    ensures s.Resolved? ==> tmp.files == old(tmp.files) - {TempPath(uniqueId)}
    ensures !s.Resolved? ==> tmp.files == old(tmp.files) + {TempPath(uniqueId)}
  {
    var path := TempPath(uniqueId);
    tmp.WriteFile(path);
    if lib.archive.None? {
      return Pending;
    }
    var archive := lib.archive.value;
    var coverId := SelectCoverId(archive.manifest);
    var coverImage := lib.getImage(coverId);
    if coverImage.ImageError? {
      return Rejected(CoverFetchFailed);
    }
    if coverImage.ImageNull? {
      return Rejected(CoverMissing);
    }
    var texts := AssembleChapters(archive.flow, lib.getChapter, lib.stripHtml);
    if texts.None? {
      return Rejected(ChapterFetchFailed);
    }
    if |texts.value| == 0 {
      return Rejected(NoChapters);
    }
    var fileImage := CoverFile(uniqueId, coverImage.bytes);
    tmp.Unlink(path);
    return Resolved(ParsedFile(texts.value, fileImage));
  }

  // ---------------------------------------------------------------------
  // Properties

  /** The selected key belongs to the first passing entry, and any entry that
      passes with no passing entry before it is the one selected. */
  lemma CoverKeyIsFirstMatch(m: seq<ManifestEntry>, k: nat)
    requires k < |m| && IsCoverItem(m[k].item)
    requires forall j :: 0 <= j < k ==> !IsCoverItem(m[j].item)
    ensures CoverIndex(m) == Some(k)
    ensures CoverKey(m) == m[k].key
  {
  }

  /** With no passing entry the cover is looked up under the empty id. */
  lemma NoMatchLooksUpEmptyId(m: seq<ManifestEntry>)
    requires forall j :: 0 <= j < |m| ==> !IsCoverItem(m[j].item)
    ensures CoverKey(m) == ""
  {
  }

  /** A non-empty id decides alone: the href is never consulted. */
  lemma HrefIgnoredWhenIdSet(item: ManifestItem)
    requires item.id.Some? && item.id.value != "" && !MatchesCover(item.id.value)
    ensures !IsCoverItem(item)
  {
  }

  /** An item without a media type is never the cover. */
  lemma NoMediaTypeNeverCover(item: ManifestItem)
    requires item.mediaType.None?
    ensures !IsCoverItem(item)
  {
  }

  /** The parse resolves exactly when the archive opens, the cover lookup
      yields a buffer, every chapter fetch succeeds and the flow is non-empty. */
  lemma EpubResolvedIff(uniqueId: string, lib: EpubBackend)
    ensures EpubOutcome(uniqueId, lib).Resolved? <==>
      && lib.archive.Some?
      && lib.getImage(CoverKey(lib.archive.value.manifest)).ImageData?
      && |lib.archive.value.flow| > 0
      && forall i :: 0 <= i < |lib.archive.value.flow| ==> lib.getChapter(lib.archive.value.flow[i]).ChapterData?
  {
  }

  /** On success: one normalised record per flow entry in flow order, tagged
      with its flow id, and the cover buffer wrapped as `${uniqueId}.jpeg`. */
  lemma EpubResolvedContents(uniqueId: string, lib: EpubBackend)
    requires EpubOutcome(uniqueId, lib).Resolved?
    ensures var f := EpubOutcome(uniqueId, lib).file;
      var flow := lib.archive.value.flow;
      && |f.texts| == |flow|
      && (forall i :: 0 <= i < |flow| ==>
            f.texts[i] == ChapterText(flow[i], Normalize(lib.stripHtml(lib.getChapter(flow[i]).markup)))
            && IsNormalized(f.texts[i].text))
      && f.fileImage == ImageFile(uniqueId + ".jpeg", "image/jpeg", lib.getImage(CoverKey(lib.archive.value.manifest)).bytes)
  {
    var f := EpubOutcome(uniqueId, lib).file;
    forall i | 0 <= i < |f.texts|
      ensures IsNormalized(f.texts[i].text)
    {
      var flow := lib.archive.value.flow;
      NormalizeIsNormalized(lib.stripHtml(lib.getChapter(flow[i]).markup));
    }
  }

  /** A failed cover lookup rejects before any chapter matters. */
  lemma CoverFailureRejects(uniqueId: string, lib: EpubBackend)
    requires lib.archive.Some?
    requires !lib.getImage(CoverKey(lib.archive.value.manifest)).ImageData?
    ensures EpubOutcome(uniqueId, lib).Rejected?
    ensures EpubOutcome(uniqueId, lib).error in {CoverFetchFailed, CoverMissing}
  {
  }

  /** An empty flow rejects with "Failed to parse chapters" once the cover is found. */
  lemma EmptyFlowRejects(uniqueId: string, lib: EpubBackend)
    requires lib.archive.Some? && lib.archive.value.flow == []
    requires lib.getImage(CoverKey(lib.archive.value.manifest)).ImageData?
    ensures EpubOutcome(uniqueId, lib) == Rejected(NoChapters)
    ensures Message(EpubOutcome(uniqueId, lib).error) == "Failed to parse chapters"
  {
  }

  /** A single failing chapter fetch rejects the whole parse: no partial result. */
  lemma ChapterFailureRejects(uniqueId: string, lib: EpubBackend, i: nat)
    requires lib.archive.Some? && i < |lib.archive.value.flow|
    requires lib.getImage(CoverKey(lib.archive.value.manifest)).ImageData?
    requires lib.getChapter(lib.archive.value.flow[i]).ChapterError?
    ensures EpubOutcome(uniqueId, lib) == Rejected(ChapterFetchFailed)
  {
  }
}
