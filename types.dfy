/** Values shared by both parsers and the request handler: the `ParsedFile`
    record a parser resolves with, and the small Option/Result wrappers the
    model uses for the source's `undefined` values and thrown errors. */
module Types {

  datatype Option<T> = None | Some(value: T)

  datatype Result<T, E> = Ok(value: T) | Err(error: E)

  /** Raw file contents (a Node `Buffer`). */
  type Bytes = seq<bv8>

  /** A `File` built from a buffer: its name, its MIME type and its bytes. */
  datatype ImageFile = ImageFile(name: string, mimeType: string, bytes: Bytes)

  /** One element of the `texts` array a parser produces: an EPUB chapter is
      tagged with its flow id, a PDF page with its page number. */
  datatype TextRecord =
    | ChapterText(chapterId: string, text: string)
    | PageText(page: int, text: string)

  /** What both parsers resolve with: the text records (serialised with
      `JSON.stringify` in the source) and the cover image. */
  datatype ParsedFile = ParsedFile(texts: seq<TextRecord>, fileImage: ImageFile)

  /** The cover `File` both parsers build: `${uniqueId}.jpeg`, type `image/jpeg`. */
  function CoverFile(uniqueId: string, bytes: Bytes): ImageFile {
    ImageFile(uniqueId + ".jpeg", "image/jpeg", bytes)
  }
}
