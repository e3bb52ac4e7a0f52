/**
 * The values the merger works on: raw bytes, the `PdfFile` record, the read
 * stream a file is loaded from, pages of a parsed document, and the errors a
 * merge can end with.
 */
module PdfTypes {

  /** One byte of a file or stream chunk (a Node.js `Buffer` holds these). */
  newtype byte = x: int | 0 <= x < 256

  /** A stream chunk: one `Uint8Array` delivered by the read stream. */
  type Chunk = seq<byte>

  /** The conventional Success/Failure wrapper used for every step that can throw. */
  datatype Result<+T, +E> = Success(value: T) | Failure(error: E)

  /**
   * A file as collected from disk or from a stream: its base name, used only for
   * ordering, and its complete raw content.
   */
  datatype PdfFile = PdfFile(filename: string, content: seq<byte>)

  /**
   * A readable stream as the collector sees it: the chunks it yields, in
   * arrival order, and then either a clean end (`failure == None`) or an error
   * raised after those chunks.
   */
  datatype ReadStream = ReadStream(chunks: seq<Chunk>, failure: Option<string>)

  datatype Option<+T> = None | Some(value: T)

  /**
   * One page of a parsed document. Its inner structure (content streams, fonts,
   * resources) belongs to the PDF library; a copied page is the same value.
   */
  datatype Page = Page(resources: seq<byte>)

  /**
   * The PDF library's `PDFDocument.load` followed by `getPageIndices`: raw bytes
   * to the document's pages in stored order, or the library's error message.
   */
  type Parser = seq<byte> -> Result<seq<Page>, string>

  /** The PDF library's `save`: a document's pages to the bytes written to disk. */
  type Serializer = seq<Page> -> seq<byte>

  /** Why a merge fails. */
  datatype MergeError =
    | NoPdfFiles               // the collected set is empty
    | ParseError(message: string)  // the PDF library rejected one file's bytes
  {
    /** The message carried by the thrown `Error`. */
    function Message(): string
    {
      match this
      case NoPdfFiles => "No PDF files to merge"
      case ParseError(msg) => msg
    }
  }

  /** Name of the file the directory merge writes into the working directory. */
  const OutputFileName: string := "merged-pdfs.pdf"
}
