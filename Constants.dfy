/** The static tables: the target formats offered per category, in display
    order, and the MIME allow-lists the classifier consults. */
module Constants {
  import opened Types

  const SupportedImageFormats: seq<ConversionFormat> := [
    ConversionFormat("JPEG Image", "jpeg", "image/jpeg", "jpg"),
    ConversionFormat("PNG Image", "png", "image/png", "png"),
    ConversionFormat("WebP Image", "webp", "image/webp", "webp"),
    ConversionFormat("BMP Image", "bmp", "image/bmp", "bmp")
  ]

  const SupportedVideoFormats: seq<ConversionFormat> := [
    ConversionFormat("MP4 Video", "mp4", "video/mp4", "mp4"),
    ConversionFormat("WebM Video", "webm", "video/webm", "webm"),
    ConversionFormat("AVI Video", "avi", "video/x-msvideo", "avi"),
    ConversionFormat("MOV Video", "mov", "video/quicktime", "mov")
  ]

  const WordMimeType: string := "application/vnd.openxmlformats-officedocument.wordprocessingml.document"

  const SupportedDocFormats: seq<ConversionFormat> := [
    ConversionFormat("PDF Document", "pdf", "application/pdf", "pdf"),
    ConversionFormat("Word Document", "docx", WordMimeType, "docx"),
    ConversionFormat("Plain Text", "txt", "text/plain", "txt"),
    ConversionFormat("JSON Data", "json", "application/json", "json"),
    ConversionFormat("CSV Data", "csv", "text/csv", "csv")
  ]

  const ImageMimeTypes: seq<string> :=
    ["image/jpeg", "image/png", "image/webp", "image/gif", "image/bmp", "image/svg+xml"]

  const VideoMimeTypes: seq<string> :=
    ["video/mp4", "video/webm", "video/quicktime", "video/x-msvideo", "video/mpeg"]

  const DocMimeTypes: seq<string> :=
    ["application/pdf", "text/plain", "application/json", "text/csv", "application/msword", WordMimeType]

  /** The catalog offered for a category: the panel's `availableFormats` switch. */
  function FormatsFor(t: FileType): (formats: seq<ConversionFormat>)
    ensures formats == [] <==> t == UNKNOWN
  {
    match t
    case IMAGE => SupportedImageFormats
    case VIDEO => SupportedVideoFormats
    case DOCUMENT => SupportedDocFormats
    case UNKNOWN => []
  }

  /** The MIME allow-list of a category (none for UNKNOWN). */
  function MimeTypesOf(t: FileType): seq<string> {
    match t
    case IMAGE => ImageMimeTypes
    case VIDEO => VideoMimeTypes
    case DOCUMENT => DocMimeTypes
    case UNKNOWN => []
  }

  function Values(formats: seq<ConversionFormat>): seq<string> {
    seq(|formats|, i requires 0 <= i < |formats| => formats[i].value)
  }
}
