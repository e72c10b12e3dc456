/** Consistency between the format catalogs, the MIME allow-lists, the
    classifier's extension rule, the text converter and the panel. */
module CatalogFacts {
  import opened Types
  import opened Strings
  import opened Constants
  import opened FileClassifier
  import opened TextConversion
  import opened ConverterPanel

  /** The short codes of each catalog, in display order, pairwise distinct so
      that choosing by value is unambiguous. */
  lemma ImageValues()
    ensures Values(SupportedImageFormats) == ["jpeg", "png", "webp", "bmp"]
  {
  }

  lemma ImageValuesDistinct()
    ensures Distinct(Values(SupportedImageFormats))
  {
    ImageValues();
    assert Distinct(["jpeg", "png", "webp", "bmp"]);
  }

  lemma VideoValues()
    ensures Values(SupportedVideoFormats) == ["mp4", "webm", "avi", "mov"]
  {
  }

  lemma VideoValuesDistinct()
    ensures Distinct(Values(SupportedVideoFormats))
  {
    VideoValues();
    assert Distinct(["mp4", "webm", "avi", "mov"]);
  }

  lemma DocValues()
    ensures Values(SupportedDocFormats) == ["pdf", "docx", "txt", "json", "csv"]
  {
  }

  lemma DocValuesDistinct()
    ensures Distinct(Values(SupportedDocFormats))
  {
    DocValues();
    assert Distinct(["pdf", "docx", "txt", "json", "csv"]);
  }

  lemma CatalogValuesDistinct(t: FileType)
    ensures Distinct(Values(FormatsFor(t)))
  {
    match t
    case IMAGE => ImageValuesDistinct();
    case VIDEO => VideoValuesDistinct();
    case DOCUMENT => DocValuesDistinct();
    case UNKNOWN =>
  }

  /** Choosing an entry's value selects that very entry. */
  lemma CatalogLookup(t: FileType, i: nat)
    requires i < |FormatsFor(t)|
    ensures FindFormat(FormatsFor(t), FormatsFor(t)[i].value) == Some(FormatsFor(t)[i])
  {
    CatalogValuesDistinct(t);
    FindFormatDistinct(FormatsFor(t), i);
  }

  /** Every catalog MIME type is on its own category's allow-list, so a blob
      carrying it classifies into that category whatever its name. */
  lemma CatalogMimeClassifies(t: FileType, f: ConversionFormat, name: string)
    requires f in FormatsFor(t)
    ensures f.mimeType in MimeTypesOf(t)
    ensures DetermineFileType(f.mimeType, name) == t
  {
    MimeWins(f.mimeType, name, t);
  }

  lemma CatalogExtensionsPlain(t: FileType, f: ConversionFormat)
    requires f in FormatsFor(t)
    ensures PlainExtension(f.extension)
  {
    match t
    case IMAGE => ImageExtensionsCategory(f);
    case VIDEO => VideoExtensionsCategory(f);
    case DOCUMENT => DocExtensionsCategory(f);
  }

  lemma ExtensionIsLowerCase(t: FileType, f: ConversionFormat)
    requires f in FormatsFor(t)
    ensures ToLower(f.extension) == f.extension
    ensures '.' !in f.extension
  {
    CatalogExtensionsPlain(t, f);
    PlainExtensionFixed(f.extension);
  }

  lemma ImageExtensionsCategory(f: ConversionFormat)
    requires f in SupportedImageFormats
    ensures PlainExtension(f.extension)
    ensures ExtensionCategory(f.extension) == IMAGE
  {
    var e := f.extension;
    assert e == "jpg" || e == "png" || e == "webp" || e == "bmp";
    if e == "jpg" {} else if e == "png" {} else if e == "webp" {} else {}
  }

  lemma VideoExtensionsCategory(f: ConversionFormat)
    requires f in SupportedVideoFormats
    ensures PlainExtension(f.extension)
    ensures ExtensionCategory(f.extension) == VIDEO
  {
    var e := f.extension;
    assert e == "mp4" || e == "webm" || e == "avi" || e == "mov";
    VideoCategory();
  }

  /** The video catalog's extensions are on the video list and not the image list. */
  lemma VideoCategory()
    ensures ExtensionCategory("mp4") == VIDEO && ExtensionCategory("webm") == VIDEO
    ensures ExtensionCategory("avi") == VIDEO && ExtensionCategory("mov") == VIDEO
  {
  }

  lemma DocExtensionsCategory(f: ConversionFormat)
    requires f in SupportedDocFormats
    ensures PlainExtension(f.extension)
    ensures ExtensionCategory(f.extension) == DOCUMENT
  {
    var e := f.extension;
    assert e == "pdf" || e == "docx" || e == "txt" || e == "json" || e == "csv";
    if e == "pdf" || e == "docx" {
      PdfDocxCategory();
    } else {
      PlainTextCategory();
    }
  }

  /** The document catalog's extensions are on the document list and on no earlier one. */
  lemma PdfDocxCategory()
    ensures ExtensionCategory("pdf") == DOCUMENT && ExtensionCategory("docx") == DOCUMENT
  {
  }

  lemma PlainTextCategory()
    ensures ExtensionCategory("txt") == DOCUMENT && ExtensionCategory("json") == DOCUMENT
    ensures ExtensionCategory("csv") == DOCUMENT
  {
  }

  /** Every catalog extension lies on its own category's extension list and no
      earlier one. */
  lemma CatalogExtensionCategory(t: FileType, f: ConversionFormat)
    requires f in FormatsFor(t)
    ensures ExtensionCategory(f.extension) == t
    ensures f.extension in ExtensionsOf(t)
  {
    match t
    case IMAGE => ImageExtensionsCategory(f);
    case VIDEO => VideoExtensionsCategory(f);
    case DOCUMENT => DocExtensionsCategory(f);
  }

  /** So a name ending in a catalog extension classifies into the entry's
      category when the MIME type is on no allow-list. */
  lemma CatalogExtensionClassifies(t: FileType, f: ConversionFormat, mimeType: string, stem: string)
    requires f in FormatsFor(t) && !InSomeAllowList(mimeType)
    ensures DetermineFileType(mimeType, stem + "." + f.extension) == t
  {
    ExtensionIsLowerCase(t, f);
    ClassifyDotted(mimeType, stem, f.extension);
    CatalogExtensionCategory(t, f);
  }

  /** The txt, json and csv entries carry exactly the MIME type the text
      converter emits for them. */
  lemma TextTargetsMatchCatalog(f: ConversionFormat, t: TextTarget)
    requires f in SupportedDocFormats && f.value == TargetValue(t)
    ensures TargetMime(t) == f.mimeType
  {
  }

  /** A request the panel can make is for an entry of the file's own catalog. */
  lemma RequestInCatalog(s: PanelState)
    requires Inv(s) && RequestOf(s).Some?
    ensures RequestOf(s).value.target in FormatsFor(RequestOf(s).value.fileData.fileType)
    ensures Describes(RequestOf(s).value.fileData, RequestOf(s).value.fileData.file)
  {
  }

  /** Outside the image path a conversion never fails, its result carries the
      chosen entry's MIME type, and it classifies back into the file's category. */
  lemma ConvertedReclassifies(s: PanelState, imageResult: Option<Blob>, text: string, parse: ParseOutcome, name: string)
    requires Inv(s) && RequestOf(s).Some? && s.fileData.value.fileType != IMAGE
    ensures var req := RequestOf(s).value;
      var o := Convert(req, imageResult, text, parse);
      o.Converted? && o.blob.mimeType == req.target.mimeType
      && DetermineFileType(o.blob.mimeType, name) == req.fileData.fileType
  {
    var req := RequestOf(s).value;
    RequestInCatalog(s);
    CatalogMimeClassifies(req.fileData.fileType, req.target, name);
    match RouteOf(req.fileData.fileType, req.target.value)
    case TextPath(t) =>
      TextTargetsMatchCatalog(req.target, t);
    case RelabelPath =>
    case ImagePath =>
  }

  /** The downloaded name keeps the format's extension: read back as an
      accepted file's name it yields that extension and the file's category. */
  lemma DownloadNameClassifies(t: FileType, f: ConversionFormat, name: string)
    requires f in FormatsFor(t)
    ensures OriginalExtension(DownloadName(name, f.extension)) == f.extension
    ensures DetermineFileType("", DownloadName(name, f.extension)) == t
  {
    var stem, ext := DownloadBase(name) + "_fenix", f.extension;
    DownloadNameDotted(name, ext);
    ExtensionIsLowerCase(t, f);
    DownloadNameExtension(name, ext);
    EmptyMimeUnlisted();
    CatalogExtensionClassifies(t, f, "", stem);
  }
}
