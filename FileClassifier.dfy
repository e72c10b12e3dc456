/** The file-type classifier and the pass-through relabel conversion. */
module FileClassifier {
  import opened Types
  import opened Strings
  import opened Constants

  /** The alternatives of the three extension regular expressions. */
  const ImageExtensions: seq<string> := ["jpg", "jpeg", "png", "webp", "gif", "bmp", "svg"]
  const VideoExtensions: seq<string> := ["mp4", "webm", "mov", "avi", "mkv"]
  const DocExtensions: seq<string> := ["pdf", "doc", "docx", "txt", "json", "csv", "md"]

  function ExtensionsOf(t: FileType): seq<string> {
    match t
    case IMAGE => ImageExtensions
    case VIDEO => VideoExtensions
    case DOCUMENT => DocExtensions
    case UNKNOWN => []
  }

  /** `/\.(e1|e2|...)$/.test(name)`: the name ends with a dot followed by one of the extensions. */
  predicate MatchesExtension(name: string, extensions: seq<string>) {
    exists e :: e in extensions && EndsWith(name, "." + e)
  }

  /** The category of a file: its declared MIME type decides when one of the
      allow-lists (image, then video, then document) contains it; otherwise the
      lower-cased name's extension decides (same order); otherwise UNKNOWN. */
  function DetermineFileType(mimeType: string, name: string): (t: FileType)
  {
    if mimeType in ImageMimeTypes then IMAGE
    else if mimeType in VideoMimeTypes then VIDEO
    else if mimeType in DocMimeTypes then DOCUMENT
    else
      var lower := ToLower(name);
      if MatchesExtension(lower, ImageExtensions) then IMAGE
      else if MatchesExtension(lower, VideoExtensions) then VIDEO
      else if MatchesExtension(lower, DocExtensions) then DOCUMENT
      else UNKNOWN
  }

  predicate InSomeAllowList(mimeType: string) {
    mimeType in ImageMimeTypes || mimeType in VideoMimeTypes || mimeType in DocMimeTypes
  }

  /** A file without a declared type is classified by its name alone. */
  lemma EmptyMimeUnlisted()
    ensures !InSomeAllowList("")
  {
  }

  /** No MIME type is on two allow-lists. */
  lemma AllowListsDisjoint(m: string)
    ensures !(m in ImageMimeTypes && m in VideoMimeTypes)
    ensures !(m in ImageMimeTypes && m in DocMimeTypes)
    ensures !(m in VideoMimeTypes && m in DocMimeTypes)
  {
  }

  /** A MIME type on a category's allow-list classifies the file into that
      category whatever its name; because the lists are disjoint, the order in
      which they are checked does not matter. */
  lemma MimeWins(mimeType: string, name: string, t: FileType)
    requires mimeType in MimeTypesOf(t)
    ensures DetermineFileType(mimeType, name) == t
  {
    AllowListsDisjoint(mimeType);
  }

  /** The name is consulted only when no allow-list contains the MIME type, and
      then only its lower-cased extension counts. */
  lemma ExtensionFallback(mimeType: string, name: string)
    requires !InSomeAllowList(mimeType)
    ensures DetermineFileType(mimeType, name) == DetermineFileType("", ToLower(name))
    ensures DetermineFileType(mimeType, name) != UNKNOWN
      <==> MatchesExtension(ToLower(name), ImageExtensions + VideoExtensions + DocExtensions)
  {
    ToLowerIdempotent(name);
    EmptyMimeUnlisted();
    ExtensionsUnion(ToLower(name));
  }

  lemma ExtensionsUnion(lower: string)
    ensures MatchesExtension(lower, ImageExtensions + VideoExtensions + DocExtensions)
      <==> (MatchesExtension(lower, ImageExtensions) || MatchesExtension(lower, VideoExtensions)
            || MatchesExtension(lower, DocExtensions))
  {
    var all := ImageExtensions + VideoExtensions + DocExtensions;
    if MatchesExtension(lower, all) {
      var e :| e in all && EndsWith(lower, "." + e);
      assert e in ImageExtensions || e in VideoExtensions || e in DocExtensions;
    }
  }

  /** UNKNOWN is returned exactly when neither the MIME type nor the extension matches. */
  lemma UnknownIff(mimeType: string, name: string)
    ensures DetermineFileType(mimeType, name) == UNKNOWN
      <==> (!InSomeAllowList(mimeType)
            && !MatchesExtension(ToLower(name), ImageExtensions)
            && !MatchesExtension(ToLower(name), VideoExtensions)
            && !MatchesExtension(ToLower(name), DocExtensions))
  {
  }

  /** No dot and no upper-case letter: an extension `toLowerCase` leaves alone. */
  predicate PlainExtension(s: string) {
    forall i :: 0 <= i < |s| ==> s[i] != '.' && !('A' <= s[i] <= 'Z')
  }

  lemma PlainExtensionFixed(s: string)
    requires PlainExtension(s)
    ensures ToLower(s) == s && '.' !in s
  {
  }

  /** Where the dot of a dotted suffix `.b` falls in a name ending `.a`. */
  lemma DotPositions(x: string, a: string, b: string)
    requires EndsWith(x + "." + a, "." + b)
    ensures |b| < |a| ==> a[|a| - |b| - 1] == '.'
    ensures |b| > |a| ==> b[|b| - |a| - 1] == '.'
    ensures |b| == |a| ==> a == b
  {
    var s, da, db := x + "." + a, "." + a, "." + b;
    assert s == x + da;
    assert s[|s| - |da|..] == da;
    assert s[|s| - |db|..] == db;
    if |b| < |a| {
      assert da[|a| - |b|] == s[|s| - |db|] == db[0];
    } else if |b| > |a| {
      assert db[|b| - |a|] == s[|s| - |da|] == da[0];
    } else {
      assert a == da[1..] == db[1..] == b;
    }
  }

  /** A dotted suffix `.b` of a name ending `.a` is `.a` itself when neither
      `a` nor `b` contains a dot. */
  lemma DottedSuffixUnique(x: string, a: string, b: string)
    requires '.' !in a && '.' !in b && EndsWith(x + "." + a, "." + b)
    ensures a == b
  {
    DotPositions(x, a, b);
  }

  /** For dot-free extensions the regular expression test is list membership. */
  lemma MatchesDotted(x: string, ext: string, extensions: seq<string>)
    requires '.' !in ext && forall e :: e in extensions ==> '.' !in e
    ensures MatchesExtension(x + "." + ext, extensions) <==> ext in extensions
  {
    var s := x + "." + ext;
    if ext in extensions {
      assert s[|s| - |"." + ext|..] == "." + ext;
    }
    if MatchesExtension(s, extensions) {
      var e :| e in extensions && EndsWith(s, "." + e);
      DottedSuffixUnique(x, ext, e);
    }
  }

  lemma ExtensionListsDotFree()
    ensures forall e :: e in ImageExtensions ==> '.' !in e
    ensures forall e :: e in VideoExtensions ==> '.' !in e
    ensures forall e :: e in DocExtensions ==> '.' !in e
  {
  }

  /** Lower-casing a dotted name lower-cases both sides of the dot and adds no dot. */
  lemma LowerDotted(stem: string, ext: string)
    requires '.' !in ext
    ensures ToLower(stem + "." + ext) == ToLower(stem) + "." + ToLower(ext)
    ensures '.' !in ToLower(ext)
  {
    ToLowerAppend(stem + ".", ext);
    ToLowerAppend(stem, ".");
    assert ToLower(".") == ".";
    assert forall i :: 0 <= i < |ext| ==> ToLower(ext)[i] == LowerChar(ext[i]) != '.';
  }

  /** The first extension list holding `e`, in the order the rules are tried. */
  function ExtensionCategory(e: string): FileType {
    if e in ImageExtensions then IMAGE
    else if e in VideoExtensions then VIDEO
    else if e in DocExtensions then DOCUMENT
    else UNKNOWN
  }

  /** A name `stem.ext` with a dot-free `ext`, under a MIME type on no
      allow-list, is classified by which extension list holds the lower-cased
      `ext`. */
  lemma ClassifyDotted(mimeType: string, stem: string, ext: string)
    requires !InSomeAllowList(mimeType) && '.' !in ext
    ensures DetermineFileType(mimeType, stem + "." + ext) == ExtensionCategory(ToLower(ext))
  {
    LowerDotted(stem, ext);
    ExtensionListsDotFree();
    MatchesDotted(ToLower(stem), ToLower(ext), ImageExtensions);
    MatchesDotted(ToLower(stem), ToLower(ext), VideoExtensions);
    MatchesDotted(ToLower(stem), ToLower(ext), DocExtensions);
  }

  /** A file with an empty MIME type whose name ends in `.PNG` or `.png` is an image. */
  lemma PngNameIsImage(base: string)
    ensures DetermineFileType("", base + ".PNG") == IMAGE
    ensures DetermineFileType("", base + ".png") == IMAGE
  {
    EmptyMimeUnlisted();
    ClassifyDotted("", base, "PNG");
    ClassifyDotted("", base, "png");
    assert base + ".PNG" == base + "." + "PNG";
    assert base + ".png" == base + "." + "png";
    assert ToLower("PNG") == "png" == ToLower("png");
    assert ExtensionCategory("png") == IMAGE;
  }

  /** `file.slice(0, file.size, targetMimeType)`: the very same bytes under a new MIME type. */
  function SimulateConversion(file: SourceFile, targetMimeType: string): (b: Blob)
    ensures b.payload == Bytes(file.bytes)
    ensures b.mimeType == targetMimeType
  {
    assert file.bytes[0..|file.bytes|] == file.bytes;
    Blob(Bytes(file.bytes[0..|file.bytes|]), targetMimeType)
  }
}
