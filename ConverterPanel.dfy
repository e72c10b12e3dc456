/** The conversion panel: the selectors it renders from, the three-way dispatch
    of a conversion, the six state fields with the bookkeeping of object URLs and
    progress intervals, and the handlers that update them step by step. */
module ConverterPanel {
  import opened Types
  import opened Strings
  import opened Constants
  import opened FileClassifier
  import opened TextConversion

  const UnsupportedMessage: string := "Format not supported."
  const ConversionErrorMessage: string := "An error occurred during conversion."

  /** `availableFormats`: the catalog of the accepted file's category. */
  function AvailableFormats(fileData: Option<FileData>): (formats: seq<ConversionFormat>)
    ensures formats == [] <==> fileData.None? || fileData.value.fileType == UNKNOWN
    ensures fileData.Some? ==> formats == FormatsFor(fileData.value.fileType)
  {
    if fileData.None? then [] else FormatsFor(fileData.value.fileType)
  }

  /** `formats.find(f => f.value === value) || null`. */
  function FindFormat(formats: seq<ConversionFormat>, value: string): (r: Option<ConversionFormat>)
    ensures r.None? <==> value !in Values(formats)
    ensures r.Some? ==> r.value in formats && r.value.value == value
  {
    if formats == [] then None
    else
      assert Values(formats) == [formats[0].value] + Values(formats[1..]);
      if formats[0].value == value then Some(formats[0])
      else FindFormat(formats[1..], value)
  }

  /** The lookup returns the first entry carrying the value asked for. */
  lemma {:induction false} FindFormatFirst(formats: seq<ConversionFormat>, i: nat)
    requires i < |formats|
    requires forall j :: 0 <= j < i ==> formats[j].value != formats[i].value
    ensures FindFormat(formats, formats[i].value) == Some(formats[i])
  {
    if i > 0 {
      FindFormatFirst(formats[1..], i - 1);
    }
  }

  /** With pairwise distinct values, every entry is found by its own value. */
  lemma FindFormatDistinct(formats: seq<ConversionFormat>, i: nat)
    requires Distinct(Values(formats)) && i < |formats|
    ensures FindFormat(formats, formats[i].value) == Some(formats[i])
  {
    forall j | 0 <= j < i
      ensures formats[j].value != formats[i].value
    {
      DistinctAt(Values(formats), j, i);
    }
    FindFormatFirst(formats, i);
  }

  /** `name.split('.').pop()`: never undefined, since a split has at least one piece. */
  function LastPiece(name: string): (piece: string)
    ensures '.' !in piece
  {
    var parts := Split(name, '.');
    parts[|parts| - 1]
  }

  /** `name.split('.').pop()?.toLowerCase() || ''`; the `|| ''` only maps "" to "". */
  function OriginalExtension(name: string): string {
    ToLower(LastPiece(name))
  }

  /** The last piece of the split is the text after the last dot, or the whole name. */
  lemma {:induction false} LastPieceAfterLastDot(name: string)
    ensures LastPiece(name) == name[LastIndexOf(name, '.') + 1..]
  {
    if name != [] {
      var p, c := name[..|name| - 1], name[|name| - 1];
      LastPieceAfterLastDot(p);
      if c != '.' {
        var i := LastIndexOf(p, '.');
        assert name[i + 1..] == p[i + 1..] + [c];
      }
    }
  }

  /** The stored extension is the lower-cased text after the last dot. */
  lemma OriginalExtensionAfterLastDot(name: string)
    ensures OriginalExtension(name) == ToLower(name[LastIndexOf(name, '.') + 1..])
    ensures LastIndexOf(name, '.') == -1 ==> OriginalExtension(name) == ToLower(name)
  {
    LastPieceAfterLastDot(name);
  }

  /** Lower-casing the name first gives the same last piece, lower-cased. */
  lemma {:induction false} LastPieceLower(name: string)
    ensures LastPiece(ToLower(name)) == ToLower(LastPiece(name))
  {
    if name != [] {
      var p, c := name[..|name| - 1], name[|name| - 1];
      var lower := ToLower(name);
      assert lower[..|lower| - 1] == ToLower(p);
      assert lower[|lower| - 1] == LowerChar(c);
      LastPieceLower(p);
      if c != '.' {
        ToLowerAppend(LastPiece(p), [c]);
      }
    }
  }

  /** When the lower-cased name ends with `.e` for a dot-free `e` (the test the
      classifier's extension rule makes), the stored extension is exactly `e`. */
  lemma OriginalExtensionSeen(name: string, e: string)
    requires '.' !in e && EndsWith(ToLower(name), "." + e)
    ensures OriginalExtension(name) == e
  {
    var lower := ToLower(name);
    var k := |lower| - |e|;
    assert lower[k - 1..] == "." + e;
    assert lower == lower[..k - 1] + ['.'] + e;
    SplitAfterSep(lower[..k - 1], e, '.');
    LastPieceLower(name);
  }

  /** `name.substring(0, name.lastIndexOf('.')) || name`: the name without its
      last extension, or the whole name when that prefix is empty. */
  function DownloadBase(name: string): (base: string)
    ensures LastIndexOf(name, '.') > 0 ==> base + "." + LastPiece(name) == name && base != ""
    ensures LastIndexOf(name, '.') <= 0 ==> base == name
  {
    var i := LastIndexOf(name, '.');
    LastPieceAfterLastDot(name);
    if i > 0 then
      assert name == name[..i] + "." + name[i + 1..];
      name[..i]
    else name
  }

  /** The downloaded file's name. */
  function DownloadName(name: string, extension: string): (fileName: string)
    ensures EndsWith(fileName, "_fenix." + extension)
  {
    var r := DownloadBase(name) + "_fenix." + extension;
    assert r[|r| - |"_fenix." + extension|..] == "_fenix." + extension;
    r
  }

  /** `DownloadName` split at its last dot, a step of `DownloadNameExtension`'s proof. */
  lemma DownloadNameDotted(name: string, extension: string)
    ensures DownloadName(name, extension) == DownloadBase(name) + "_fenix" + "." + extension
  {
  }

  /** The download name's own extension, read as an accepted file's would be, is
      the format's extension. */
  lemma DownloadNameExtension(name: string, extension: string)
    requires '.' !in extension
    ensures LastPiece(DownloadName(name, extension)) == extension
    ensures OriginalExtension(DownloadName(name, extension)) == ToLower(extension)
  {
    var stem := DownloadBase(name) + "_fenix";
    DownloadNameDotted(name, extension);
    SplitAfterSep(stem, extension, '.');
  }

  /** The three conversion paths. */
  datatype Route = ImagePath | TextPath(target: TextTarget) | RelabelPath

  function TargetValue(t: TextTarget): string {
    match t
    case Json => "json"
    case Csv => "csv"
    case Txt => "txt"
  }

  /** Images go through the canvas; documents targeting json, csv or txt through
      the text converter; everything else is relabelled. */
  function RouteOf(fileType: FileType, value: string): (r: Route)
    ensures r.ImagePath? <==> fileType == IMAGE
    ensures r.TextPath? <==> fileType == DOCUMENT && (value == "json" || value == "csv" || value == "txt")
    ensures r.TextPath? ==> TargetValue(r.target) == value
  {
    if fileType == IMAGE then ImagePath
    else if fileType == DOCUMENT && value == "json" then TextPath(Json)
    else if fileType == DOCUMENT && value == "csv" then TextPath(Csv)
    else if fileType == DOCUMENT && value == "txt" then TextPath(Txt)
    else RelabelPath
  }

  /** What `startConversion` captures when it passes its guard. */
  datatype Request = Request(fileData: FileData, target: ConversionFormat)

  /** The settled promise of a conversion. */
  datatype Outcome = Converted(blob: Blob) | Failed

  /** The conversion of a request. `imageResult` is the canvas encoder's outcome
      and `text`, `parse` the file read as text and `JSON.parse` of it. */
  function Convert(req: Request, imageResult: Option<Blob>, text: string, parse: ParseOutcome): (o: Outcome)
    ensures o.Failed? <==> req.fileData.fileType == IMAGE && imageResult.None?
  {
    match RouteOf(req.fileData.fileType, req.target.value)
    case ImagePath => if imageResult.Some? then Converted(imageResult.value) else Failed
    case TextPath(t) => Converted(ConvertedText(text, t, parse))
    case RelabelPath => Converted(SimulateConversion(req.fileData.file, req.target.mimeType))
  }

  /** Every video target and the pdf and docx document targets hand back the
      file's own bytes under the target MIME type. */
  lemma RelabelKeepsBytes(req: Request, imageResult: Option<Blob>, text: string, parse: ParseOutcome)
    requires req.fileData.fileType == VIDEO
      || (req.fileData.fileType == DOCUMENT && (req.target.value == "pdf" || req.target.value == "docx"))
    ensures Convert(req, imageResult, text, parse) == Converted(Blob(Bytes(req.fileData.file.bytes), req.target.mimeType))
  {
  }

  /** The text path is the text converter applied to the file's text. */
  lemma TextPathConverts(req: Request, imageResult: Option<Blob>, text: string, parse: ParseOutcome, t: TextTarget)
    requires req.fileData.fileType == DOCUMENT && req.target.value == TargetValue(t)
    ensures Convert(req, imageResult, text, parse) == Converted(ConvertedText(text, t, parse))
  {
  }

  /** The six `useState` fields, plus the object URLs released so far (oldest
      first) and the number of progress intervals still running. */
  datatype PanelState = PanelState(status: ConversionStatus, fileData: Option<FileData>,
                                   targetFormat: Option<ConversionFormat>, progress: real,
                                   convertedUrl: Option<Handle>, errorMsg: Option<string>,
                                   released: seq<Handle>, timers: nat)

  const Initial: PanelState := PanelState(IDLE, None, None, 0.0, None, None, [], 0)

  /** The record `handleFileAccepted` keeps about a file of a known category. */
  predicate Describes(fd: FileData, file: SourceFile) {
    fd.file == file
    && fd.fileType == DetermineFileType(file.mimeType, file.name) && fd.fileType != UNKNOWN
    && fd.originalExtension == OriginalExtension(file.name)
    && fd.size == |file.bytes|
    && (fd.previewUrl.Some? <==> fd.fileType == IMAGE)
  }

  /** What holds in every state the handlers can reach from the initial one. */
  predicate Inv(s: PanelState) {
    s.status != UPLOADING
    && (s.fileData.Some? ==> Describes(s.fileData.value, s.fileData.value.file))
    && (s.targetFormat.Some? ==> s.targetFormat.value in AvailableFormats(s.fileData))
    && (s.status == IDLE ==> s.fileData.None?)
    && (s.status == SELECTED || s.status == CONVERTING ==> s.fileData.Some?)
    && 0.0 <= s.progress < 105.0
    && (s.status == COMPLETED ==> s.progress == 100.0 && s.convertedUrl.Some?)
  }

  lemma InitialInv()
    ensures Inv(Initial)
  {
  }

  /** `handleFileAccepted(file)`; `preview` is the object URL made for an image. */
  function Accept(s: PanelState, file: SourceFile, preview: Handle): (t: PanelState)
    ensures Inv(s) ==> Inv(t)
    ensures DetermineFileType(file.mimeType, file.name) == UNKNOWN ==> t == s.(errorMsg := Some(UnsupportedMessage))
    ensures DetermineFileType(file.mimeType, file.name) != UNKNOWN ==>
      && t.fileData.Some? && Describes(t.fileData.value, file)
      && (t.fileData.value.previewUrl.Some? ==> t.fileData.value.previewUrl.value == preview)
      && t.status == SELECTED && t.targetFormat.None? && t.errorMsg.None? && t.progress == 0.0
      && t.convertedUrl == s.convertedUrl && t.released == s.released && t.timers == s.timers
  {
    var fileType := DetermineFileType(file.mimeType, file.name);
    if fileType == UNKNOWN then s.(errorMsg := Some(UnsupportedMessage))
    else
      var fd := FileData(file, if fileType == IMAGE then Some(preview) else None, fileType,
                         OriginalExtension(file.name), |file.bytes|);
      s.(fileData := Some(fd), status := SELECTED, errorMsg := None, progress := 0.0, targetFormat := None)
  }

  /** The target `onChange`: the available entry with that value, or none. */
  function Choose(s: PanelState, value: string): (t: PanelState)
    ensures Inv(s) ==> Inv(t)
    ensures t.targetFormat.None? <==> value !in Values(AvailableFormats(s.fileData))
    ensures t.targetFormat.Some? ==>
      t.targetFormat.value in AvailableFormats(s.fileData) && t.targetFormat.value.value == value
    ensures t.(targetFormat := s.targetFormat) == s
  {
    s.(targetFormat := FindFormat(AvailableFormats(s.fileData), value))
  }

  /** The request `startConversion` captures, when its guard lets it through. */
  function RequestOf(s: PanelState): (req: Option<Request>)
    ensures req.Some? <==> s.fileData.Some? && s.targetFormat.Some?
    ensures req.Some? ==> Some(req.value.fileData) == s.fileData && Some(req.value.target) == s.targetFormat
  {
    if s.fileData.Some? && s.targetFormat.Some? then Some(Request(s.fileData.value, s.targetFormat.value))
    else None
  }

  /** `startConversion` up to its first `await`: the guard, the CONVERTING status,
      progress 0 and a newly started interval. */
  function Start(s: PanelState): (t: PanelState)
    ensures Inv(s) ==> Inv(t)
    ensures RequestOf(s).None? ==> t == s
    ensures RequestOf(s).Some? ==> t == s.(status := CONVERTING, progress := 0.0, timers := s.timers + 1)
  {
    if RequestOf(s).None? then s else s.(status := CONVERTING, progress := 0.0, timers := s.timers + 1)
  }

  /** The interval's update; `inc` stands for `Math.random() * 10`. */
  function TickProgress(p: real, inc: real): (r: real)
    requires 0.0 <= inc < 10.0
    ensures p <= r
    ensures p >= 95.0 ==> r == p
    ensures p < 95.0 ==> r < p + 10.0 && r < 105.0
  {
    if p >= 95.0 then p else p + inc
  }

  function Tick(s: PanelState, inc: real): (t: PanelState)
    requires s.timers > 0 && 0.0 <= inc < 10.0
    ensures Inv(s) ==> Inv(t)
    ensures s.progress <= t.progress
    ensures t.(progress := s.progress) == s
  {
    s.(progress := TickProgress(s.progress, inc))
  }

  /** A run of interval updates. */
  function Ticks(p: real, incs: seq<real>): real
    requires forall i :: 0 <= i < |incs| ==> 0.0 <= incs[i] < 10.0
    decreases incs
  {
    if incs == [] then p else Ticks(TickProgress(p, incs[0]), incs[1..])
  }

  /** While a conversion runs, progress never decreases, stays below 105 and
      freezes once it has reached 95. */
  lemma {:induction false} TicksBounded(p: real, incs: seq<real>)
    requires forall i :: 0 <= i < |incs| ==> 0.0 <= incs[i] < 10.0
    requires p < 105.0
    ensures p <= Ticks(p, incs) < 105.0
    ensures p >= 95.0 ==> Ticks(p, incs) == p
    decreases incs
  {
    if incs != [] {
      TicksBounded(TickProgress(p, incs[0]), incs[1..]);
    }
  }

  /** The bar can pass 100 before the conversion settles; success then lowers it to 100. */
  lemma TickCanPassHundred()
    ensures TickProgress(94.5, 9.9) > 100.0
  {
  }

  /** `startConversion` after its `await`: the interval is cleared, then success
      stores the result's URL `url` and completes, failure reports the error. */
  function Finish(s: PanelState, outcome: Outcome, url: Handle): (t: PanelState)
    requires s.timers > 0
    ensures Inv(s) ==> Inv(t)
    ensures t.timers == s.timers - 1
    ensures outcome.Converted? ==> t == s.(timers := t.timers, progress := 100.0, convertedUrl := Some(url), status := COMPLETED)
    ensures outcome.Failed? ==> t == s.(timers := t.timers, status := ERROR, errorMsg := Some(ConversionErrorMessage))
  {
    match outcome
    case Converted(_) => s.(timers := s.timers - 1, progress := 100.0, convertedUrl := Some(url), status := COMPLETED)
    case Failed => s.(timers := s.timers - 1, status := ERROR, errorMsg := Some(ConversionErrorMessage))
  }

  /** The object URLs the state holds: the preview, then the result. */
  function Held(s: PanelState): seq<Handle> {
    (if s.fileData.Some? && s.fileData.value.previewUrl.Some? then [s.fileData.value.previewUrl.value] else [])
    + (if s.convertedUrl.Some? then [s.convertedUrl.value] else [])
  }

  /** `handleReset`: both held URLs are released and every field is back to its
      initial value; running intervals are not cleared. */
  function Reset(s: PanelState): (t: PanelState)
    ensures Inv(t)
    ensures t.released == s.released + Held(s) && Held(t) == []
    ensures t == Initial.(released := t.released, timers := s.timers)
  {
    Initial.(released := s.released + Held(s), timers := s.timers)
  }

  datatype DownloadLink = DownloadLink(href: Handle, fileName: string)

  /** `downloadFile`: the anchor it clicks, when its guard lets it through. */
  function Download(s: PanelState): (d: Option<DownloadLink>)
    ensures d.Some? <==> s.convertedUrl.Some? && s.targetFormat.Some? && s.fileData.Some?
    ensures d.Some? ==>
      d.value.href == s.convertedUrl.value && EndsWith(d.value.fileName, "_fenix." + s.targetFormat.value.extension)
  {
    if s.convertedUrl.None? || s.targetFormat.None? || s.fileData.None? then None
    else Some(DownloadLink(s.convertedUrl.value, DownloadName(s.fileData.value.file.name, s.targetFormat.value.extension)))
  }

  /** A conversion that succeeds undisturbed offers the result under the file's
      stem followed by `_fenix.` and the target's extension. */
  lemma DownloadAfterSuccess(s: PanelState, blob: Blob, url: Handle)
    requires Inv(s) && s.timers > 0 && RequestOf(s).Some?
    ensures var t := Finish(s, Converted(blob), url);
      t.status == COMPLETED
      && Download(t) == Some(DownloadLink(url, DownloadName(s.fileData.value.file.name, s.targetFormat.value.extension)))
  {
  }

  /** The controls the panel renders in a state. */
  datatype Control = DropZone | FormatSelect | ConvertButton | DownloadButton | ResetButton

  function Controls(s: PanelState): set<Control> {
    if s.status == IDLE then {DropZone}
    else if s.fileData.None? then {}
    else
      var selection := if s.status == SELECTED then {FormatSelect} + (if s.targetFormat.Some? then {ConvertButton} else {}) else {};
      {ResetButton} + selection + (if s.status == COMPLETED then {DownloadButton} else {})
  }

  /** Outside IDLE the reset control is offered exactly when a file is held. */
  lemma ResetOffered(s: PanelState)
    requires s.status != IDLE
    ensures ResetButton in Controls(s) <==> s.fileData.Some?
    ensures Controls(s) == {} <==> s.fileData.None?
  {
  }

  /** Resetting while a conversion runs does not cancel it: when it settles the
      panel leaves IDLE with no file, renders no control at all, and the result
      cannot be downloaded. */
  lemma ResetDuringConversionStrands(s: PanelState, outcome: Outcome, url: Handle)
    requires Inv(s) && s.status == CONVERTING && s.timers > 0
    ensures var t := Finish(Reset(s), outcome, url);
      Inv(t) && t.status != IDLE && t.fileData.None? && Controls(t) == {} && Download(t).None?
  {
    ResetOffered(Finish(Reset(s), outcome, url));
  }

  /** A file dropped after the reset, with no target chosen: a successful
      settlement marks that file COMPLETED, and its download does nothing. */
  lemma ResetThenDropCompletes(s: PanelState, file: SourceFile, preview: Handle, blob: Blob, url: Handle)
    requires Inv(s) && s.status == CONVERTING && s.timers > 0
    requires DetermineFileType(file.mimeType, file.name) != UNKNOWN
    ensures var t := Finish(Accept(Reset(s), file, preview), Converted(blob), url);
      Inv(t) && t.status == COMPLETED && t.fileData.Some? && t.fileData.value.file == file
      && t.targetFormat.None? && t.convertedUrl == Some(url) && Download(t).None?
  {
  }

  /** A file dropped and a target chosen after the reset: a successful settlement
      offers the earlier conversion's result under the new file's name and the
      new target's extension, and releases no URL. */
  lemma ResetThenDropChooseCompletes(s: PanelState, file: SourceFile, preview: Handle, value: string,
                                     blob: Blob, url: Handle)
    requires Inv(s) && s.status == CONVERTING && s.timers > 0
    requires DetermineFileType(file.mimeType, file.name) != UNKNOWN
    requires value in Values(AvailableFormats(Accept(Reset(s), file, preview).fileData))
    ensures var t := Finish(Choose(Accept(Reset(s), file, preview), value), Converted(blob), url);
      Inv(t) && t.status == COMPLETED && t.targetFormat.Some? && t.targetFormat.value.value == value
      && Download(t) == Some(DownloadLink(url, DownloadName(file.name, t.targetFormat.value.extension)))
      && t.released == Reset(s).released
  {
  }

  /** A file dropped after the reset: a failed settlement reports the error and
      leaves nothing to download. */
  lemma ResetThenDropFails(s: PanelState, file: SourceFile, preview: Handle, url: Handle)
    requires Inv(s) && s.status == CONVERTING && s.timers > 0
    requires DetermineFileType(file.mimeType, file.name) != UNKNOWN
    ensures var t := Finish(Accept(Reset(s), file, preview), Failed, url);
      Inv(t) && t.status == ERROR && t.errorMsg == Some(ConversionErrorMessage)
      && t.fileData.Some? && t.fileData.value.file == file && Download(t).None?
  {
  }

  /** The panel component: its state fields and its handlers. */
  class Panel {
    var status: ConversionStatus
    var fileData: Option<FileData>
    var targetFormat: Option<ConversionFormat>
    var progress: real
    var convertedUrl: Option<Handle>
    var errorMsg: Option<string>
    /** Object URLs passed to `URL.revokeObjectURL`, oldest first. */
    var released: seq<Handle>
    /** Progress intervals started and not yet cleared. */
    var timers: nat

    function State(): PanelState
      reads this
    {
      PanelState(status, fileData, targetFormat, progress, convertedUrl, errorMsg, released, timers)
    }

    predicate Valid()
      reads this
    {
      Inv(State())
    }

    constructor ()
      ensures Valid() && State() == Initial
    {
      status, fileData, targetFormat, progress := IDLE, None, None, 0.0;
      convertedUrl, errorMsg, released, timers := None, None, [], 0;
    }

    method HandleFileAccepted(file: SourceFile, preview: Handle)
      requires Valid()
      modifies this
      ensures Valid() && State() == Accept(old(State()), file, preview)
    {
      ghost var before := State();
      var fileType := DetermineFileType(file.mimeType, file.name);
      if fileType == UNKNOWN {
        errorMsg := Some(UnsupportedMessage);
        assert State() == Accept(before, file, preview);
        return;
      }
      var previewUrl := if fileType == IMAGE then Some(preview) else None;
      fileData := Some(FileData(file, previewUrl, fileType, OriginalExtension(file.name), |file.bytes|));
      status := SELECTED;
      errorMsg := None;
      progress := 0.0;
      targetFormat := None;
      assert State() == Accept(before, file, preview);
    }

    method SelectTarget(value: string)
      requires Valid()
      modifies this
      ensures Valid() && State() == Choose(old(State()), value)
    {
      targetFormat := FindFormat(AvailableFormats(fileData), value);
    }

    method StartConversion() returns (req: Option<Request>)
      requires Valid()
      modifies this
      ensures req == RequestOf(old(State()))
      ensures Valid() && State() == Start(old(State()))
    {
      if fileData.None? || targetFormat.None? {
        return None;
      }
      req := Some(Request(fileData.value, targetFormat.value));
      status := CONVERTING;
      progress := 0.0;
      timers := timers + 1;
    }

    method ProgressTick(inc: real)
      requires Valid() && timers > 0 && 0.0 <= inc < 10.0
      modifies this
      ensures Valid() && State() == Tick(old(State()), inc)
    {
      if progress < 95.0 {
        progress := progress + inc;
      }
    }

    method FinishConversion(req: Request, imageResult: Option<Blob>, text: string, parse: ParseOutcome, url: Handle)
      returns (outcome: Outcome)
      requires Valid() && timers > 0
      modifies this
      ensures outcome == Convert(req, imageResult, text, parse)
      ensures Valid() && State() == Finish(old(State()), outcome, url)
    {
      ghost var before := State();
      var fd, target := req.fileData, req.target;
      if fd.fileType == IMAGE {
        outcome := if imageResult.Some? then Converted(imageResult.value) else Failed;
      } else if fd.fileType == DOCUMENT && (target.value == "json" || target.value == "csv" || target.value == "txt") {
        var t := if target.value == "json" then Json else if target.value == "csv" then Csv else Txt;
        var blob := ConvertTextData(text, t, parse);
        outcome := Converted(blob);
      } else {
        outcome := Converted(SimulateConversion(fd.file, target.mimeType));
      }
      timers := timers - 1;
      if outcome.Converted? {
        progress := 100.0;
        convertedUrl := Some(url);
        status := COMPLETED;
      } else {
        status := ERROR;
        errorMsg := Some(ConversionErrorMessage);
      }
      assert State() == Finish(before, outcome, url);
    }

    method HandleReset()
      requires Valid()
      modifies this
      ensures Valid() && State() == Reset(old(State()))
    {
      ghost var before := State();
      if fileData.Some? && fileData.value.previewUrl.Some? {
        released := released + [fileData.value.previewUrl.value];
      }
      if convertedUrl.Some? {
        released := released + [convertedUrl.value];
      }
      fileData := None;
      status := IDLE;
      convertedUrl := None;
      errorMsg := None;
      targetFormat := None;
      progress := 0.0;
      assert State() == Reset(before);
    }

    method DownloadFile() returns (link: Option<DownloadLink>)
      ensures link == Download(State())
    {
      if convertedUrl.None? || targetFormat.None? || fileData.None? {
        return None;
      }
      var fileName := DownloadName(fileData.value.file.name, targetFormat.value.extension);
      link := Some(DownloadLink(convertedUrl.value, fileName));
    }
  }
}
