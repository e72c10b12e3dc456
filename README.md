# Fenix Converter — a Dafny model of its conversion core

Fenix Converter is a browser tool. A user drops a file on it. The tool classifies the file as an image, a video
or a document, offers the target formats of that category, converts the file and offers the result
for download. This project models the logic behind that flow and proves properties of it:

- **the file classifier** (`FileClassifier`): MIME allow-lists first, then the lower-cased file-name
  extension. It also holds the byte-preserving "relabel" conversion that video and pdf/docx targets use;
- **the static tables** (`Constants`): the three target-format catalogs and the three MIME allow-lists,
  with their cross-table consistency facts in `CatalogFacts`;
- **the text pipeline** (`CsvLine`, `TextConversion`, `TextFacts`): the quote-toggling CSV line
  scanner, CSV→JSON object building, JSON→CSV writing with quote doubling, the `{`/`[` sniff
  and the fail-soft fallback to the original text. It includes the JSON→CSV→JSON round trip
  and the ways quotes are lost;
- **the conversion panel** (`ConverterPanel`): the six state fields of the React component as a
  class `Panel`, whose handler methods are each proved equal to a pure transition on a
  `PanelState` value. The transitions preserve an invariant `Inv` (no UPLOADING, a held file
  is described correctly, the target belongs to the file's catalog, progress below 105, ...). The module also holds the
  available-formats selector, the choose-by-value lookup, the three-way dispatch, the
  progress interval and the download-name builder.

`Types` holds the records and enumerations of the application's type declarations. `Strings` holds the
JavaScript string built-ins the code relies on: ASCII `toLowerCase`, `trim` with the ECMAScript
whitespace set, one-character `split`/`join`, `lastIndexOf`, and the global `"` → `""` replace.

Inputs from outside the program are parameters:

- the file's bytes, name and declared MIME type;
- the file read as text;
- the outcome of `JSON.parse` (`Malformed`, or parsed records);
- the outcome of the canvas image encoder;
- each `Math.random() * 10` increment;
- each object URL handed out by `URL.createObjectURL`.

Where the intended CSV escaping, round trip and progress rules and the code disagree, the model follows the code:

- `parseCSVLine` does not read `""` as an escaped quote: every `"` only toggles the quote flag and is
  dropped (`TextFacts.QuoteInValueIsLost`, `TextFacts.QuotedFieldReadsBack`).
- The JSON→CSV→JSON round trip (`TextFacts.JsonCsvJsonRoundTrip`) needs more than values without `"`.
  The CSV reader also loses these cases:
  - It trims every field (utils/fileHelpers.ts:37), so whitespace at the edges of a value or a key is lost.
  - It stores an empty cell as `null` (`currentline[j] || null`, line 104), so an empty string value comes back as `null`.
  - It skips an empty header (`if (headers[j])`, line 103), so an empty key is dropped.
  - It splits the text at every line feed (line 94), so a value or key holding `\n` is broken across lines.
  - It splits fields at `,` on the header line, which the writer leaves unquoted, so a key holding `,` is
    broken into several headers.
  - A first key starting with `{` or `[` makes the written CSV look like JSON again, so it is not re-read as CSV.
- Progress can pass 100 while a conversion runs. It stays below 105, and success then sets it to exactly
  100 (`ConverterPanel.TickCanPassHundred`, `ConverterPanel.TicksBounded`).
- `handleReset` does not cancel a running conversion, because it brings the drop zone back while the
  earlier `startConversion` is still awaiting its result. What happens when that conversion settles depends
  on what was done in between:
  - Nothing: the panel leaves IDLE with no file and renders no control
    (`ConverterPanel.ResetDuringConversionStrands`).
  - A file was dropped but no target chosen: a success marks that file COMPLETED, and its download does
    nothing (`ConverterPanel.ResetThenDropCompletes`).
  - A file was dropped and a target chosen: a success offers the EARLIER file's result named after the new
    file and the new target's extension (`ConverterPanel.ResetThenDropChooseCompletes`).
  - A file was dropped and the conversion failed: the panel shows ERROR (`ConverterPanel.ResetThenDropFails`).

  `Finish` releases nothing. So when the new file's own conversion also settles, its URL overwrites
  `convertedUrl` and the earlier URL is never revoked.

## Model

| member | source | states |
|---|---|---|
| FileClassifier.DetermineFileType | utils/fileHelpers.ts:4-16 | No contract of its own. Its meaning is stated by MimeWins, ExtensionFallback, UnknownIff and ClassifyDotted. |
| FileClassifier.MimeWins | utils/fileHelpers.ts:5-7 | A MIME type on a category's allow-list gives that category, whatever the name. |
| FileClassifier.AllowListsDisjoint | constants.ts:25-34 | No MIME type is on two allow-lists, so the order of the MIME checks never matters. |
| FileClassifier.ExtensionFallback | utils/fileHelpers.ts:4-16 | With a MIME type on no list, the result depends only on the lower-cased name. It is not UNKNOWN exactly when the name ends in `.` plus one of the listed extensions. |
| FileClassifier.UnknownIff | utils/fileHelpers.ts:4-16 | UNKNOWN exactly when no allow-list holds the MIME type and none of the three extension rules matches the lower-cased name. The function is total. |
| FileClassifier.ExtensionsUnion | utils/fileHelpers.ts:11-13 | Matching the union of the three extension lists is matching one of the three rules. |
| FileClassifier.MatchesDotted | utils/fileHelpers.ts:11-13 | For dot-free extensions, a name `x.e` matches a rule exactly when `e` is on the rule's list. The suffix must be preceded by `.`. |
| FileClassifier.DottedSuffixUnique | utils/fileHelpers.ts:11-13 | A name ending `.a` ends with `.b` for dot-free `a`, `b` only when `a == b`. |
| FileClassifier.LowerDotted | utils/fileHelpers.ts:10 | Lower-casing `stem.ext` lower-cases both sides of the dot and introduces no dot. |
| FileClassifier.ClassifyDotted | utils/fileHelpers.ts:10-15 | With no listed MIME type, `stem.ext` is classified by the first extension list (image, video, document) holding the lower-cased `ext`. |
| FileClassifier.PngNameIsImage | utils/fileHelpers.ts:10-11 | An empty MIME type with a name ending `.PNG` or `.png` classifies as IMAGE. |
| FileClassifier.ExtensionListsDotFree | utils/fileHelpers.ts:11-13 | No extension in the three regular expressions contains a dot. |
| FileClassifier.EmptyMimeUnlisted | constants.ts:25-34 | The empty MIME type is on no allow-list, so a file without a type is classified by name. |
| FileClassifier.SimulateConversion | utils/fileHelpers.ts:146-157 | The result holds exactly the source bytes (slice 0..size), under the target MIME type. |
| Constants.FormatsFor | components/ConverterPanel.tsx:21-26 | The catalog of a category is empty exactly for UNKNOWN. |
| CatalogFacts.ImageValues | constants.ts:3-8 | The image catalog's codes are jpeg, png, webp, bmp in that order. |
| CatalogFacts.VideoValues | constants.ts:10-15 | The video catalog's codes are mp4, webm, avi, mov in that order. |
| CatalogFacts.DocValues | constants.ts:17-23 | The document catalog's codes are pdf, docx, txt, json, csv in that order. |
| CatalogFacts.CatalogValuesDistinct | constants.ts:3-23 | Within each catalog the codes are pairwise distinct. |
| CatalogFacts.CatalogLookup | components/ConverterPanel.tsx:206-209 | Choosing any catalog entry's code selects that very entry. |
| CatalogFacts.CatalogMimeClassifies | constants.ts:4-34 | Every catalog MIME type is on its own category's allow-list, so a blob carrying it classifies into that category. |
| CatalogFacts.ExtensionIsLowerCase | constants.ts:4-22 | Every catalog extension is lower-case and dot-free. |
| CatalogFacts.CatalogExtensionCategory | constants.ts:4-22 | Every catalog extension is on its own category's extension list and on no list checked before it. |
| CatalogFacts.CatalogExtensionClassifies | utils/fileHelpers.ts:10-13 | A name ending `.` plus a catalog extension, with no listed MIME type, classifies into the entry's category. |
| CatalogFacts.TextTargetsMatchCatalog | constants.ts:20-22 | The txt, json and csv entries carry exactly the MIME types the text converter emits. |
| CatalogFacts.RequestInCatalog | components/ConverterPanel.tsx:64 | A request the panel can make is for an entry of the file's catalog, about a correctly described file. |
| CatalogFacts.ConvertedReclassifies | components/ConverterPanel.tsx:80-90 | Outside the image path a conversion never fails. Its result carries the chosen MIME type and classifies back into the file's category. |
| CatalogFacts.DownloadNameClassifies | components/ConverterPanel.tsx:117-118 | The download name's extension is the format's extension. With no MIME type, the name classifies into the file's category. |
| CsvLine.ParseCsvLine | utils/fileHelpers.ts:27-45 | The loop returns the fields of the quote-toggle scan, each trimmed and edge-quote-stripped (`CsvFields`). |
| CsvLine.RawFields | utils/fileHelpers.ts:43 | The scan always yields at least one field, the last one pushed after the loop. |
| CsvLine.ScanCounts | utils/fileHelpers.ts:32-42 | After a text, the quote flag is the parity of its `"`. The finished fields number its commas read outside quotes. |
| CsvLine.FieldCount | utils/fileHelpers.ts:32-44 | Exactly one more field than commas outside quotes. |
| CsvLine.RawFieldsQuoteFree | utils/fileHelpers.ts:34-35 | No raw field contains `"`. |
| CsvLine.JoinRawFields | utils/fileHelpers.ts:32-42 | Re-joining the raw fields with commas gives the line with every `"` removed. Quoted commas stay in their field and nothing else is lost. |
| CsvLine.EdgeQuoteStripIsNoOp | utils/fileHelpers.ts:37 | The edge-quote replace never changes a quote-free field. |
| CsvLine.FieldShape | utils/fileHelpers.ts:37-43 | Each field is its raw field trimmed. It contains no `"` and has no whitespace at either end. |
| CsvLine.QuoteAll | utils/fileHelpers.ts:122-126 | One writer-quoted field per value, in order. |
| CsvLine.StepResume | utils/fileHelpers.ts:33-41 | One scanner step commutes with prefixing already-finished fields. |
| CsvLine.ScanAfterComma | utils/fileHelpers.ts:36-38 | After a comma outside quotes, the rest of the line is scanned as a fresh line. |
| CsvLine.RawFieldsAfterComma | utils/fileHelpers.ts:36-38 | Raw fields split at a comma outside quotes are the raw fields of both sides. |
| CsvLine.OpenQuotedField | utils/fileHelpers.ts:34-41 | `"` followed by doubled-quote text leaves the scanner in quotes, reading the text without quotes. |
| CsvLine.QuotedFieldScan | utils/fileHelpers.ts:34-41 | A writer-quoted field scans back to the value without quotes, outside quotes. |
| CsvLine.QuotedLineRaw | utils/fileHelpers.ts:32-43 | A line of writer-quoted fields scans back to one raw field per value, the value without `"`. |
| CsvLine.PlainFieldScan | utils/fileHelpers.ts:39-41 | A field without `"` or `,` scans back unchanged. |
| CsvLine.PlainLineRaw | utils/fileHelpers.ts:32-43 | Comma-joined plain names scan back to the names, outside quotes. |
| TextConversion.CsvOf | utils/fileHelpers.ts:117-130 | No contract of its own. Its meaning is stated by WriteCsv, WriterThrows, WrittenLayout and the two JSON-to-CSV-to-JSON round trips. |
| TextConversion.RowObject | utils/fileHelpers.ts:100-106 | No contract of its own. Its meaning is stated by RowObjectKeys, RowObjectLastWins, RowObjectPlain and BuildObject. |
| TextConversion.NonBlankLines | utils/fileHelpers.ts:94 | No contract of its own. Its meaning is stated by NonBlankMembers, NonBlankKeepsAll and LinesReadBack. |
| TextConversion.LooksLikeJson | utils/fileHelpers.ts:93 | No contract of its own (the sniff `text.trim()` starting with `{` or `[`, also at line 115). Its meaning is stated by SniffFirstVisible and ConvertedText. |
| TextConversion.LookupMissing | utils/fileHelpers.ts:123 | A property lookup is undefined exactly when the key is absent. |
| TextConversion.LookupAt | utils/fileHelpers.ts:123 | A lookup by the key at position j finds the value at j. |
| TextConversion.Assign | utils/fileHelpers.ts:104 | `obj[k] = v` keeps the keys when `k` is present and appends `k` otherwise. |
| TextConversion.AssignLookup | utils/fileHelpers.ts:104 | After `obj[k] = v`, `k` holds `v` and every other key keeps its value. |
| TextConversion.AssignNew | utils/fileHelpers.ts:104 | Assigning a new key appends it at the end (insertion order). |
| TextConversion.RowObjectKeys | utils/fileHelpers.ts:102-106 | A data line's object has exactly the non-empty headers as keys. Empty header names are skipped. |
| TextConversion.RowObjectLastWins | utils/fileHelpers.ts:102-106 | A repeated header takes the cell of its last occurrence. A missing or empty cell is null. |
| TextConversion.RowObjectPlain | utils/fileHelpers.ts:102-106 | With distinct non-empty headers, the object pairs the j-th header with the j-th cell (or null). |
| TextConversion.BuildObject | utils/fileHelpers.ts:100-106 | The inner loop builds exactly the row object. |
| TextConversion.BuildRecords | utils/fileHelpers.ts:96-108 | The outer loop builds exactly those objects, keyed by the header line's fields. |
| TextConversion.NonBlankMembers | utils/fileHelpers.ts:94 | The kept lines are exactly the lines whose trim is non-empty. |
| TextConversion.RenderAll | utils/fileHelpers.ts:122-124 | One rendered value per header, in header order. A missing key renders as empty. |
| TextConversion.ObjectLineIsJoin | utils/fileHelpers.ts:122-127 | An element's line is its header-ordered values, each quoted with inner `"` doubled, joined by commas. |
| TextConversion.AllObjectsIff | utils/fileHelpers.ts:121-123 | The array holds no null element exactly when every element is an object. |
| TextConversion.AllObjectsPrefix | utils/fileHelpers.ts:121-128 | A prefix of an array of objects is an array of objects. |
| TextConversion.WriteCsv | utils/fileHelpers.ts:117-130 | The writing loop gives exactly `CsvOf`: unchanged for an empty array, `TypeError` on a null element that is read, otherwise the header line and one line per element. |
| TextConversion.ConvertedText | utils/fileHelpers.ts:86-138 | Gives the MIME type of the target. Records are produced exactly for json targets with non-JSON-looking text and a non-blank line, and they are then the objects of the non-blank lines under the first one's headers. The text is returned unchanged for txt, for json on JSON-looking or all-blank text, for csv on non-JSON-looking text, on a parse failure, on an empty array and on a thrown error. |
| TextConversion.ConvertTextData | utils/fileHelpers.ts:81-142 | The conversion resolves with exactly `ConvertedText`; every error is caught. |
| TextFacts.NonBlankKeepsAll | utils/fileHelpers.ts:94 | Lines that are all non-blank are all kept. |
| TextFacts.SniffFirstVisible | utils/fileHelpers.ts:93-115 | The JSON sniff is decided by the first non-whitespace character. |
| TextFacts.LinesReadBack | utils/fileHelpers.ts:93-94 | Lines starting visibly without line feeds, joined by `\n`, come back all and in order. The sniff sees the first line's first character. |
| TextFacts.JsonOfLines | utils/fileHelpers.ts:93-109 | Such lines, when the first does not start with `{` or `[`, convert to the records of those lines. |
| TextFacts.PlainLineFields | utils/fileHelpers.ts:27-45 | Plain cells joined by commas parse back to themselves. |
| TextFacts.WrittenRowFields | utils/fileHelpers.ts:122-127 | Each written element line parses back to one field per header: the value with every `"` dropped, trimmed. |
| TextFacts.RowLinesAt | utils/fileHelpers.ts:121-128 | One written line per element, in order. |
| TextFacts.WriterThrows | utils/fileHelpers.ts:119-123 | The writer throws exactly when the first element is null, or when some element is null and the first object has a key. |
| TextFacts.WrittenLayout | utils/fileHelpers.ts:117-129 | Written CSV is the first object's keys, comma-joined and unquoted, then `\n` and the element lines. |
| TextFacts.TabularIsKeyed | utils/fileHelpers.ts:119-122 | Objects listing the header keys in header order also have those keys as a set. |
| TextFacts.RenderPlain | utils/fileHelpers.ts:123-124 | For an object with plain string values, what is written for a header is the value the header looks up. |
| TextFacts.QuotedValues | utils/fileHelpers.ts:122-126 | Quoted plain values hold no line feed. |
| TextFacts.WrittenLineShape | utils/fileHelpers.ts:125-127 | A plain object's line starts with `"` and holds no line feed. |
| TextFacts.ReadBackCells | utils/fileHelpers.ts:99-127 | The cells read back from a plain object's written line are its values in header order. |
| TextFacts.LookupAgrees | utils/fileHelpers.ts:104-123 | Objects with the same keys that agree on each key agree on every lookup. |
| TextFacts.RowObjectOfCells | utils/fileHelpers.ts:102-106 | Cells carrying an object's values in header order rebuild it key by key, with the keys in header order. |
| TextFacts.RowObjectOfCellsExact | utils/fileHelpers.ts:102-106 | For an object whose keys are the headers in order, those cells rebuild it exactly. |
| TextFacts.ObjectReadBackLookup | utils/fileHelpers.ts:96-127 | Reading back the written line of an object whose keys are the headers in any order gives each key's value, keys in header order. |
| TextFacts.ObjectReadBack | utils/fileHelpers.ts:96-127 | Reading back a plain object's written line under its keys, in order, rebuilds the object. |
| TextFacts.WrittenTable | utils/fileHelpers.ts:117-129 | The writer on an array of objects writes exactly those lines. |
| TextFacts.HeaderLineShape | utils/fileHelpers.ts:120 | A plain header line starts with the first key's first character and holds no line feed. |
| TextFacts.TableLinesAt | utils/fileHelpers.ts:120-129 | The written lines are the header line, then one line per object in order. |
| TextFacts.TableLineShape | utils/fileHelpers.ts:94-127 | Each written line of a table is visible at its start and free of line feeds. |
| TextFacts.TableLinesShape | utils/fileHelpers.ts:94-127 | Every written line of a table is visible at its start and free of line feeds. |
| TextFacts.TableLinesRecords | utils/fileHelpers.ts:96-108 | Building records from the written table's lines gives back the rows. |
| TextFacts.TableLinesRecordsKeyed | utils/fileHelpers.ts:96-108 | For objects whose keys are the header keys in any order, the records read back have the header keys and each key's value. |
| TextFacts.CsvConversion | utils/fileHelpers.ts:112-133 | On JSON-looking text that parses, the csv target yields what the writer wrote, as `text/csv`. |
| TextFacts.JsonCsvJsonRoundTrip | utils/fileHelpers.ts:90-131 | JSON→CSV→JSON returns exactly the same records, from one object or an array, when these conditions hold. Every object has the first object's keys in the same order. Every key is non-empty, trimmed and free of `,`, `"` and line feeds. Every value is a non-empty trimmed string without `"` or line feeds. The first key does not start with `{` or `[`. |
| TextFacts.JsonCsvJsonRoundTripKeyed | utils/fileHelpers.ts:90-131 | Under the same key and value conditions as JsonCsvJsonRoundTrip, but with each object's keys in its own order, JSON→CSV→JSON gives one record per object. Each has the first object's keys in that order, and every key has the object's value. |
| TextFacts.PlainLinesShape | utils/fileHelpers.ts:93-94 | Those lines are visible at their start and free of line feeds. |
| TextFacts.PlainRowObject | utils/fileHelpers.ts:99-106 | A plain data line under distinct plain headers becomes the column-by-column object. |
| TextFacts.PlainLinesRecordAt | utils/fileHelpers.ts:98-107 | The i-th record is the object of the i-th data line. |
| TextFacts.PlainLinesRecords | utils/fileHelpers.ts:96-108 | Every record pairs each header with the cell in its column, in header order. |
| TextFacts.CsvToJsonTable | utils/fileHelpers.ts:90-111 | CSV→JSON on a plain table gives one object per data line, pairing headers and cells in order. |
| TextFacts.NameAgeText | utils/fileHelpers.ts:94 | The worked table joins to `name,age\nAda,36\nLin,29`. |
| TextFacts.AlphanumericIsPlain | utils/fileHelpers.ts:37 | A non-empty run of ASCII letters and digits survives the reader unchanged. |
| TextFacts.NameAgeCellsArePlain | utils/fileHelpers.ts:37 | The worked example's headers are distinct and its cells plain. |
| TextFacts.NameAgeExample | utils/fileHelpers.ts:90-111 | `name,age` over two data lines becomes two objects with string values. |
| TextFacts.QuotedFieldReadsBack | utils/fileHelpers.ts:34-125 | A writer-quoted field reads back as its content with every `"` dropped, trimmed. |
| TextFacts.QuoteInValueIsLost | utils/fileHelpers.ts:34-124 | A value containing `"` never survives being written and read as CSV. |
| Strings.TrimEmptyIff | utils/fileHelpers.ts:94 | `trim()` is empty exactly for all-whitespace text. |
| Strings.TrimFirst | utils/fileHelpers.ts:93 | The first character of `trim()` is the first non-whitespace character. |
| Strings.TrimIsTrimmed | utils/fileHelpers.ts:37 | `trim()` leaves no whitespace at either end. |
| Strings.ToLower | utils/fileHelpers.ts:10 | Lower-casing maps each character and keeps the length. |
| Strings.ToLowerIdempotent | utils/fileHelpers.ts:10 | Lower-casing twice is lower-casing once. |
| Strings.Split | components/ConverterPanel.tsx:42 | A split has at least one piece and no piece holds the separator. |
| Strings.JoinSplit | utils/fileHelpers.ts:94 | Joining the pieces of a split gives back the text. |
| Strings.SplitJoin | utils/fileHelpers.ts:129 | Splitting a join of separator-free pieces gives back the pieces. |
| Strings.LastIndexOf | components/ConverterPanel.tsx:117 | The last position holding the character, or -1 when there is none. |
| Strings.RemoveDoubledQuotes | utils/fileHelpers.ts:124 | Doubling quotes, then dropping every quote, loses exactly the quotes. |
| ConverterPanel.Controls | components/ConverterPanel.tsx:128-315 | No contract of its own: the controls the JSX renders in each state. Its meaning is stated by ResetOffered and ResetDuringConversionStrands. |
| ConverterPanel.OriginalExtension | components/ConverterPanel.tsx:42 | No contract of its own. Its meaning is stated by OriginalExtensionAfterLastDot, OriginalExtensionSeen and DownloadNameExtension. |
| ConverterPanel.AvailableFormats | components/ConverterPanel.tsx:19-27 | The catalog of the file's category. Empty exactly when there is no file or it is UNKNOWN. |
| ConverterPanel.FindFormat | components/ConverterPanel.tsx:207 | No entry exactly when no entry has the value; otherwise an entry with that value. |
| ConverterPanel.FindFormatFirst | components/ConverterPanel.tsx:207 | The lookup returns the first entry carrying the value. |
| ConverterPanel.FindFormatDistinct | components/ConverterPanel.tsx:207 | With distinct values every entry is found by its own value. |
| ConverterPanel.LastPiece | components/ConverterPanel.tsx:42 | The popped piece of a split never holds a dot. |
| ConverterPanel.LastPieceAfterLastDot | components/ConverterPanel.tsx:42 | The popped piece is the text after the last dot, or the whole name. |
| ConverterPanel.OriginalExtensionAfterLastDot | components/ConverterPanel.tsx:42 | The stored extension is the lower-cased text after the last dot, or the whole lower-cased name without a dot. |
| ConverterPanel.LastPieceLower | components/ConverterPanel.tsx:42 | Lower-casing before or after taking the last piece gives the same result. |
| ConverterPanel.OriginalExtensionSeen | components/ConverterPanel.tsx:42 | When the lower-cased name ends in `.e` (the classifier's test), the stored extension is `e`. |
| ConverterPanel.DownloadBase | components/ConverterPanel.tsx:117 | The name before the last dot when that prefix is non-empty, otherwise the whole name (no dot, or a leading dot). |
| ConverterPanel.DownloadName | components/ConverterPanel.tsx:118 | The file name ends with `_fenix.` plus the extension. The part before it is the original name without its last extension: DownloadNameDotted gives it as DownloadBase plus `_fenix.` plus the extension, and DownloadBase's contract states the prefix. |
| ConverterPanel.DownloadNameExtension | components/ConverterPanel.tsx:117-118 | Read back as an accepted file's name, the download name's extension is the format's. |
| ConverterPanel.RouteOf | components/ConverterPanel.tsx:80-90 | Image path exactly for IMAGE. Text path exactly for DOCUMENT with json, csv or txt. Relabel otherwise. |
| ConverterPanel.Convert | components/ConverterPanel.tsx:80-90 | A conversion fails exactly when an image's encoder fails. |
| ConverterPanel.RelabelKeepsBytes | components/ConverterPanel.tsx:86-89 | Video targets and pdf/docx document targets return the file's own bytes under the target MIME type. |
| ConverterPanel.TextPathConverts | components/ConverterPanel.tsx:83-85 | The text path is the text converter on the file's text. |
| ConverterPanel.InitialInv | components/ConverterPanel.tsx:12-17 | The initial state satisfies the panel invariant. |
| ConverterPanel.Accept | components/ConverterPanel.tsx:29-49 | Keeps the invariant. An UNKNOWN file only sets "Format not supported.". Any other file is described and moves to SELECTED with no target, progress 0 and no error; nothing else changes. |
| ConverterPanel.Choose | components/ConverterPanel.tsx:206-209 | Keeps the invariant. Sets the available entry with the value, or none exactly when no entry has it; nothing else changes. |
| ConverterPanel.RequestOf | components/ConverterPanel.tsx:64 | The guard passes exactly when a file and a target are held, and captures them. |
| ConverterPanel.Start | components/ConverterPanel.tsx:63-75 | No-op unless the guard passes; otherwise CONVERTING, progress 0, one more interval. Keeps the invariant. |
| ConverterPanel.TickProgress | components/ConverterPanel.tsx:71-74 | Progress never decreases, is frozen at 95 or more, and otherwise grows by less than 10 and stays below 105. |
| ConverterPanel.Tick | components/ConverterPanel.tsx:70-75 | Keeps the invariant and changes only progress, never downwards. |
| ConverterPanel.TicksBounded | components/ConverterPanel.tsx:70-75 | Over any run of ticks, progress never decreases, stays below 105 and is frozen from 95. |
| ConverterPanel.TickCanPassHundred | components/ConverterPanel.tsx:72-73 | A tick from 94.5 can take progress above 100. |
| ConverterPanel.Finish | components/ConverterPanel.tsx:92-102 | Clears one interval. Success sets progress 100, the result URL and COMPLETED. Failure sets ERROR and the error message and keeps progress. Keeps the invariant. |
| ConverterPanel.Reset | components/ConverterPanel.tsx:51-61 | Releases the preview and result URLs, holds none, and restores every field to its initial value. Running intervals are not cleared. |
| ConverterPanel.Download | components/ConverterPanel.tsx:115-119 | A link exactly when a result, a target and a file are held; its name ends `_fenix.` plus the target's extension. |
| ConverterPanel.DownloadAfterSuccess | components/ConverterPanel.tsx:92-118 | An undisturbed success offers the result URL under the download name. |
| ConverterPanel.ResetOffered | components/ConverterPanel.tsx:159-183 | Outside IDLE a reset control is rendered exactly when a file is held. |
| ConverterPanel.ResetDuringConversionStrands | components/ConverterPanel.tsx:51-102 | A reset during a conversion, once it settles, leaves a non-IDLE panel without a file, controls or download. |
| ConverterPanel.ResetThenDropCompletes | components/ConverterPanel.tsx:29-102 | A file dropped after a reset, with no target, becomes COMPLETED when the earlier conversion succeeds, and its download does nothing. |
| ConverterPanel.ResetThenDropChooseCompletes | components/ConverterPanel.tsx:29-126 | A file dropped and a target chosen after a reset: the earlier success offers the earlier result's URL under the new file's download name, and no URL is released. |
| ConverterPanel.ResetThenDropFails | components/ConverterPanel.tsx:29-102 | A file dropped after a reset shows ERROR and has no download when the earlier conversion fails. |
| ConverterPanel.Panel.constructor | components/ConverterPanel.tsx:12-17 | Starts in the initial state. |
| ConverterPanel.Panel.HandleFileAccepted | components/ConverterPanel.tsx:29-49 | Updates the fields to `Accept` of the old state, keeping the invariant. |
| ConverterPanel.Panel.SelectTarget | components/ConverterPanel.tsx:206-209 | Updates the fields to `Choose` of the old state. |
| ConverterPanel.Panel.StartConversion | components/ConverterPanel.tsx:63-75 | Returns the captured request and updates the fields to `Start`. |
| ConverterPanel.Panel.ProgressTick | components/ConverterPanel.tsx:70-75 | Updates the fields to `Tick`. |
| ConverterPanel.Panel.FinishConversion | components/ConverterPanel.tsx:77-103 | Dispatches over the three paths to exactly `Convert` of the request, then updates the fields to `Finish`. |
| ConverterPanel.Panel.HandleReset | components/ConverterPanel.tsx:51-61 | Updates the fields to `Reset`. |
| ConverterPanel.Panel.DownloadFile | components/ConverterPanel.tsx:115-126 | Returns exactly `Download` of the current state. |

## Left out

- `convertImage` (FileReader, `Image`, canvas `drawImage`/`toBlob`) is a platform codec. It is the parameter
  `imageResult`: `Some(blob)` when it resolves, `None` when it rejects.
- `formatFileSize` works on floating point (`Math.log`, `Math.pow`, `toFixed`) and only feeds the display.
- `JSON.parse` is the parameter `parse`. Property values are modelled as null or strings only; numbers,
  booleans and nested values, and the `String(val)` of them, are not modelled. Array elements are objects or
  null only. An array of strings, numbers or arrays cannot be represented: in the source `["a"]` gives the
  header line `0` and the line `"a"`.
- TextConversion.LookupMissing: a lookup sees the object's own keys only. In the source `row[header]` also
  finds names inherited from `Object.prototype` (`toString`, `constructor`, `hasOwnProperty`, ...). So for
  `[{"toString":"a"},{"b":"c"}]` the source writes `"function toString() { [native code] }"` for the second
  row where the model writes `""`. The prototype chain is not modelled.
- TextConversion.RenderAll: renders from own keys only, for the same reason as `LookupMissing`.
- TextConversion.Assign: `obj[k] = v` is modelled as an own-property write. In the source a header
  `__proto__` runs the prototype setter and adds no key, so `__proto__,a` over `x,y` gives `[{"a":"y"}]`
  where the model keeps a `__proto__` key. The prototype chain is not modelled.
- TextConversion.RowObjectKeys: for the same reason as `Assign`, a `__proto__` header counts as a key in the model.
- `JSON.stringify(result, null, 2)` is kept abstract as the payload `JsonRecords(records)`; its spacing is not modelled.
- `Object.keys` ordering of integer-like keys is not modelled: keys keep insertion order.
- Strings.ToLower: lower-cases the ASCII letters A-Z only; full Unicode `toLowerCase` is not modelled. Its
  effect on the extension rules is not modelled either: U+212A KELVIN SIGN lower-cases to ASCII `k`, so an empty
  MIME type with the name `clip.m\u212Av` is VIDEO in the source and UNKNOWN in the model. The stored
  `originalExtension` differs in the same way for such names.
- Reading the file (`readAsText`) is the parameter `text`; the text decoding is not modelled.
- `Math.random()` is the tick's parameter `inc`, any real in [0, 10).
- ConverterPanel.TickProgress: progress is an exact `real`, not an IEEE double. Rounding of the sum is not
  modelled; the bounds proved (no decrease, frozen from 95, below 105) do not depend on it.
- `setInterval`, `setTimeout` and the promise sequencing: each handler, tick and settlement is one atomic step.
  `StartConversion` and `FinishConversion` are the halves of `startConversion` around its `await`. The
  2-second delay of `simulateConversion` is not modelled.
- `URL.createObjectURL` results are parameters (`preview`, `url`). `URL.revokeObjectURL` appends to the `released` log.
- The anchor element, its click and the DOM are not modelled apart from the link's `href` and file name.
- JSX rendering is reduced to the set of controls each state renders (`Controls`). DropZone.tsx, Navbar.tsx,
  Footer.tsx and App.tsx are UI wiring and are not part of this model.
- `console.warn` and `console.error` are not modelled.
