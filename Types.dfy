/** The value types shared by the classifier, the text converter and the panel:
    the enumerations and records of the application's type declarations, plus
    an abstract view of the browser's `File` and `Blob` objects. */
module Types {

  datatype Option<+T> = None | Some(value: T)

  /** Category a dropped file is classified into. */
  datatype FileType = IMAGE | VIDEO | DOCUMENT | UNKNOWN

  /** Lifecycle of one conversion. UPLOADING is declared but never entered. */
  datatype ConversionStatus = IDLE | UPLOADING | SELECTED | CONVERTING | COMPLETED | ERROR

  /** One convertible target format: display label, short code, MIME type, file extension. */
  datatype ConversionFormat = ConversionFormat(displayLabel: string, value: string, mimeType: string, extension: string)

  newtype byte = x: int | 0 <= x < 256

  /** A browser object URL (`URL.createObjectURL`), as an opaque token. */
  type Handle = nat

  /** A dropped file: its name, its declared MIME type and its bytes. */
  datatype SourceFile = SourceFile(name: string, mimeType: string, bytes: seq<byte>)

  /** What the panel keeps about the accepted file. */
  datatype FileData = FileData(file: SourceFile, previewUrl: Option<Handle>, fileType: FileType,
                               originalExtension: string, size: nat)

  /** Content of a produced blob: raw bytes, a string, or the pretty-printed JSON of a
      list of records (`JSON.stringify(records, null, 2)`, kept abstract). */
  datatype Payload = Bytes(bytes: seq<byte>) | Text(text: string) | JsonRecords(records: seq<Record>)

  /** A JSON value as the text converter sees it: null or a string. */
  datatype JsonValue = JNull | JStr(s: string)

  /** The keys of an object, in insertion order. */
  function Keys(rec: seq<(string, JsonValue)>): (ks: seq<string>)
    ensures |ks| == |rec| && forall i :: 0 <= i < |rec| ==> ks[i] == rec[i].0
  {
    if rec == [] then [] else [rec[0].0] + Keys(rec[1..])
  }

  predicate Distinct<T(==)>(s: seq<T>) {
    forall i, j :: 0 <= i < j < |s| ==> s[i] != s[j]
  }

  lemma DistinctAt<T>(s: seq<T>, j: nat, i: nat)
    requires Distinct(s) && j < i < |s|
    ensures s[j] != s[i]
  {
  }

  lemma DistinctCons<T>(x: T, s: seq<T>)
    requires Distinct(s) && x !in s
    ensures Distinct([x] + s)
  {
  }

  /** A plain JavaScript object: an ordered list of properties with pairwise distinct keys. */
  type Record = r: seq<(string, JsonValue)> | Distinct(Keys(r)) witness []

  datatype Blob = Blob(payload: Payload, mimeType: string)
}
