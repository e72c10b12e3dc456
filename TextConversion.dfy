/** The text conversion between CSV and JSON. The source text is taken as
    already decoded, and `JSON.parse` is taken as a given outcome: either the
    text was malformed, or it denotes one object or an array whose elements
    are objects or null. */
module TextConversion {
  import opened Types
  import opened Strings
  import opened CsvLine

  /** The three conversion targets of the text path. */
  datatype TextTarget = Json | Csv | Txt

  /** An element of a parsed JSON array. */
  datatype Element = Obj(rec: Record) | Null

  /** What `JSON.parse` returns for a text that starts with `{` or `[`. */
  datatype Json = Single(rec: Record) | List(elems: seq<Element>)

  datatype ParseOutcome = Malformed | Parsed(json: Json)

  /** The result of the JSON-to-CSV writer: the input stays as it is (empty
      array), CSV text was written, or a `TypeError` was thrown (a null element
      whose properties are read). */
  datatype CsvOutcome = Unchanged | Written(csv: string) | Threw

  /** The MIME type each target produces. */
  function TargetMime(target: TextTarget): string {
    match target
    case Json => "application/json"
    case Csv => "text/csv"
    case Txt => "text/plain"
  }

  /** The sniff: the trimmed text starts with `{` or `[`. */
  predicate LooksLikeJson(text: string) {
    var t := Trim(text);
    t != [] && (t[0] == '{' || t[0] == '[')
  }

  // ---- Objects ----

  /** `obj[k]` on an own property, if there is one. */
  function Lookup(rec: seq<(string, JsonValue)>, k: string): Option<JsonValue> {
    if rec == [] then None
    else if rec[0].0 == k then Some(rec[0].1)
    else Lookup(rec[1..], k)
  }

  /** A lookup fails exactly when the key is absent. */
  lemma {:induction false} LookupMissing(rec: seq<(string, JsonValue)>, k: string)
    ensures Lookup(rec, k).None? <==> k !in Keys(rec)
  {
    if rec != [] {
      LookupMissing(rec[1..], k);
      assert Keys(rec) == [rec[0].0] + Keys(rec[1..]);
    }
  }

  /** With distinct keys, looking up the key at position `j` finds the value at `j`. */
  lemma {:induction false} LookupAt(rec: Record, j: nat)
    requires j < |rec|
    ensures Lookup(rec, rec[j].0) == Some(rec[j].1)
  {
    if j > 0 {
      assert Keys(rec)[0] != Keys(rec)[j];
      var tail: Record := rec[1..];
      LookupAt(tail, j - 1);
    }
  }

  /** `obj[k] = v`: overwrite the value of an existing key in place, or append a new key. */
  function Assign(rec: Record, k: string, v: JsonValue): (r: Record)
    ensures Keys(r) == if k in Keys(rec) then Keys(rec) else Keys(rec) + [k]
  {
    if rec == [] then [(k, v)]
    else
      var tail: Record := rec[1..];
      assert Keys(rec) == [rec[0].0] + Keys(tail);
      if rec[0].0 == k then
        assert Keys([(k, v)] + tail) == [k] + Keys(tail);
        [(k, v)] + tail
      else
        var r := Assign(tail, k, v);
        assert Keys([rec[0]] + r) == [rec[0].0] + Keys(r);
        DistinctCons(rec[0].0, Keys(r));
        [rec[0]] + r
  }

  /** After `obj[k] = v`, `k` holds `v` and every other key keeps its value. */
  lemma {:induction false} AssignLookup(rec: Record, k: string, v: JsonValue, other: string)
    ensures Lookup(Assign(rec, k, v), k) == Some(v)
    ensures other != k ==> Lookup(Assign(rec, k, v), other) == Lookup(rec, other)
  {
    if rec != [] && rec[0].0 != k {
      var tail: Record := rec[1..];
      AssignLookup(tail, k, v, other);
    }
  }

  /** Assigning a new key appends it at the end: insertion order is kept. */
  lemma {:induction false} AssignNew(rec: Record, k: string, v: JsonValue)
    requires k !in Keys(rec)
    ensures Assign(rec, k, v) == rec + [(k, v)]
  {
    if rec != [] {
      var tail: Record := rec[1..];
      assert Keys(rec) == [rec[0].0] + Keys(tail);
      AssignNew(tail, k, v);
    }
  }

  // ---- CSV to JSON ----

  /** `currentline[j] || null`: a missing or empty cell is null. */
  function CellValue(cells: seq<string>, j: nat): JsonValue {
    if j < |cells| && cells[j] != "" then JStr(cells[j]) else JNull
  }

  /** The object built for one data line: each non-empty header, in order, is
      assigned the cell at its position. */
  function RowObject(headers: seq<string>, cells: seq<string>): Record {
    if headers == [] then []
    else
      var n := |headers| - 1;
      var o := RowObject(headers[..n], cells);
      if headers[n] != "" then Assign(o, headers[n], CellValue(cells, n)) else o
  }

  /** The object has exactly the non-empty headers as keys. */
  lemma {:induction false} RowObjectKeys(headers: seq<string>, cells: seq<string>, k: string)
    ensures k in Keys(RowObject(headers, cells)) <==> k != "" && k in headers
  {
    if headers != [] {
      var n := |headers| - 1;
      RowObjectKeys(headers[..n], cells, k);
      assert headers == headers[..n] + [headers[n]];
    }
  }

  /** A header that occurs more than once takes the cell of its last occurrence. */
  lemma {:induction false} RowObjectLastWins(headers: seq<string>, cells: seq<string>, j: nat)
    requires j < |headers| && headers[j] != ""
    requires forall j' :: j < j' < |headers| ==> headers[j'] != headers[j]
    ensures Lookup(RowObject(headers, cells), headers[j]) == Some(CellValue(cells, j))
  {
    var n := |headers| - 1;
    var o := RowObject(headers[..n], cells);
    if j == n {
      AssignLookup(o, headers[n], CellValue(cells, n), headers[n]);
    } else {
      RowObjectLastWins(headers[..n], cells, j);
      if headers[n] != "" {
        AssignLookup(o, headers[n], CellValue(cells, n), headers[j]);
      }
    }
  }

  /** With distinct non-empty headers the object pairs the j-th header with the j-th cell. */
  lemma {:induction false} RowObjectPlain(headers: seq<string>, cells: seq<string>)
    requires Distinct(headers) && forall j :: 0 <= j < |headers| ==> headers[j] != ""
    ensures |RowObject(headers, cells)| == |headers|
    ensures forall j :: 0 <= j < |headers| ==> RowObject(headers, cells)[j] == (headers[j], CellValue(cells, j))
  {
    if headers != [] {
      var n := |headers| - 1;
      var init := headers[..n];
      RowObjectPlain(init, cells);
      var o := RowObject(init, cells);
      RowObjectKeys(init, cells, headers[n]);
      assert headers[n] !in init;
      AssignNew(o, headers[n], CellValue(cells, n));
    }
  }

  /** The inner loop: build the object of one data line. */
  method BuildObject(headers: seq<string>, cells: seq<string>) returns (obj: Record)
    ensures obj == RowObject(headers, cells)
  {
    obj := [];
    for j := 0 to |headers|
      invariant obj == RowObject(headers[..j], cells)
    {
      assert headers[..j + 1][..j] == headers[..j];
      if headers[j] != "" {
        obj := Assign(obj, headers[j], CellValue(cells, j));
      }
    }
    assert headers[..|headers|] == headers;
  }

  /** The objects of the lines after the header line. */
  function CsvRecords(lines: seq<string>): seq<Record>
    requires |lines| > 0
  {
    var headers := CsvFields(lines[0]);
    seq(|lines| - 1, i requires 0 <= i < |lines| - 1 => RowObject(headers, CsvFields(lines[i + 1])))
  }

  /** The outer loop: one object per data line, keyed by the header line's fields. */
  method BuildRecords(lines: seq<string>) returns (records: seq<Record>)
    requires |lines| > 0
    ensures records == CsvRecords(lines)
  {
    var headers := ParseCsvLine(lines[0]);
    records := [];
    for i := 1 to |lines|
      invariant |records| == i - 1
      invariant forall r :: 0 <= r < i - 1 ==> records[r] == RowObject(headers, CsvFields(lines[r + 1]))
    {
      var currentline := ParseCsvLine(lines[i]);
      var obj := BuildObject(headers, currentline);
      records := records + [obj];
    }
  }

  /** `lines.filter(l => l.trim().length > 0)`. */
  function NonBlank(lines: seq<string>): seq<string> {
    if lines == [] then []
    else
      var k := NonBlank(lines[..|lines| - 1]);
      if Trim(lines[|lines| - 1]) != [] then k + [lines[|lines| - 1]] else k
  }

  /** The kept lines are exactly the non-blank ones. */
  lemma {:induction false} NonBlankMembers(lines: seq<string>, l: string)
    ensures l in NonBlank(lines) <==> l in lines && Trim(l) != []
  {
    if lines != [] {
      var init := lines[..|lines| - 1];
      NonBlankMembers(init, l);
      assert lines == init + [lines[|lines| - 1]];
    }
  }

  /** The non-blank lines of a text. */
  function NonBlankLines(text: string): seq<string> {
    NonBlank(Split(text, '\n'))
  }

  // ---- JSON to CSV ----

  /** `Array.isArray(json) ? json : [json]`. */
  function Elements(json: Json): seq<Element> {
    match json
    case Single(r) => [Obj(r)]
    case List(es) => es
  }

  /** `String(row[header] !== undefined ? row[header] : '')`. */
  function Render(row: Record, header: string): string {
    match Lookup(row, header)
    case None => ""
    case Some(JNull) => "null"
    case Some(JStr(s)) => s
  }

  function RenderAll(row: Record, headers: seq<string>): (vs: seq<string>)
    ensures |vs| == |headers| && forall j :: 0 <= j < |headers| ==> vs[j] == Render(row, headers[j])
  {
    if headers == [] then [] else RenderAll(row, headers[..|headers| - 1]) + [Render(row, headers[|headers| - 1])]
  }

  /** One CSV line for an object: every header's value, quotes doubled,
      wrapped in quotes, comma-separated (see `ObjectLineIsJoin`). */
  function ObjectLine(row: Record, headers: seq<string>): string {
    if headers == [] then ""
    else if |headers| == 1 then QuoteField(Render(row, headers[0]))
    else ObjectLine(row, headers[..|headers| - 1]) + [','] + QuoteField(Render(row, headers[|headers| - 1]))
  }

  /** The line is `headers.map(...)` followed by `join(',')`. */
  lemma {:induction false} ObjectLineIsJoin(row: Record, headers: seq<string>)
    ensures ObjectLine(row, headers) == Join(QuoteAll(RenderAll(row, headers)), ',')
  {
    if |headers| > 1 {
      var init := headers[..|headers| - 1];
      ObjectLineIsJoin(row, init);
      var vs := RenderAll(row, init);
      var v := Render(row, headers[|headers| - 1]);
      assert RenderAll(row, headers) == vs + [v];
      assert (vs + [v])[..|vs|] == vs;
      assert QuoteAll(vs + [v]) == QuoteAll(vs) + [QuoteField(v)];
      JoinSnoc(QuoteAll(vs), QuoteField(v), ',');
    }
  }

  /** The line written for one element. A null element yields the empty line
      (only reached when there are no headers). */
  function RowLine(e: Element, headers: seq<string>): string {
    match e
    case Obj(row) => ObjectLine(row, headers)
    case Null => ""
  }

  /** No element of the array is null. */
  predicate AllObjects(elems: seq<Element>) {
    elems == [] || (AllObjects(elems[..|elems| - 1]) && elems[|elems| - 1].Obj?)
  }

  lemma {:induction false} AllObjectsIff(elems: seq<Element>)
    ensures AllObjects(elems) <==> forall i :: 0 <= i < |elems| ==> elems[i].Obj?
  {
    if elems != [] {
      var init := elems[..|elems| - 1];
      AllObjectsIff(init);
      assert forall i :: 0 <= i < |init| ==> init[i] == elems[i];
    }
  }

  /** A prefix of an array of objects is an array of objects. */
  lemma {:induction false} AllObjectsPrefix(elems: seq<Element>, n: nat)
    requires n <= |elems|
    ensures AllObjects(elems) ==> AllObjects(elems[..n])
  {
    if n < |elems| {
      assert elems[..|elems| - 1][..n] == elems[..n];
      AllObjectsPrefix(elems[..|elems| - 1], n);
    } else {
      assert elems[..n] == elems;
    }
  }

  /** The lines written after the header line, one per element. */
  function RowLines(elems: seq<Element>, headers: seq<string>): seq<string> {
    if elems == [] then []
    else RowLines(elems[..|elems| - 1], headers) + [RowLine(elems[|elems| - 1], headers)]
  }

  /** What the writer does with the parsed array. */
  function CsvOf(elems: seq<Element>): CsvOutcome {
    if elems == [] then Unchanged
    else if elems[0].Null? then Threw
    else
      var headers := Keys(elems[0].rec);
      if headers != [] && !AllObjects(elems) then Threw
      else Written(Join([Join(headers, ',')] + RowLines(elems, headers), '\n'))
  }

  /** The writing loop: the header line, then one line per element. */
  method WriteCsv(elems: seq<Element>) returns (out: CsvOutcome)
    ensures out == CsvOf(elems)
  {
    if |elems| == 0 {
      return Unchanged;
    }
    if elems[0].Null? {
      return Threw;
    }
    var headers := Keys(elems[0].rec);
    var csvRows := [Join(headers, ',')];
    for i := 0 to |elems|
      invariant csvRows == [Join(headers, ',')] + RowLines(elems[..i], headers)
      invariant headers != [] ==> AllObjects(elems[..i])
    {
      var row := elems[i];
      if row.Null? && headers != [] {
        assert elems[..i + 1][..i] == elems[..i];
        AllObjectsPrefix(elems, i + 1);
        return Threw;
      }
      assert elems[..i + 1][..i] == elems[..i];
      csvRows := csvRows + [RowLine(row, headers)];
    }
    assert elems[..|elems|] == elems;
    out := Written(Join(csvRows, '\n'));
  }

  // ---- The conversion ----

  /** What `convertTextData` resolves with. */
  function ConvertedText(text: string, target: TextTarget, parse: ParseOutcome): (b: Blob)
    ensures b.mimeType == TargetMime(target)
    ensures b.payload.JsonRecords? <==> target == Json && !LooksLikeJson(text) && NonBlankLines(text) != []
    ensures target == Json && !LooksLikeJson(text) && NonBlankLines(text) != [] ==>
      b.payload == JsonRecords(CsvRecords(NonBlankLines(text)))
    ensures target == Json && (LooksLikeJson(text) || NonBlankLines(text) == []) ==> b.payload == Text(text)
    ensures target == Txt ==> b.payload == Text(text)
    ensures target == Csv && (!LooksLikeJson(text) || parse.Malformed?) ==> b.payload == Text(text)
    ensures target == Csv && parse.Parsed? && CsvOf(Elements(parse.json)) in {Unchanged, Threw} ==> b.payload == Text(text)
  {
    var mime := TargetMime(target);
    match target
    case Txt => Blob(Text(text), mime)
    case Json =>
      var lines := NonBlankLines(text);
      if !LooksLikeJson(text) && lines != [] then Blob(JsonRecords(CsvRecords(lines)), mime)
      else Blob(Text(text), mime)
    case Csv =>
      if !LooksLikeJson(text) || parse.Malformed? then Blob(Text(text), mime)
      else
        match CsvOf(Elements(parse.json))
        case Written(csv) => Blob(Text(csv), mime)
        case _ => Blob(Text(text), mime)
  }

  /** `convertTextData` once the file has been read as `text`; `parse` stands
      for `JSON.parse(text)`. Every failure inside is caught and turned into a
      copy of the text under the MIME type already chosen. */
  method ConvertTextData(text: string, target: TextTarget, parse: ParseOutcome) returns (blob: Blob)
    ensures blob == ConvertedText(text, target, parse)
  {
    var output := text;
    var mimeType := "text/plain";
    if target == Json {
      mimeType := "application/json";
      if !LooksLikeJson(text) {
        var lines := NonBlankLines(text);
        if |lines| > 0 {
          var records := BuildRecords(lines);
          return Blob(JsonRecords(records), mimeType);
        }
      }
    } else if target == Csv {
      mimeType := "text/csv";
      if LooksLikeJson(text) {
        if parse.Malformed? {
          return Blob(Text(text), mimeType);
        }
        var out := WriteCsv(Elements(parse.json));
        match out {
          case Written(csv) => output := csv;
          case Unchanged =>
          case Threw => return Blob(Text(text), mimeType);
        }
      }
    }
    blob := Blob(Text(output), mimeType);
  }
}
