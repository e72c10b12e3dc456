/** Properties of the text conversion: how the CSV writer's output reads back,
    when a conversion produces records, and the JSON -> CSV -> JSON round trip. */
module TextFacts {
  import opened Types
  import opened Strings
  import opened CsvLine
  import opened TextConversion

  // ---- Lines and the sniff ----

  /** Nothing is filtered from lines that are all non-blank. */
  lemma {:induction false} NonBlankKeepsAll(lines: seq<string>)
    requires forall i :: 0 <= i < |lines| ==> Trim(lines[i]) != []
    ensures NonBlank(lines) == lines
  {
    if lines != [] {
      var init, last := lines[..|lines| - 1], lines[|lines| - 1];
      NonBlankKeepsAll(init);
      assert Trim(last) != [];
      assert init + [last] == lines;
    }
  }

  /** The sniff is decided by the first character that is not whitespace. */
  lemma SniffFirstVisible(text: string, k: nat)
    requires k < |text| && AllWhitespace(text[..k]) && !IsWhitespace(text[k])
    ensures LooksLikeJson(text) <==> text[k] == '{' || text[k] == '['
  {
    TrimFirst(text, k);
  }

  /** Lines that each start with a visible character and hold no line feed come
      back, all of them and in order, after joining with line feeds and taking
      the non-blank lines; the sniff looks at the first line's first character. */
  lemma LinesReadBack(lines: seq<string>)
    requires |lines| >= 1
    requires forall i :: 0 <= i < |lines| ==> lines[i] != [] && !IsWhitespace(lines[i][0]) && '\n' !in lines[i]
    ensures NonBlankLines(Join(lines, '\n')) == lines
    ensures LooksLikeJson(Join(lines, '\n')) <==> lines[0][0] == '{' || lines[0][0] == '['
  {
    SplitJoin(lines, '\n');
    forall i | 0 <= i < |lines| ensures Trim(lines[i]) != [] {
      TrimFirst(lines[i], 0);
    }
    NonBlankKeepsAll(lines);
    var text := Join(lines, '\n');
    JoinStartsWith(lines, '\n');
    assert text[0] == text[..|lines[0]|][0];
    SniffFirstVisible(text, 0);
  }

  /** Such lines, joined with line feeds, convert to the records of those lines
      when the first line does not start with `{` or `[`. */
  lemma JsonOfLines(lines: seq<string>, parse: ParseOutcome)
    requires |lines| >= 1
    requires forall i :: 0 <= i < |lines| ==> lines[i] != [] && !IsWhitespace(lines[i][0]) && '\n' !in lines[i]
    requires lines[0][0] != '{' && lines[0][0] != '['
    ensures ConvertedText(Join(lines, '\n'), Json, parse).payload == JsonRecords(CsvRecords(lines))
  {
    LinesReadBack(lines);
  }

  // ---- Reading CSV lines ----

  /** A cell that survives the CSV reader unchanged when written plainly. */
  predicate PlainCell(s: string) {
    s != [] && IsTrimmed(s) && '"' !in s && ',' !in s && '\n' !in s
  }

  /** Cells without quotes, commas or edge whitespace, joined with commas, parse back to themselves. */
  lemma PlainLineFields(cells: seq<string>)
    requires |cells| >= 1 && forall j :: 0 <= j < |cells| ==> PlainCell(cells[j])
    ensures CsvFields(Join(cells, ',')) == cells
  {
    PlainLineRaw(cells);
    var fs := CsvFields(Join(cells, ','));
    forall j | 0 <= j < |cells| ensures fs[j] == cells[j] {
      TrimOfTrimmed(cells[j]);
      EdgeQuoteStripIsNoOp(cells[j]);
    }
  }

  /** Every line the JSON-to-CSV writer emits for an object parses back into one
      field per header: that header's value with every `"` dropped and trimmed. */
  lemma WrittenRowFields(row: Record, headers: seq<string>)
    requires |headers| >= 1
    ensures |CsvFields(RowLine(Obj(row), headers))| == |headers|
    ensures forall j :: 0 <= j < |headers| ==>
      CsvFields(RowLine(Obj(row), headers))[j] == Trim(RemoveQuotes(Render(row, headers[j])))
  {
    var vs := RenderAll(row, headers);
    ObjectLineIsJoin(row, headers);
    QuotedLineRaw(vs);
    forall j | 0 <= j < |headers|
      ensures CsvFields(RowLine(Obj(row), headers))[j] == Trim(RemoveQuotes(Render(row, headers[j])))
    {
      FieldShape(RowLine(Obj(row), headers), j);
    }
  }

  /** RowLines has one line per element, in order. */
  lemma {:induction false} RowLinesAt(elems: seq<Element>, headers: seq<string>)
    ensures |RowLines(elems, headers)| == |elems|
    ensures forall i :: 0 <= i < |elems| ==> RowLines(elems, headers)[i] == RowLine(elems[i], headers)
  {
    if elems != [] {
      var init := elems[..|elems| - 1];
      RowLinesAt(init, headers);
      assert forall i :: 0 <= i < |init| ==> init[i] == elems[i];
    }
  }

  // ---- The writer's outcome ----

  /** The writer fails exactly when the first element is null, or when some
      element is null and the first object has at least one key. */
  lemma WriterThrows(elems: seq<Element>)
    ensures CsvOf(elems) == Threw <==>
      elems != [] && (elems[0].Null? || (Keys(elems[0].rec) != [] && exists i :: 0 <= i < |elems| && elems[i].Null?))
  {
    AllObjectsIff(elems);
  }

  /** Written CSV is the first object's keys, joined with commas and not
      quoted, then a line feed and the element lines. */
  lemma WrittenLayout(elems: seq<Element>)
    requires CsvOf(elems).Written?
    ensures elems != [] && elems[0].Obj?
    ensures CsvOf(elems).csv
      == Join(Keys(elems[0].rec), ',') + "\n" + Join(RowLines(elems, Keys(elems[0].rec)), '\n')
  {
    var headers := Keys(elems[0].rec);
    var lines := [Join(headers, ',')] + RowLines(elems, headers);
    RowLinesAt(elems, headers);
    JoinCons(lines, '\n');
    assert lines[1..] == RowLines(elems, headers);
  }

  // ---- Round trips ----

  /** A value that comes back unchanged from being written into CSV and read
      again: non-empty, no `"`, no line feed, no whitespace at either end. */
  predicate PlainValue(s: string) {
    s != [] && IsTrimmed(s) && '"' !in s && '\n' !in s
  }

  predicate PlainKeys(keys: seq<string>) {
    forall j :: 0 <= j < |keys| ==> PlainCell(keys[j])
  }

  /** Every value of the object is a plain string. */
  predicate PlainValues(row: Record) {
    forall j :: 0 <= j < |row| ==> row[j].1.JStr? && PlainValue(row[j].1.s)
  }

  /** An object with exactly `keys`, in that order, whose values are plain strings. */
  predicate PlainObject(row: Record, keys: seq<string>) {
    Keys(row) == keys && PlainValues(row)
  }

  /** An object whose keys are those of `keys`, in any order, whose values are plain strings. */
  predicate KeyedBy(row: Record, keys: seq<string>) {
    PlainValues(row) && (forall k :: k in Keys(row) ==> k in keys) && (forall k :: k in keys ==> k in Keys(row))
  }

  /** Objects that all have the same plain keys and plain string values. */
  predicate Tabular(rows: seq<Record>, keys: seq<string>) {
    PlainKeys(keys) && forall i :: 0 <= i < |rows| ==> PlainObject(rows[i], keys)
  }

  /** Objects that all have the plain keys `keys`, each in its own order, and plain string values. */
  predicate KeyedTable(rows: seq<Record>, keys: seq<string>) {
    PlainKeys(keys) && forall i :: 0 <= i < |rows| ==> KeyedBy(rows[i], keys)
  }

  lemma TabularIsKeyed(rows: seq<Record>, keys: seq<string>)
    requires Tabular(rows, keys)
    ensures KeyedTable(rows, keys)
  {
    forall i | 0 <= i < |rows| ensures KeyedBy(rows[i], keys) {
      assert Keys(rows[i]) == keys;
    }
  }

  function Objects(rows: seq<Record>): seq<Element> {
    seq(|rows|, i requires 0 <= i < |rows| => Obj(rows[i]))
  }

  /** What is written for a key of such an object is the key's own plain string value. */
  lemma RenderPlain(row: Record, keys: seq<string>, j: nat)
    requires KeyedBy(row, keys) && j < |keys|
    ensures Lookup(row, keys[j]) == Some(JStr(Render(row, keys[j])))
    ensures PlainValue(Render(row, keys[j]))
  {
    assert keys[j] in keys;
    var m :| 0 <= m < |row| && Keys(row)[m] == keys[j];
    LookupAt(row, m);
  }

  /** The values written for such an object, each quoted, hold no line feed. */
  lemma QuotedValues(row: Record, keys: seq<string>)
    requires KeyedBy(row, keys)
    ensures forall k :: 0 <= k < |keys| ==> '\n' !in QuoteAll(RenderAll(row, keys))[k]
  {
    var vs := RenderAll(row, keys);
    forall k | 0 <= k < |keys| ensures '\n' !in QuoteField(vs[k]) {
      RenderPlain(row, keys, k);
      DoubleQuotesAvoids(vs[k], '\n');
    }
  }

  /** The line written for such an object starts with `"` and holds no line feed. */
  lemma WrittenLineShape(row: Record, keys: seq<string>)
    requires |keys| >= 1 && KeyedBy(row, keys)
    ensures RowLine(Obj(row), keys) != [] && RowLine(Obj(row), keys)[0] == '"'
    ensures '\n' !in RowLine(Obj(row), keys)
  {
    var qs := QuoteAll(RenderAll(row, keys));
    ObjectLineIsJoin(row, keys);
    QuotedValues(row, keys);
    JoinAvoids(qs, ',', '\n');
    JoinStartsWith(qs, ',');
    assert qs[0][0] == '"';
  }

  /** The cells read back from the line written for such an object are its
      values in header order. */
  lemma ReadBackCells(row: Record, keys: seq<string>)
    requires |keys| >= 1 && KeyedBy(row, keys)
    ensures |CsvFields(RowLine(Obj(row), keys))| == |keys|
    ensures forall j :: 0 <= j < |keys| ==>
      CellValue(CsvFields(RowLine(Obj(row), keys)), j) == JStr(Render(row, keys[j]))
  {
    var cells := CsvFields(RowLine(Obj(row), keys));
    WrittenRowFields(row, keys);
    forall j | 0 <= j < |keys| ensures CellValue(cells, j) == JStr(Render(row, keys[j])) {
      RenderPlain(row, keys, j);
      TrimOfTrimmed(Render(row, keys[j]));
    }
  }

  /** Two objects with the same keys agree on every key once they agree on each of those keys. */
  lemma LookupAgrees(r: Record, row: Record, keys: seq<string>)
    requires Keys(r) == keys && KeyedBy(row, keys)
    requires forall j :: 0 <= j < |keys| ==> Lookup(r, keys[j]) == Lookup(row, keys[j])
    ensures forall k :: Lookup(r, k) == Lookup(row, k)
  {
    forall k ensures Lookup(r, k) == Lookup(row, k) {
      LookupMissing(r, k);
      LookupMissing(row, k);
      if k in keys {
        var j :| 0 <= j < |keys| && keys[j] == k;
      }
    }
  }

  /** Cells holding an object's values in header order rebuild it key by key. */
  lemma RowObjectOfCells(row: Record, keys: seq<string>, cells: seq<string>)
    requires PlainKeys(keys) && Distinct(keys) && KeyedBy(row, keys) && |cells| == |keys|
    requires forall j :: 0 <= j < |keys| ==> CellValue(cells, j) == JStr(Render(row, keys[j]))
    ensures Keys(RowObject(keys, cells)) == keys
    ensures forall k :: Lookup(RowObject(keys, cells), k) == Lookup(row, k)
  {
    RowObjectPlain(keys, cells);
    var r := RowObject(keys, cells);
    assert Keys(r) == keys;
    forall j | 0 <= j < |keys| ensures Lookup(r, keys[j]) == Lookup(row, keys[j]) {
      LookupAt(r, j);
      RenderPlain(row, keys, j);
    }
    LookupAgrees(r, row, keys);
  }

  /** Cells holding the values of an object with exactly `keys`, in order, rebuild it. */
  lemma RowObjectOfCellsExact(row: Record, keys: seq<string>, cells: seq<string>)
    requires PlainKeys(keys) && PlainObject(row, keys) && |cells| == |keys|
    requires forall j :: 0 <= j < |keys| ==> CellValue(cells, j) == JStr(Render(row, keys[j]))
    ensures RowObject(keys, cells) == row
  {
    forall j | 0 <= j < |keys| ensures CellValue(cells, j) == row[j].1 {
      LookupAt(row, j);
    }
    assert Distinct(Keys(row));
    RowObjectPlain(keys, cells);
  }

  /** Reading back the line written for an object under distinct plain keys
      gives back each key's value, with the keys in header order. */
  lemma ObjectReadBackLookup(row: Record, keys: seq<string>)
    requires |keys| >= 1 && PlainKeys(keys) && Distinct(keys) && KeyedBy(row, keys)
    ensures var r := RowObject(keys, CsvFields(RowLine(Obj(row), keys)));
      Keys(r) == keys && forall k :: Lookup(r, k) == Lookup(row, k)
  {
    ReadBackCells(row, keys);
    RowObjectOfCells(row, keys, CsvFields(RowLine(Obj(row), keys)));
  }

  /** Reading back the line written for an object with exactly `keys`, in order, rebuilds that object. */
  lemma ObjectReadBack(row: Record, keys: seq<string>)
    requires |keys| >= 1 && PlainKeys(keys) && PlainObject(row, keys)
    ensures RowObject(keys, CsvFields(RowLine(Obj(row), keys))) == row
  {
    assert KeyedBy(row, keys);
    ReadBackCells(row, keys);
    RowObjectOfCellsExact(row, keys, CsvFields(RowLine(Obj(row), keys)));
  }

  /** The lines the writer produces for an array of objects: the header line, then one line per object. */
  function TableLines(rows: seq<Record>, keys: seq<string>): seq<string> {
    [Join(keys, ',')] + seq(|rows|, i requires 0 <= i < |rows| => RowLine(Obj(rows[i]), keys))
  }

  lemma TableLinesAt(rows: seq<Record>, keys: seq<string>)
    ensures |TableLines(rows, keys)| == |rows| + 1 && TableLines(rows, keys)[0] == Join(keys, ',')
    ensures forall i :: 0 <= i < |rows| ==> TableLines(rows, keys)[i + 1] == RowLine(Obj(rows[i]), keys)
  {
  }

  lemma WrittenTable(rows: seq<Record>)
    requires |rows| >= 1
    ensures CsvOf(Objects(rows)) == Written(Join(TableLines(rows, Keys(rows[0])), '\n'))
  {
    var keys := Keys(rows[0]);
    AllObjectsIff(Objects(rows));
    RowLinesAt(Objects(rows), keys);
    assert [Join(keys, ',')] + RowLines(Objects(rows), keys) == TableLines(rows, keys);
  }

  /** The header line of plain keys starts with the first key's first character and holds no line feed. */
  lemma HeaderLineShape(keys: seq<string>)
    requires |keys| >= 1 && PlainKeys(keys)
    ensures Join(keys, ',') != [] && Join(keys, ',')[0] == keys[0][0]
    ensures !IsWhitespace(Join(keys, ',')[0]) && '\n' !in Join(keys, ',')
  {
    JoinStartsWith(keys, ',');
    JoinAvoids(keys, ',', '\n');
    assert Join(keys, ',')[..|keys[0]|] == keys[0];
  }

  lemma TableLineShape(rows: seq<Record>, keys: seq<string>, i: nat)
    requires |keys| >= 1 && KeyedTable(rows, keys) && i < |rows| + 1
    ensures TableLines(rows, keys)[i] != [] && !IsWhitespace(TableLines(rows, keys)[i][0])
    ensures '\n' !in TableLines(rows, keys)[i]
  {
    TableLinesAt(rows, keys);
    if i == 0 {
      HeaderLineShape(keys);
    } else {
      WrittenLineShape(rows[i - 1], keys);
    }
  }

  lemma TableLinesShape(rows: seq<Record>, keys: seq<string>)
    requires |keys| >= 1 && KeyedTable(rows, keys)
    ensures forall i :: 0 <= i < |rows| + 1 ==>
      TableLines(rows, keys)[i] != [] && !IsWhitespace(TableLines(rows, keys)[i][0]) && '\n' !in TableLines(rows, keys)[i]
  {
    var lines := TableLines(rows, keys);
    TableLinesAt(rows, keys);
    forall i | 0 <= i < |lines| ensures lines[i] != [] && !IsWhitespace(lines[i][0]) && '\n' !in lines[i] {
      TableLineShape(rows, keys, i);
    }
  }

  lemma TableLinesRecords(rows: seq<Record>, keys: seq<string>)
    requires |keys| >= 1 && Tabular(rows, keys)
    ensures CsvRecords(TableLines(rows, keys)) == rows
  {
    var lines := TableLines(rows, keys);
    PlainLineFields(keys);
    var records := CsvRecords(lines);
    forall i | 0 <= i < |rows| ensures records[i] == rows[i] {
      ObjectReadBack(rows[i], keys);
    }
  }

  /** Under distinct keys, the records read back from the written table have the
      keys in header order and each key's value in the matching object. */
  lemma TableLinesRecordsKeyed(rows: seq<Record>, keys: seq<string>)
    requires |keys| >= 1 && Distinct(keys) && KeyedTable(rows, keys)
    ensures |CsvRecords(TableLines(rows, keys))| == |rows|
    ensures forall i :: 0 <= i < |rows| ==> Keys(CsvRecords(TableLines(rows, keys))[i]) == keys
    ensures forall i, k :: 0 <= i < |rows| ==> Lookup(CsvRecords(TableLines(rows, keys))[i], k) == Lookup(rows[i], k)
  {
    var lines := TableLines(rows, keys);
    PlainLineFields(keys);
    var records := CsvRecords(lines);
    forall i | 0 <= i < |rows|
      ensures Keys(records[i]) == keys && forall k :: Lookup(records[i], k) == Lookup(rows[i], k)
    {
      ObjectReadBackLookup(rows[i], keys);
    }
  }

  /** The CSV conversion of JSON-looking text yields what the writer wrote. */
  lemma CsvConversion(text: string, parse: ParseOutcome, csv: string)
    requires LooksLikeJson(text) && parse.Parsed? && CsvOf(Elements(parse.json)) == Written(csv)
    ensures ConvertedText(text, Csv, parse) == Blob(Text(csv), "text/csv")
  {
  }

  /** JSON -> CSV -> JSON gives back the same records when all objects share
      the first object's keys in the same order, keys hold no `"`, `,` or line
      feed, values are non-empty strings without `"` or line feed, nothing has
      whitespace at either end, and the first key does not start with `{` or `[`.
      Either JSON shape, one object or an array, works. */
  lemma JsonCsvJsonRoundTrip(text: string, parse: ParseOutcome, rows: seq<Record>, reparse: ParseOutcome)
    requires |rows| >= 1 && Keys(rows[0]) != [] && Tabular(rows, Keys(rows[0]))
    requires Keys(rows[0])[0][0] != '{' && Keys(rows[0])[0][0] != '['
    requires parse == Parsed(List(Objects(rows))) || (|rows| == 1 && parse == Parsed(Single(rows[0])))
    requires LooksLikeJson(text)
    ensures ConvertedText(text, Csv, parse).payload.Text?
    ensures ConvertedText(ConvertedText(text, Csv, parse).payload.text, Json, reparse).payload == JsonRecords(rows)
  {
    var keys := Keys(rows[0]);
    assert Elements(parse.json) == Objects(rows);
    WrittenTable(rows);
    var lines := TableLines(rows, keys);
    TabularIsKeyed(rows, keys);
    TableLinesShape(rows, keys);
    HeaderLineShape(keys);
    JsonOfLines(lines, reparse);
    TableLinesRecords(rows, keys);
    CsvConversion(text, parse, Join(lines, '\n'));
  }

  /** The same round trip when each object lists the first object's keys in its
      own order: every record comes back with the keys in the first object's
      order and every key with its value, the header line being `Object.keys`
      of the first object and each later line written and read in that order. */
  lemma JsonCsvJsonRoundTripKeyed(text: string, parse: ParseOutcome, rows: seq<Record>, reparse: ParseOutcome)
    requires |rows| >= 1 && Keys(rows[0]) != [] && KeyedTable(rows, Keys(rows[0]))
    requires Keys(rows[0])[0][0] != '{' && Keys(rows[0])[0][0] != '['
    requires parse == Parsed(List(Objects(rows))) || (|rows| == 1 && parse == Parsed(Single(rows[0])))
    requires LooksLikeJson(text)
    ensures ConvertedText(text, Csv, parse).payload.Text?
    ensures var p := ConvertedText(ConvertedText(text, Csv, parse).payload.text, Json, reparse).payload;
      p.JsonRecords? && |p.records| == |rows|
      && (forall i :: 0 <= i < |rows| ==> Keys(p.records[i]) == Keys(rows[0]))
      && (forall i, k :: 0 <= i < |rows| ==> Lookup(p.records[i], k) == Lookup(rows[i], k))
  {
    var keys := Keys(rows[0]);
    assert Elements(parse.json) == Objects(rows);
    WrittenTable(rows);
    var lines := TableLines(rows, keys);
    TableLinesShape(rows, keys);
    HeaderLineShape(keys);
    JsonOfLines(lines, reparse);
    TableLinesRecordsKeyed(rows, keys);
    CsvConversion(text, parse, Join(lines, '\n'));
  }

  /** The lines of a table of plain cells: the header cells, then each row's cells, comma-separated. */
  function PlainLines(header: seq<string>, rows: seq<seq<string>>): seq<string>
  {
    [Join(header, ',')] + seq(|rows|, i requires 0 <= i < |rows| => Join(rows[i], ','))
  }

  lemma PlainLinesShape(header: seq<string>, rows: seq<seq<string>>)
    requires |header| >= 1 && PlainKeys(header)
    requires forall i :: 0 <= i < |rows| ==> |rows[i]| == |header| && PlainKeys(rows[i])
    ensures forall i :: 0 <= i < |rows| + 1 ==>
      PlainLines(header, rows)[i] != [] && !IsWhitespace(PlainLines(header, rows)[i][0]) && '\n' !in PlainLines(header, rows)[i]
    ensures PlainLines(header, rows)[0][0] == header[0][0]
  {
    var lines := PlainLines(header, rows);
    forall i | 0 <= i < |lines| ensures lines[i] != [] && !IsWhitespace(lines[i][0]) && '\n' !in lines[i] {
      if i == 0 {
        HeaderLineShape(header);
      } else {
        HeaderLineShape(rows[i - 1]);
      }
    }
    HeaderLineShape(header);
  }

  /** One plain data line under distinct plain headers becomes the object pairing them column by column. */
  lemma PlainRowObject(header: seq<string>, cells: seq<string>)
    requires |header| >= 1 && Distinct(header) && PlainKeys(header)
    requires |cells| == |header| && PlainKeys(cells)
    ensures |RowObject(header, CsvFields(Join(cells, ',')))| == |header|
    ensures forall j :: 0 <= j < |header| ==> RowObject(header, CsvFields(Join(cells, ',')))[j] == (header[j], JStr(cells[j]))
  {
    PlainLineFields(cells);
    RowObjectPlain(header, cells);
  }

  lemma PlainLinesRecordAt(header: seq<string>, rows: seq<seq<string>>, i: nat)
    requires |header| >= 1 && PlainKeys(header) && i < |rows|
    ensures CsvRecords(PlainLines(header, rows))[i] == RowObject(header, CsvFields(Join(rows[i], ',')))
  {
    PlainLineFields(header);
  }

  lemma PlainLinesRecords(header: seq<string>, rows: seq<seq<string>>)
    requires |header| >= 1 && Distinct(header) && PlainKeys(header)
    requires forall i :: 0 <= i < |rows| ==> |rows[i]| == |header| && PlainKeys(rows[i])
    ensures forall i :: 0 <= i < |rows| ==>
      |CsvRecords(PlainLines(header, rows))[i]| == |header| &&
      forall j :: 0 <= j < |header| ==> CsvRecords(PlainLines(header, rows))[i][j] == (header[j], JStr(rows[i][j]))
  {
    forall i | 0 <= i < |rows|
      ensures |CsvRecords(PlainLines(header, rows))[i]| == |header|
      ensures forall j :: 0 <= j < |header| ==> CsvRecords(PlainLines(header, rows))[i][j] == (header[j], JStr(rows[i][j]))
    {
      PlainLinesRecordAt(header, rows, i);
      PlainRowObject(header, rows[i]);
    }
  }

  /** CSV -> JSON on a table of plain cells with distinct headers: one object
      per data line, pairing each header with the cell in its column, in header order. */
  lemma CsvToJsonTable(header: seq<string>, rows: seq<seq<string>>, parse: ParseOutcome)
    requires |header| >= 1 && Distinct(header) && PlainKeys(header)
    requires header[0][0] != '{' && header[0][0] != '['
    requires forall i :: 0 <= i < |rows| ==> |rows[i]| == |header| && PlainKeys(rows[i])
    ensures ConvertedText(Join(PlainLines(header, rows), '\n'), Json, parse).payload
      == JsonRecords(CsvRecords(PlainLines(header, rows)))
    ensures var records := CsvRecords(PlainLines(header, rows));
      |records| == |rows| &&
      forall i :: 0 <= i < |rows| ==>
        |records[i]| == |header| && forall j :: 0 <= j < |header| ==> records[i][j] == (header[j], JStr(rows[i][j]))
  {
    PlainLinesShape(header, rows);
    JsonOfLines(PlainLines(header, rows), parse);
    PlainLinesRecords(header, rows);
  }

  lemma NameAgeText()
    ensures Join(PlainLines(["name", "age"], [["Ada", "36"], ["Lin", "29"]]), '\n') == "name,age\nAda,36\nLin,29"
  {
    var lines := PlainLines(["name", "age"], [["Ada", "36"], ["Lin", "29"]]);
    assert Join(["name", "age"], ',') == "name,age";
    assert Join(["Ada", "36"], ',') == "Ada,36";
    assert Join(["Lin", "29"], ',') == "Lin,29";
    assert lines == ["name,age", "Ada,36", "Lin,29"];
    JoinCons(lines, '\n');
    JoinCons(lines[1..], '\n');
    assert lines[1..][1..] == ["Lin,29"];
  }

  /** A non-empty run of ASCII letters and digits is a plain cell. */
  lemma AlphanumericIsPlain(s: string)
    requires s != [] && forall i :: 0 <= i < |s| ==> 'a' <= s[i] <= 'z' || 'A' <= s[i] <= 'Z' || '0' <= s[i] <= '9'
    ensures PlainCell(s)
  {
  }

  lemma NameAgeCellsArePlain()
    ensures Distinct(["name", "age"]) && PlainKeys(["name", "age"])
    ensures PlainKeys(["Ada", "36"]) && PlainKeys(["Lin", "29"])
  {
    AlphanumericIsPlain("name");
    AlphanumericIsPlain("age");
    AlphanumericIsPlain("Ada");
    AlphanumericIsPlain("36");
    AlphanumericIsPlain("Lin");
    AlphanumericIsPlain("29");
  }

  /** The worked example: `name,age` over two data lines becomes two objects with string values. */
  lemma NameAgeExample(parse: ParseOutcome)
    ensures var p := ConvertedText("name,age\nAda,36\nLin,29", Json, parse).payload;
      && p.JsonRecords? && |p.records| == 2
      && p.records[0] == [("name", JStr("Ada")), ("age", JStr("36"))]
      && p.records[1] == [("name", JStr("Lin")), ("age", JStr("29"))]
  {
    var header := ["name", "age"];
    var rows := [["Ada", "36"], ["Lin", "29"]];
    NameAgeText();
    NameAgeCellsArePlain();
    CsvToJsonTable(header, rows, parse);
    var records := CsvRecords(PlainLines(header, rows));
    TwoFields(records[0], "name", "age", "Ada", "36");
    TwoFields(records[1], "name", "age", "Lin", "29");
  }

  /** A two-entry record is its two entries, a step of `NameAgeExample`'s proof. */
  lemma TwoFields(r: Record, k0: string, k1: string, v0: string, v1: string)
    requires |r| == 2 && r[0] == (k0, JStr(v0)) && r[1] == (k1, JStr(v1))
    ensures r == [(k0, JStr(v0)), (k1, JStr(v1))]
  {
  }

  /** The reader drops every `"`: a quoted field reads back as its content
      without quotes, trimmed. */
  lemma QuotedFieldReadsBack(v: string)
    ensures CsvFields(QuoteField(v)) == [Trim(RemoveQuotes(v))]
  {
    QuotedFieldScan(v);
    assert RawFields(QuoteField(v)) == [RemoveQuotes(v)];
    TrimSubset(RemoveQuotes(v), '"');
    EdgeQuoteStripIsNoOp(Trim(RemoveQuotes(v)));
  }

  /** So a value holding a `"` never survives CSV: the writer doubles it as
      `""` and the reader drops both. */
  lemma QuoteInValueIsLost(v: string)
    requires '"' in v
    ensures CsvFields(QuoteField(v)) != [v]
  {
    QuotedFieldReadsBack(v);
    TrimSubset(RemoveQuotes(v), '"');
  }
}
