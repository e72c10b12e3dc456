/** The CSV line scanner: a left-to-right pass with one quote-toggle flag.
    A `"` only toggles the flag and is never kept, a `,` outside quotes ends
    the current field, every other character extends it; each finished field
    is then trimmed and has one leading and one trailing `"` stripped. */
module CsvLine {
  import opened Strings

  /** The scanner's variables: the finished (raw) fields, the field being
      read and the `inQuotes` flag. */
  datatype Scanner = Scanner(done: seq<string>, current: string, inQuotes: bool)

  const Start := Scanner([], "", false)

  /** One iteration of the scanning loop. */
  function Step(s: Scanner, c: char): Scanner {
    if c == '"' then s.(inQuotes := !s.inQuotes)
    else if c == ',' && !s.inQuotes then Scanner(s.done + [s.current], "", s.inQuotes)
    else s.(current := s.current + [c])
  }

  /** The scanner after reading all of `t`. */
  function Scan(t: string): Scanner {
    if t == [] then Start else Step(Scan(t[..|t| - 1]), t[|t| - 1])
  }

  /** The untrimmed fields of `t`: the finished ones and the last one. */
  function RawFields(t: string): (r: seq<string>)
    ensures |r| >= 1
  {
    Scan(t).done + [Scan(t).current]
  }

  /** `s.replace(/^"|"$/g, '')`: one leading and one trailing `"` removed. */
  function StripEdgeQuotes(s: string): string {
    var s' := if s != [] && s[0] == '"' then s[1..] else s;
    if s' != [] && s'[|s'| - 1] == '"' then s'[..|s'| - 1] else s'
  }

  /** What the scanner stores for a finished field: `current.trim().replace(/^"|"$/g, '')`. */
  function Clean(field: string): string {
    StripEdgeQuotes(Trim(field))
  }

  /** The fields `parseCSVLine` returns for `t`. */
  function CsvFields(t: string): seq<string> {
    var raw := RawFields(t);
    seq(|raw|, k requires 0 <= k < |raw| => Clean(raw[k]))
  }

  /** `parseCSVLine`. */
  method ParseCsvLine(text: string) returns (fields: seq<string>)
    ensures fields == CsvFields(text)
  {
    var result: seq<string> := [];
    var current := "";
    var inQuotes := false;
    for i := 0 to |text|
      invariant |result| == |Scan(text[..i]).done|
      invariant forall k :: 0 <= k < |result| ==> result[k] == Clean(Scan(text[..i]).done[k])
      invariant current == Scan(text[..i]).current
      invariant inQuotes == Scan(text[..i]).inQuotes
    {
      var c := text[i];
      assert text[..i + 1][..i] == text[..i];
      ghost var s := Scan(text[..i]);
      assert Scan(text[..i + 1]) == Step(s, c);
      if c == '"' {
        inQuotes := !inQuotes;
      } else if c == ',' && !inQuotes {
        result := result + [Clean(current)];
        current := "";
      } else {
        current := current + [c];
      }
    }
    assert text[..|text|] == text;
    result := result + [Clean(current)];
    fields := result;
    assert |fields| == |CsvFields(text)|;
    forall k | 0 <= k < |fields| ensures fields[k] == CsvFields(text)[k] {
      assert RawFields(text)[k] == if k < |Scan(text).done| then Scan(text).done[k] else Scan(text).current;
    }
  }

  // ---- What the scanner guarantees ----

  /** Number of `"` in `t`. */
  function QuoteCount(t: string): nat {
    if t == [] then 0 else QuoteCount(t[..|t| - 1]) + (if t[|t| - 1] == '"' then 1 else 0)
  }

  /** Inside quotes: an odd number of `"` read so far. */
  predicate InQuotes(t: string) {
    QuoteCount(t) % 2 == 1
  }

  /** Number of commas of `t` that are preceded by an even number of `"`. */
  function UnquotedCommas(t: string): nat {
    if t == [] then 0
    else
      var p := t[..|t| - 1];
      UnquotedCommas(p) + (if t[|t| - 1] == ',' && !InQuotes(p) then 1 else 0)
  }

  /** The flag is the parity of the quotes read, and the number of finished
      fields is the number of commas read outside quotes. */
  lemma {:induction false} ScanCounts(t: string)
    ensures Scan(t).inQuotes == InQuotes(t)
    ensures |Scan(t).done| == UnquotedCommas(t)
  {
    if t != [] {
      ScanCounts(t[..|t| - 1]);
    }
  }

  /** There is exactly one more field than there are commas outside quotes. */
  lemma FieldCount(t: string)
    ensures |CsvFields(t)| == UnquotedCommas(t) + 1
  {
    ScanCounts(t);
  }

  /** No raw field contains a quote. */
  lemma {:induction false} RawFieldsQuoteFree(t: string)
    ensures forall k :: 0 <= k < |RawFields(t)| ==> '"' !in RawFields(t)[k]
  {
    if t != [] {
      var p, c := t[..|t| - 1], t[|t| - 1];
      RawFieldsQuoteFree(p);
      var s := Scan(p);
      assert forall k :: 0 <= k < |s.done| ==> s.done[k] == RawFields(p)[k];
      assert s.current == RawFields(p)[|s.done|];
      if c != '"' && !(c == ',' && !s.inQuotes) {
        assert '"' !in s.current + [c];
      }
    }
  }

  /** Joining the raw fields with commas gives back the line with every quote
      removed: separating commas are the joints, quoted commas stay inside
      their field, and nothing else is lost. */
  lemma {:induction false} JoinRawFields(t: string)
    ensures Join(RawFields(t), ',') == RemoveQuotes(t)
  {
    if t != [] {
      var p, c := t[..|t| - 1], t[|t| - 1];
      JoinRawFields(p);
      var s := Scan(p);
      if c == '"' {
        assert RemoveQuotes(p) + [] == RemoveQuotes(p);
      } else if c == ',' && !s.inQuotes {
        JoinSnoc(s.done + [s.current], "", ',');
        assert RawFields(t) == (s.done + [s.current]) + [""];
      } else {
        JoinExtendLast(s.done + [s.current], c, ',');
        assert (s.done + [s.current])[..|s.done|] == s.done;
      }
    }
  }

  /** Stripping edge quotes never changes a quote-free string. */
  lemma EdgeQuoteStripIsNoOp(s: string)
    requires '"' !in s
    ensures StripEdgeQuotes(s) == s
  {
  }

  /** A field is the trimmed raw field: it has no quote and no whitespace at either end. */
  lemma FieldShape(t: string, k: nat)
    requires k < |CsvFields(t)|
    ensures CsvFields(t)[k] == Trim(RawFields(t)[k])
    ensures '"' !in CsvFields(t)[k] && IsTrimmed(CsvFields(t)[k])
  {
    RawFieldsQuoteFree(t);
    TrimSubset(RawFields(t)[k], '"');
    TrimIsTrimmed(RawFields(t)[k]);
    EdgeQuoteStripIsNoOp(Trim(RawFields(t)[k]));
  }

  // ---- Reading back what the CSV writer produces ----

  /** A field as the CSV writer emits it: quotes doubled, then wrapped in quotes. */
  function QuoteField(v: string): string {
    "\"" + DoubleQuotes(v) + "\""
  }

  function QuoteAll(vs: seq<string>): (qs: seq<string>)
    ensures |qs| == |vs| && forall i :: 0 <= i < |vs| ==> qs[i] == QuoteField(vs[i])
  {
    if vs == [] then [] else QuoteAll(vs[..|vs| - 1]) + [QuoteField(vs[|vs| - 1])]
  }

  /** The scanner after `prefix` fields were finished before it started on `s`. */
  function Resume(prefix: seq<string>, s: Scanner): Scanner {
    Scanner(prefix + s.done, s.current, s.inQuotes)
  }

  lemma StepResume(prefix: seq<string>, s: Scanner, c: char)
    ensures Step(Resume(prefix, s), c) == Resume(prefix, Step(s, c))
  {
    AppendAssoc(prefix, s.done, [s.current]);
  }

  /** After a comma read outside quotes, the scanner reads what follows as a fresh line. */
  lemma {:induction false} ScanAfterComma(a: string, b: string)
    requires !Scan(a).inQuotes
    ensures Scan(a + [','] + b) == Resume(RawFields(a), Scan(b))
  {
    if b == [] {
      assert a + [','] + b == a + [','];
      assert (a + [','])[..|a|] == a;
      assert RawFields(a) + [] == RawFields(a);
    } else {
      var b', c := b[..|b| - 1], b[|b| - 1];
      ScanAfterComma(a, b');
      assert (a + [','] + b)[..|a + [','] + b| - 1] == a + [','] + b';
      StepResume(RawFields(a), Scan(b'), c);
    }
  }

  lemma RawFieldsAfterComma(a: string, b: string)
    requires !Scan(a).inQuotes
    ensures RawFields(a + [','] + b) == RawFields(a) + RawFields(b)
    ensures Scan(a + [','] + b).inQuotes == Scan(b).inQuotes
  {
    ScanAfterComma(a, b);
    AppendAssoc(RawFields(a), Scan(b).done, [Scan(b).current]);
  }

  /** Reading `"` followed by a doubled-quote string leaves the scanner inside
      quotes, reading one field that holds the string without its quotes. */
  lemma {:induction false} OpenQuotedField(v: string)
    ensures Scan("\"" + DoubleQuotes(v)) == Scanner([], RemoveQuotes(v), true)
  {
    if v == [] {
      assert "\"" + DoubleQuotes(v) == "\"";
      assert "\""[..0] == [];
    } else {
      var v', c := v[..|v| - 1], v[|v| - 1];
      OpenQuotedField(v');
      var s := "\"" + DoubleQuotes(v');
      AppendAssoc("\"", DoubleQuotes(v'), DoubledChar(c));
      if c == '"' {
        assert "\"" + DoubleQuotes(v) == s + ['"'] + ['"'];
        assert (s + ['"'] + ['"'])[..|s| + 1] == s + ['"'];
        assert (s + ['"'])[..|s|] == s;
        assert RemoveQuotes(v') + [] == RemoveQuotes(v');
      } else {
        assert "\"" + DoubleQuotes(v) == s + [c];
        assert (s + [c])[..|s|] == s;
      }
    }
  }

  /** A quoted field reads back as the original value with its quotes removed,
      and leaves the scanner outside quotes. */
  lemma QuotedFieldScan(v: string)
    ensures Scan(QuoteField(v)) == Scanner([], RemoveQuotes(v), false)
  {
    OpenQuotedField(v);
    var s := "\"" + DoubleQuotes(v);
    assert QuoteField(v) == s + ['"'];
    assert (s + ['"'])[..|s|] == s;
  }

  /** A comma-joined list of quoted fields reads back as the values without
      their quotes, and ends outside quotes. */
  lemma {:induction false} QuotedLineRaw(vs: seq<string>)
    requires |vs| >= 1
    ensures |RawFields(Join(QuoteAll(vs), ','))| == |vs|
    ensures forall i :: 0 <= i < |vs| ==> RawFields(Join(QuoteAll(vs), ','))[i] == RemoveQuotes(vs[i])
    ensures !Scan(Join(QuoteAll(vs), ',')).inQuotes
  {
    var init, last := vs[..|vs| - 1], vs[|vs| - 1];
    QuotedFieldScan(last);
    assert RawFields(QuoteField(last)) == [RemoveQuotes(last)];
    if |vs| > 1 {
      QuotedLineRaw(init);
      var j := Join(QuoteAll(init), ',');
      assert QuoteAll(vs) == QuoteAll(init) + [QuoteField(last)];
      JoinSnoc(QuoteAll(init), QuoteField(last), ',');
      RawFieldsAfterComma(j, QuoteField(last));
      var raw := RawFields(Join(QuoteAll(vs), ','));
      assert raw == RawFields(j) + [RemoveQuotes(last)];
      forall i | 0 <= i < |vs| ensures raw[i] == RemoveQuotes(vs[i]) {
        if i < |init| {
          assert raw[i] == RawFields(j)[i];
          assert init[i] == vs[i];
        }
      }
    } else {
      assert Join(QuoteAll(vs), ',') == QuoteField(last);
    }
  }

  /** A field with no quote and no comma reads back unchanged. */
  lemma {:induction false} PlainFieldScan(k: string)
    requires '"' !in k && ',' !in k
    ensures Scan(k) == Scanner([], k, false)
  {
    if k != [] {
      PlainFieldScan(k[..|k| - 1]);
      assert k == k[..|k| - 1] + [k[|k| - 1]];
    }
  }

  /** A comma-joined list of plain names reads back as the names. */
  lemma {:induction false} PlainLineRaw(ks: seq<string>)
    requires |ks| >= 1
    requires forall i :: 0 <= i < |ks| ==> '"' !in ks[i] && ',' !in ks[i]
    ensures RawFields(Join(ks, ',')) == ks
    ensures !Scan(Join(ks, ',')).inQuotes
  {
    var init, last := ks[..|ks| - 1], ks[|ks| - 1];
    PlainFieldScan(last);
    if |ks| > 1 {
      PlainLineRaw(init);
      JoinSnoc(init, last, ',');
      RawFieldsAfterComma(Join(init, ','), last);
      assert init + [last] == ks;
    }
  }
}
