/** The CSV export of public/app.js: `extractMainData`, `csvEscape` and
    `toCsv`, together with a reader for the format of section 2 of RFC 4180
    (records separated by line breaks, fields by commas, a field in double
    quotes may hold commas, line breaks and doubled double quotes) against
    which the export is proved to read back as the table it was built from. */
module Export {
  import opened Wrappers
  import opened Text
  import opened Server

  // ---------------------------------------------------------------------------
  // extractMainData
  // ---------------------------------------------------------------------------

  /** `{}`: a record with none of the fields. */
  const EmptyRecord: Vehicle := Vehicle(None, None, None, None, None, None)

  /** `extractMainData(item)`: `data` wrapped in an array unless it is one,
      then its first element, or `{}` when that is missing or falsy. A failed
      item has no `data`, so it yields `{}` too. */
  function ExtractMainData(item: LookupResult): (main: Vehicle)
    ensures item.Found? && item.data.Entries? && item.data.entries != [] ==> main == item.data.entries[0].GetOr(EmptyRecord)
    ensures item.Found? && item.data.Entries? && item.data.entries == [] ==> main == EmptyRecord
    ensures item.Found? && item.data.Single? ==> main == item.data.value.GetOr(EmptyRecord)
    ensures item.Failed? ==> main == EmptyRecord
  {
    var data := match item
      case Found(_, Entries(entries)) => entries
      case Found(_, Single(value)) => [value]
      case Failed(_, _, _) => [None];
    if data != [] && data[0].Some? then data[0].value else EmptyRecord
  }

  // ---------------------------------------------------------------------------
  // csvEscape
  // ---------------------------------------------------------------------------

  /** The test `/["\n,;]/`. */
  predicate NeedsQuoting(s: string) {
    '"' in s || '\n' in s || ',' in s || ';' in s
  }

  /** `s.replace(/"/g, '""')`. */
  function DoubleQuotes(s: string): string {
    if s == [] then []
    else (if s[0] == '"' then "\"\"" else [s[0]]) + DoubleQuotes(s[1..])
  }

  /** `csvEscape(value)`; None stands for `null` and `undefined`. */
  function CsvEscape(value: Option<string>): (field: string)
    ensures value.None? ==> field == ""
    ensures value.Some? && !NeedsQuoting(value.value) ==> field == value.value
    ensures value.Some? && NeedsQuoting(value.value) ==> |field| >= 2 && field[0] == '"' && field[|field| - 1] == '"'
  {
    match value
    case None => ""
    case Some(s) => if NeedsQuoting(s) then "\"" + DoubleQuotes(s) + "\"" else s
  }

  /** Worked case: the value `He said, "hi"` followed by a line break and
      `line2` (written here as its three pieces) is quoted, with its quotes
      doubled and its line break kept inside the quotes. */
  lemma CsvEscapeExample()
    ensures CsvEscape(Some("He said, " + "\"hi\"" + "\nline2")) == "\"" + "He said, " + "\"\"hi\"\"" + "\nline2" + "\""
  {
    var a, q, c := "He said, ", "\"\"hi\"\"", "\nline2";
    ExampleNeedsQuoting();
    ExampleDoubleQuotes();
    AppendAssociative("\"", a + q, c);
    AppendAssociative("\"", a, q);
  }

  lemma ExampleNeedsQuoting()
    ensures NeedsQuoting("He said, " + "\"hi\"" + "\nline2")
  {
    assert ("He said, " + "\"hi\"" + "\nline2")[7] == ',';
  }

  lemma ExampleDoubleQuotes()
    ensures DoubleQuotes("He said, " + "\"hi\"" + "\nline2") == "He said, " + "\"\"hi\"\"" + "\nline2"
  {
    var a, b, c := "He said, ", "\"hi\"", "\nline2";
    DoubleQuotesAppend(a + b, c);
    DoubleQuotesAppend(a, b);
    PlainPartsExample();
    QuotedWordExample();
  }

  lemma PlainPartsExample()
    ensures DoubleQuotes("He said, ") == "He said, "
    ensures DoubleQuotes("\nline2") == "\nline2"
  {
    PlainHeadExample();
    PlainTailExample();
  }

  lemma PlainHeadExample()
    ensures DoubleQuotes("He said, ") == "He said, "
  {
    DoubleQuotesOfPlain("He said, ");
  }

  lemma PlainTailExample()
    ensures DoubleQuotes("\nline2") == "\nline2"
  {
    DoubleQuotesOfPlain("\nline2");
  }

  lemma QuotedWordExample()
    ensures DoubleQuotes("\"hi\"") == "\"\"hi\"\""
  {
    assert DoubleQuotes("\"") == "\"\"" by {
      assert "\""[1..] == "";
    }
    assert DoubleQuotes("i\"") == "i\"\"" by {
      assert "i\""[1..] == "\"";
    }
    assert DoubleQuotes("hi\"") == "hi\"\"" by {
      assert "hi\""[1..] == "i\"";
    }
    assert "\"hi\""[1..] == "hi\"";
  }

  lemma {:induction false} DoubleQuotesAppend(a: string, b: string)
    ensures DoubleQuotes(a + b) == DoubleQuotes(a) + DoubleQuotes(b)
  {
    if a == [] {
      assert a + b == b;
    } else {
      assert (a + b)[0] == a[0] && (a + b)[1..] == a[1..] + b;
      DoubleQuotesAppend(a[1..], b);
      var head := if a[0] == '"' then "\"\"" else [a[0]];
      AppendAssociative(head, DoubleQuotes(a[1..]), DoubleQuotes(b));
    }
  }

  lemma {:induction false} DoubleQuotesOfPlain(s: string)
    requires '"' !in s
    ensures DoubleQuotes(s) == s
  {
    if s != [] {
      assert s[0] in s;
      assert forall c :: c in s[1..] ==> c in s;
      DoubleQuotesOfPlain(s[1..]);
      assert [s[0]] + s[1..] == s;
    }
  }

  /** `cells.map(csvEscape)`. */
  function EscapeAll(cells: seq<string>): (fields: seq<string>)
    ensures |fields| == |cells|
  {
    if cells == [] then [] else [CsvEscape(Some(cells[0]))] + EscapeAll(cells[1..])
  }

  /** One CSV line: the cells escaped and joined by commas. */
  function EncodeRecord(cells: seq<string>): string {
    JoinWith(EscapeAll(cells), ",")
  }

  // ---------------------------------------------------------------------------
  // A reader for section 2 of RFC 4180, with line feed as the line break
  // ---------------------------------------------------------------------------

  /** An unquoted field: everything up to the next comma or line break. */
  function ReadUnquoted(s: string): (r: (string, string))
    ensures |r.1| <= |s|
  {
    if s == [] || s[0] == ',' || s[0] == '\n' then ("", s)
    else
      var p := ReadUnquoted(s[1..]);
      ([s[0]] + p.0, p.1)
  }

  /** The rest of a quoted field after its opening quote: two double quotes
      stand for one, a single double quote closes the field. */
  function ReadQuoted(s: string): (r: (string, string))
    ensures |r.1| <= |s|
  {
    if s == [] then ("", [])
    else if s[0] == '"' then
      if |s| >= 2 && s[1] == '"' then
        var p := ReadQuoted(s[2..]);
        ("\"" + p.0, p.1)
      else ("", s[1..])
    else
      var p := ReadQuoted(s[1..]);
      ([s[0]] + p.0, p.1)
  }

  /** One field, and what follows it. */
  function ReadField(s: string): (r: (string, string))
    ensures |r.1| <= |s|
  {
    if s != [] && s[0] == '"' then ReadQuoted(s[1..]) else ReadUnquoted(s)
  }

  /** One record (fields separated by commas), and what follows it. */
  function ReadRecord(s: string): (r: (seq<string>, string))
    ensures |r.1| <= |s|
    decreases |s|
  {
    var p := ReadField(s);
    if p.1 != [] && p.1[0] == ',' then
      var q := ReadRecord(p.1[1..]);
      ([p.0] + q.0, q.1)
    else ([p.0], p.1)
  }

  /** All records of a document (records separated by line breaks). */
  function ReadDocument(s: string): seq<seq<string>>
    decreases |s|
  {
    var r := ReadRecord(s);
    if r.1 == [] then [r.0] else [r.0] + ReadDocument(r.1[1..])
  }

  // ---------------------------------------------------------------------------
  // csvEscape reads back
  // ---------------------------------------------------------------------------

  predicate EndsField(rest: string) {
    rest == [] || rest[0] == ',' || rest[0] == '\n'
  }

  lemma {:induction false} ReadUnquotedPlain(s: string, rest: string)
    requires !NeedsQuoting(s) && EndsField(rest)
    ensures ReadUnquoted(s + rest) == (s, rest)
  {
    if s == [] {
      assert s + rest == rest;
    } else {
      assert (s + rest)[0] == s[0] && (s + rest)[1..] == s[1..] + rest;
      assert s[0] in s;
      assert !NeedsQuoting(s[1..]) by {
        forall c | c in s[1..] ensures c in s {
        }
      }
      ReadUnquotedPlain(s[1..], rest);
      assert [s[0]] + s[1..] == s;
    }
  }

  lemma {:induction false} ReadQuotedDoubled(s: string, rest: string)
    requires EndsField(rest)
    ensures ReadQuoted(DoubleQuotes(s) + "\"" + rest) == (s, rest)
  {
    var t := DoubleQuotes(s) + "\"" + rest;
    if s == [] {
      assert t == "\"" + rest;
      assert t[1..] == rest;
    } else {
      var head := if s[0] == '"' then "\"\"" else [s[0]];
      var tail := DoubleQuotes(s[1..]) + "\"" + rest;
      ReadQuotedDoubled(s[1..], rest);
      assert t == head + tail by {
        AppendAssociative(head, DoubleQuotes(s[1..]), "\"");
        AppendAssociative(head, DoubleQuotes(s[1..]) + "\"", rest);
      }
      assert t[|head|..] == tail;
      assert [s[0]] + s[1..] == s;
    }
  }

  /** A reader recovers any escaped value, whatever field or record follows it. */
  lemma CsvEscapeReadsBack(s: string, rest: string)
    requires EndsField(rest)
    ensures ReadField(CsvEscape(Some(s)) + rest) == (s, rest)
  {
    var field := CsvEscape(Some(s));
    if NeedsQuoting(s) {
      assert field + rest == "\"" + (DoubleQuotes(s) + "\"" + rest);
      ReadQuotedDoubled(s, rest);
    } else {
      if s != [] {
        assert s[0] in s;
      }
      assert (field + rest) != [] ==> (field + rest)[0] != '"';
      ReadUnquotedPlain(s, rest);
    }
  }

  lemma {:induction false} EncodeRecordReadsBack(cells: seq<string>, rest: string)
    requires |cells| >= 1
    requires rest == [] || rest[0] == '\n'
    ensures ReadRecord(EncodeRecord(cells) + rest) == (cells, rest)
  {
    var fields := EscapeAll(cells);
    assert fields[0] == CsvEscape(Some(cells[0]));
    if |cells| == 1 {
      assert EncodeRecord(cells) + rest == fields[0] + rest;
      CsvEscapeReadsBack(cells[0], rest);
      assert cells == [cells[0]];
    } else {
      assert fields[1..] == EscapeAll(cells[1..]);
      var tail := EncodeRecord(cells[1..]) + rest;
      assert EncodeRecord(cells) + rest == fields[0] + ("," + tail);
      CsvEscapeReadsBack(cells[0], "," + tail);
      assert ("," + tail)[1..] == tail;
      EncodeRecordReadsBack(cells[1..], rest);
      assert [cells[0]] + cells[1..] == cells;
    }
  }

  /** The lines of a table, one per record. */
  function EncodeLines(records: seq<seq<string>>): (lines: seq<string>)
    ensures |lines| == |records|
  {
    if records == [] then [] else [EncodeRecord(records[0])] + EncodeLines(records[1..])
  }

  /** A table of non-empty records, written one line per record, reads back as itself. */
  lemma {:induction false} EncodeLinesReadBack(records: seq<seq<string>>)
    requires |records| >= 1
    requires forall i :: 0 <= i < |records| ==> |records[i]| >= 1
    ensures ReadDocument(JoinWith(EncodeLines(records), "\n")) == records
  {
    var lines := EncodeLines(records);
    assert lines[0] == EncodeRecord(records[0]);
    if |records| == 1 {
      assert JoinWith(lines, "\n") == EncodeRecord(records[0]) + [];
      EncodeRecordReadsBack(records[0], []);
    } else {
      assert lines[1..] == EncodeLines(records[1..]);
      var tail := JoinWith(EncodeLines(records[1..]), "\n");
      assert JoinWith(lines, "\n") == EncodeRecord(records[0]) + ("\n" + tail);
      EncodeRecordReadsBack(records[0], "\n" + tail);
      assert ("\n" + tail)[1..] == tail;
      EncodeLinesReadBack(records[1..]);
      assert [records[0]] + records[1..] == records;
    }
  }

  // ---------------------------------------------------------------------------
  // toCsv
  // ---------------------------------------------------------------------------

  const Headers: seq<string> :=
    ["codigo", "status", "erro", "marca", "modelo", "anoModelo", "combustivel", "valor", "mesReferencia"]

  /** The row object toCsv builds for one result, keyed by the headers. */
  datatype CsvRow = CsvRow(
    codigo: string, status: string, erro: string,
    marca: string, modelo: string, anoModelo: string,
    combustivel: string, valor: string, mesReferencia: string)

  /** `headers.map((key) => row[key])`: the cells in header order. */
  function Cells(row: CsvRow): (cells: seq<string>)
    ensures |cells| == |Headers|
  {
    [row.codigo, row.status, row.erro, row.marca, row.modelo, row.anoModelo, row.combustivel, row.valor, row.mesReferencia]
  }

  const FailureLabel: string := "erro"
  const FailureMessage: string := "Falha na consulta"

  /** The `results.map` callback of toCsv. */
  function ToRow(item: LookupResult): (row: CsvRow)
    ensures row.codigo == item.code
    ensures item.Failed? <==> row.status != "ok"
    ensures item.Failed? ==> row.erro == (if item.error == "" then FailureMessage else item.error)
    ensures item.Failed? ==> row.erro != ""
    ensures item.Failed? ==> (row.status == FailureLabel <==> item.status == 0)
    ensures item.Failed? && item.status != 0 ==> AllDigits(row.status) && DecimalValue(row.status) == item.status
    ensures item.Failed? && item.status != 0 ==> row.status == DecimalString(item.status)
    ensures item.Failed? ==> Cells(row)[3..] == ["", "", "", "", "", ""]
    ensures item.Found? ==> row.erro == ""
    ensures item.Found? ==>
      var main := ExtractMainData(item);
      Cells(row)[3..] == [main.marca.GetOr(""), main.modelo.GetOr(""), main.anoModelo.GetOr(""),
                          main.combustivel.GetOr(""), main.valor.GetOr(""), main.mesReferencia.GetOr("")]
  {
    match item
    case Failed(code, status, error) =>
      DecimalRoundTrip(status);
      CsvRow(code,
             if status == 0 then FailureLabel else DecimalString(status),
             if error == "" then FailureMessage else error,
             "", "", "", "", "", "")
    case Found(code, _) =>
      var main := ExtractMainData(item);
      CsvRow(code, "ok", "",
             main.marca.GetOr(""), main.modelo.GetOr(""), main.anoModelo.GetOr(""),
             main.combustivel.GetOr(""), main.valor.GetOr(""), main.mesReferencia.GetOr(""))
  }

  /** The table toCsv writes: the headers, then one row per result. */
  function CsvTable(results: seq<LookupResult>): (table: seq<seq<string>>)
    ensures |table| == |results| + 1
  {
    [Headers] + seq(|results|, i requires 0 <= i < |results| => Cells(ToRow(results[i])))
  }

  /** `toCsv(results)`. */
  method ToCsv(results: seq<LookupResult>) returns (csv: string)
    ensures csv == JoinWith(EncodeLines(CsvTable(results)), "\n")
  {
    var rows := seq(|results|, i requires 0 <= i < |results| => ToRow(results[i]));
    HeadersArePlain();
    var lines := [JoinWith(Headers, ",")];
    for i := 0 to |rows|
      invariant lines == EncodeLines(CsvTable(results[..i]))
    {
      var line := JoinWith(EscapeAll(Cells(rows[i])), ",");
      CsvTableSnoc(results, i);
      EncodeLinesSnoc(CsvTable(results[..i]), Cells(ToRow(results[i])));
      lines := lines + [line];
    }
    assert results[..|rows|] == results;
    csv := JoinWith(lines, "\n");
  }

  lemma CsvTableSnoc(results: seq<LookupResult>, i: nat)
    requires i < |results|
    ensures CsvTable(results[..i + 1]) == CsvTable(results[..i]) + [Cells(ToRow(results[i]))]
  {
    var a := CsvTable(results[..i + 1]);
    var b := CsvTable(results[..i]) + [Cells(ToRow(results[i]))];
    assert |a| == |b|;
    forall k | 0 <= k < |a| ensures a[k] == b[k] {
      if k > 0 {
        assert results[..i + 1][k - 1] == results[k - 1];
      }
    }
  }

  /** No header needs quoting, so the unescaped header line is also its escaped form. */
  lemma HeadersArePlain()
    ensures EscapeAll(Headers) == Headers
    ensures EncodeLines(CsvTable([])) == [JoinWith(Headers, ",")]
  {
    HeaderNamesArePlain();
    EscapeAllPlain(Headers);
    assert CsvTable([]) == [Headers];
  }

  lemma HeaderNamesArePlain()
    ensures forall c :: c in Headers ==> !NeedsQuoting(c)
  {
    LettersArePlain("codigo");
    LettersArePlain("status");
    LettersArePlain("erro");
    LettersArePlain("marca");
    LettersArePlain("modelo");
    LettersArePlain("anoModelo");
    LettersArePlain("combustivel");
    LettersArePlain("valor");
    LettersArePlain("mesReferencia");
  }

  /** A word of ASCII letters holds none of the characters that force quoting. */
  lemma LettersArePlain(s: string)
    requires forall i :: 0 <= i < |s| ==> 'A' <= s[i] <= 'z'
    ensures !NeedsQuoting(s)
  {
  }

  lemma {:induction false} EscapeAllPlain(cells: seq<string>)
    requires forall c :: c in cells ==> !NeedsQuoting(c)
    ensures EscapeAll(cells) == cells
  {
    if cells != [] {
      assert cells[0] in cells;
      assert forall c :: c in cells[1..] ==> c in cells;
      EscapeAllPlain(cells[1..]);
    }
  }

  lemma {:induction false} EncodeLinesSnoc(records: seq<seq<string>>, record: seq<string>)
    ensures EncodeLines(records + [record]) == EncodeLines(records) + [EncodeRecord(record)]
  {
    if records == [] {
      assert records + [record] == [record];
    } else {
      assert (records + [record])[0] == records[0];
      assert (records + [record])[1..] == records[1..] + [record];
      EncodeLinesSnoc(records[1..], record);
    }
  }

  /** What toCsv writes reads back, under section 2 of RFC 4180, as the header
      row followed by one nine-field row per result, in order. */
  lemma ToCsvReadsBack(results: seq<LookupResult>)
    ensures ReadDocument(JoinWith(EncodeLines(CsvTable(results)), "\n")) == CsvTable(results)
    ensures var table := CsvTable(results);
      table[0] == Headers && forall i :: 0 <= i < |table| ==> |table[i]| == |Headers|
  {
    var table := CsvTable(results);
    forall i | 0 <= i < |table| ensures |table[i]| == |Headers| {
    }
    EncodeLinesReadBack(table);
  }
}
