/**
 * What the exports write: the table as tab-delimited text (`.txt`), as
 * comma-separated values (`.csv`, Python's `csv.writer` defaults), as value
 * lists for the `observations` table (`.sqlite`), and the flat text dump of a
 * stored scan.
 */
module Export {
  import opened Wrappers
  import opened Text
  import opened Records
  import opened Store

  /** `item.text() if item else ''` */
  function CellText(c: Cell): string
  {
    c.GetOr("")
  }

  function CellTexts(row: Row): (r: seq<string>)
    ensures |r| == |row|
  {
    seq(|row|, j requires 0 <= j < |row| => CellText(row[j]))
  }

  /** One line of the `.txt` export: the fields joined by tabs, then a line break. */
  function TxtLine(fields: seq<string>): string
  {
    Join(fields, '\t') + "\n"
  }

  /** The lines of the `.txt` export after its header, one per row. */
  function TxtRows(rows: seq<Row>): string
  {
    if rows == [] then ""
    else TxtRows(rows[..|rows| - 1]) + TxtLine(CellTexts(rows[|rows| - 1]))
  }

  /** A tab-delimited text: the header line, then one line per row. */
  function TxtDocument(head: seq<string>, rows: seq<Row>): string
  {
    TxtLine(head) + TxtRows(rows)
  }

  /** The `.txt` export of the table. */
  function TxtExport(rows: seq<Row>): string
  {
    TxtDocument(Headers, rows)
  }

  /** The texts of a row, joined by tabs. */
  function TabJoined(row: Row): string
  {
    Join(CellTexts(row), '\t')
  }

  /** No item of any row holds the character `c`. */
  predicate NoCellHolds(rows: seq<Row>, c: char)
  {
    forall i, j :: 0 <= i < |rows| && 0 <= j < |rows[i]| && rows[i][j].Some? ==> c !in rows[i][j].value
  }

  /** The lines of a tab-delimited text: the header line, then one line per row. */
  function TxtLines(head: seq<string>, rows: seq<Row>): (r: seq<string>)
    ensures |r| == |rows| + 1
  {
    [Join(head, '\t')] + seq(|rows|, i requires 0 <= i < |rows| => TabJoined(rows[i]))
  }

  /** A tab-delimited text is its lines joined by line breaks, with one trailing break. */
  lemma {:induction false} TxtDocumentIsJoin(head: seq<string>, rows: seq<Row>)
    ensures TxtDocument(head, rows) == Join(TxtLines(head, rows), '\n') + "\n"
  {
    if rows != [] {
      var init := rows[..|rows| - 1];
      TxtDocumentIsJoin(head, init);
      assert TxtLines(head, rows) == TxtLines(head, init) + [TabJoined(rows[|rows| - 1])];
      JoinSnoc(TxtLines(head, init), TabJoined(rows[|rows| - 1]), '\n');
    }
  }

  /** No line of a tab-delimited text holds a line break when no heading and no item does. */
  lemma TxtLinesSingle(head: seq<string>, rows: seq<Row>)
    requires forall j :: 0 <= j < |head| ==> '\n' !in head[j]
    requires NoCellHolds(rows, '\n')
    ensures forall k :: 0 <= k < |TxtLines(head, rows)| ==> '\n' !in TxtLines(head, rows)[k]
  {
    var lines := TxtLines(head, rows);
    JoinFree(head, '\t', '\n');
    forall k | 0 <= k < |lines| ensures '\n' !in lines[k] {
      if k > 0 {
        assert lines[k] == TabJoined(rows[k - 1]);
        TabFree(rows[k - 1], '\n');
        JoinFree(CellTexts(rows[k - 1]), '\t', '\n');
      }
    }
  }

  /**
   * Reading a tab-delimited text back: split on line breaks, it is the header
   * line, one line per row in order, and the empty text after the last break;
   * split on tabs, each row line gives back the row's cells, with `''` for a
   * cell without an item. This needs that no item holds a tab or a line break.
   */
  lemma TxtDocumentReadsBack(head: seq<string>, rows: seq<Row>)
    requires forall j :: 0 <= j < |head| ==> '\n' !in head[j]
    requires NoCellHolds(rows, '\t') && NoCellHolds(rows, '\n')
    ensures Split(TxtDocument(head, rows), '\n') == TxtLines(head, rows) + [""]
    ensures forall i :: 0 <= i < |rows| && rows[i] != [] ==> Split(TabJoined(rows[i]), '\t') == CellTexts(rows[i])
  {
    var lines := TxtLines(head, rows);
    TxtDocumentIsJoin(head, rows);
    JoinTrailingEmpty(lines, '\n');
    TxtLinesSingle(head, rows);
    assert forall k :: 0 <= k < |lines + [""]| ==> '\n' !in (lines + [""])[k];
    SplitJoin(lines + [""], '\n');
    forall i | 0 <= i < |rows| && rows[i] != [] ensures Split(TabJoined(rows[i]), '\t') == CellTexts(rows[i]) {
      TabFree(rows[i], '\t');
      SplitJoin(CellTexts(rows[i]), '\t');
    }
  }

  /** The `.txt` export reads back as its header line and one line per row, each row line as the row's cells. */
  lemma TxtExportReadsBack(rows: seq<Row>)
    requires NoCellHolds(rows, '\t') && NoCellHolds(rows, '\n')
    ensures Split(TxtExport(rows), '\n') == TxtLines(Headers, rows) + [""]
    ensures forall i :: 0 <= i < |rows| && rows[i] != [] ==> Split(TabJoined(rows[i]), '\t') == CellTexts(rows[i])
  {
    TxtDocumentReadsBack(Headers, rows);
  }

  /** The texts of a row whose items do not hold `c` do not hold `c`. */
  lemma TabFree(row: Row, c: char)
    requires forall j :: 0 <= j < |row| && row[j].Some? ==> c !in row[j].value
    ensures forall j :: 0 <= j < |row| ==> c !in CellTexts(row)[j]
  {
  }

  /** Joining pieces free of `c` with another separator gives a text free of `c`. */
  lemma {:induction false} JoinFree(parts: seq<string>, sep: char, c: char)
    requires sep != c
    requires forall j :: 0 <= j < |parts| ==> c !in parts[j]
    ensures c !in Join(parts, sep)
  {
    if |parts| > 1 {
      JoinFree(parts[1..], sep, c);
    }
  }

  /**
   * A decoder line with at least eleven fields after its counter, and no tab,
   * comes back from its `.txt` export line as exactly those eleven fields.
   */
  lemma LineSurvivesTxtExport(line: string)
    requires |Split(line, ';')| >= Width + 1
    requires '\t' !in line
    ensures Split(TabJoined(LiveRow(line)), '\t') == Split(line, ';')[1..Width + 1]
  {
    var fields := Split(line, ';');
    var texts := CellTexts(LiveRow(line));
    forall j | 0 <= j < Width ensures texts[j] == fields[j + 1] {
      LiveRowCells(line, j);
    }
    assert texts == fields[1..Width + 1];
    forall j | 0 <= j < Width ensures '\t' !in texts[j] {
      SplitPieceFree(line, ';', '\t', j + 1);
    }
    SplitJoin(texts, '\t');
  }

  /** A piece of a split holds no character the whole text does not hold. */
  lemma {:induction false} SplitPieceFree(s: string, sep: char, c: char, i: nat)
    requires c !in s && i < |Split(s, sep)|
    ensures c !in Split(s, sep)[i]
  {
    if s != [] {
      assert c !in s[1..] by {
        forall k | 0 <= k < |s[1..]| ensures s[1..][k] != c { assert s[1..][k] == s[k + 1]; }
      }
      var rest := Split(s[1..], sep);
      if s[0] == sep {
        if i > 0 { SplitPieceFree(s[1..], sep, c, i - 1); }
      } else if i == 0 {
        SplitPieceFree(s[1..], sep, c, 0);
        assert Split(s, sep)[0] == [s[0]] + rest[0];
      } else {
        SplitPieceFree(s[1..], sep, c, i);
      }
    }
  }

  // ---------------------------------------------------------------------
  // .csv

  /** `csv.writer` quotes a field holding the delimiter, the quote character or a line-end character. */
  predicate NeedsQuotes(s: string)
  {
    ',' in s || '"' in s || '\r' in s || '\n' in s
  }

  /** Each `"` doubled. */
  function DoubleQuotes(s: string): string
  {
    if s == [] then []
    else (if s[0] == '"' then "\"\"" else [s[0]]) + DoubleQuotes(s[1..])
  }

  /** A field as `csv.writer` writes it under its default minimal quoting. */
  function CsvField(s: string): (r: string)
    ensures !NeedsQuotes(s) ==> r == s
    ensures NeedsQuotes(s) ==> r != [] && r[0] == '"' && ReadQuoted(r[1..]) == Some((s, ""))
  {
    ReadQuotedDoubled(s, "");
    assert ("\"" + DoubleQuotes(s) + "\"")[1..] == DoubleQuotes(s) + "\"" + "";
    if NeedsQuotes(s) then "\"" + DoubleQuotes(s) + "\"" else s
  }

  function CsvFields(fields: seq<string>): (r: seq<string>)
    ensures |r| == |fields|
  {
    seq(|fields|, i requires 0 <= i < |fields| => CsvField(fields[i]))
  }

  /**
   * A record's text without its line end: the fields, comma-separated. A
   * record of one empty field is written as `""`, since an empty line would
   * read back as a record of no fields.
   */
  function CsvRecord(fields: seq<string>): string
  {
    if fields == [""] then "\"\"" else Join(CsvFields(fields), ',')
  }

  /** `writer.writerow(fields)`: the record, ended by `\r\n`. */
  function CsvLine(fields: seq<string>): string
  {
    CsvRecord(fields) + "\r\n"
  }

  function CsvRows(rows: seq<Row>): string
  {
    if rows == [] then ""
    else CsvRows(rows[..|rows| - 1]) + CsvLine(CellTexts(rows[|rows| - 1]))
  }

  /** The `.csv` export: the header record, then one record per row. */
  function CsvExport(rows: seq<Row>): string
  {
    CsvLine(Headers) + CsvRows(rows)
  }

  /**
   * A reader for one record: the body of a quoted field, up to its closing
   * quote, with `""` read as `"`; the rest is what follows the closing quote.
   */
  function ReadQuoted(s: string): (r: Option<(string, string)>)
    ensures r.Some? ==> |r.value.1| < |s|
  {
    if s == [] then None
    else if s[0] == '"' then
      if |s| >= 2 && s[1] == '"' then
        match ReadQuoted(s[2..])
        case None => None
        case Some((f, rest)) => Some(("\"" + f, rest))
      else Some(("", s[1..]))
    else
      match ReadQuoted(s[1..])
      case None => None
      case Some((f, rest)) => Some(([s[0]] + f, rest))
  }

  /** Where an unquoted field ends: at the first comma, or at the end of the record. */
  function UnquotedLength(s: string): (n: nat)
    ensures n <= |s|
  {
    if s == [] || s[0] == ',' then 0 else 1 + UnquotedLength(s[1..])
  }

  /** The fields of one CSV record (without its line end); `None` when it is malformed. */
  function ParseRecord(s: string): Option<seq<string>>
    decreases |s|
  {
    if s != [] && s[0] == '"' then
      match ReadQuoted(s[1..])
      case None => None
      case Some((f, rest)) =>
        if rest == [] then Some([f])
        else if rest[0] != ',' then None
        else
          match ParseRecord(rest[1..])
          case None => None
          case Some(fs) => Some([f] + fs)
    else
      var n := UnquotedLength(s);
      if n == |s| then Some([s])
      else
        match ParseRecord(s[n + 1..])
        case None => None
        case Some(fs) => Some([s[..n]] + fs)
  }

  /** A quoted field's body, then its closing quote, reads back as the field. */
  lemma {:induction false} ReadQuotedDoubled(x: string, rest: string)
    requires rest == [] || rest[0] != '"'
    ensures ReadQuoted(DoubleQuotes(x) + "\"" + rest) == Some((x, rest))
  {
    var s := DoubleQuotes(x) + "\"" + rest;
    if x == [] {
      assert s == "\"" + rest;
      assert s[1..] == rest;
    } else {
      ReadQuotedDoubled(x[1..], rest);
      var tail := DoubleQuotes(x[1..]) + "\"" + rest;
      if x[0] == '"' {
        assert s == "\"\"" + tail;
        assert s[2..] == tail;
      } else {
        assert s == [x[0]] + tail;
        assert s[1..] == tail;
      }
      assert [x[0]] + x[1..] == x;
    }
  }

  /** An unquoted field runs up to the comma that ends it. */
  lemma {:induction false} UnquotedUpTo(x: string, rest: string)
    requires ',' !in x
    requires rest == [] || rest[0] == ','
    ensures UnquotedLength(x + rest) == |x|
  {
    if x != [] {
      assert (x + rest)[1..] == x[1..] + rest;
      UnquotedUpTo(x[1..], rest);
    } else {
      assert x + rest == rest;
    }
  }

  /** What reading a record gives when its first field is `f` and `tail` follows it. */
  function AfterFirst(f: string, tail: string): Option<seq<string>>
    requires tail == [] || tail[0] == ','
  {
    if tail == [] then Some([f])
    else
      match ParseRecord(tail[1..])
      case None => None
      case Some(fs) => Some([f] + fs)
  }

  /** A record's first field reads back, and reading goes on after the comma that follows it. */
  lemma ParseFirstField(f: string, tail: string)
    requires tail == [] || tail[0] == ','
    ensures ParseRecord(CsvField(f) + tail) == AfterFirst(f, tail)
  {
    if NeedsQuotes(f) {
      ParseQuotedFirst(f, tail);
    } else {
      ParseUnquotedFirst(f, tail);
    }
  }

  lemma ParseQuotedFirst(f: string, tail: string)
    requires tail == [] || tail[0] == ','
    requires NeedsQuotes(f)
    ensures ParseRecord(CsvField(f) + tail) == AfterFirst(f, tail)
  {
    var body := DoubleQuotes(f);
    var rest := body + "\"" + tail;
    QuotedFieldThen(f, tail);
    ReadQuotedDoubled(f, tail);
    ParseAfterQuoted(['"'] + rest, f, tail);
  }

  /** A quoted field followed by `tail` is a quote, then the quoted body and `tail`. */
  lemma QuotedFieldThen(f: string, tail: string)
    requires NeedsQuotes(f)
    ensures CsvField(f) + tail == ['"'] + (DoubleQuotes(f) + "\"" + tail)
    ensures (['"'] + (DoubleQuotes(f) + "\"" + tail))[1..] == DoubleQuotes(f) + "\"" + tail
  {
    var body := DoubleQuotes(f);
    assert CsvField(f) == "\"" + body + "\"";
    assert "\"" + body + "\"" + tail == ['"'] + (body + "\"" + tail);
  }

  lemma ParseAfterQuoted(s: string, f: string, tail: string)
    requires tail == [] || tail[0] == ','
    requires s != [] && s[0] == '"' && ReadQuoted(s[1..]) == Some((f, tail))
    ensures ParseRecord(s) == AfterFirst(f, tail)
  {
  }

  lemma ParseUnquotedFirst(f: string, tail: string)
    requires tail == [] || tail[0] == ','
    requires !NeedsQuotes(f)
    ensures ParseRecord(CsvField(f) + tail) == AfterFirst(f, tail)
  {
    var s := f + tail;
    assert CsvField(f) == f;
    UnquotedUpTo(f, tail);
    assert s == [] || s[0] != '"' by {
      if f != [] { assert s[0] == f[0] && f[0] in f; }
    }
    assert s[..|f|] == f;
    if tail != [] {
      assert s[|f| + 1..] == tail[1..];
    }
    ParseAfterUnquoted(s, f, tail);
  }

  lemma ParseAfterUnquoted(s: string, f: string, tail: string)
    requires tail == [] || tail[0] == ','
    requires s == f + tail && (s == [] || s[0] != '"')
    requires UnquotedLength(s) == |f| && s[..|f|] == f
    requires tail != [] ==> s[|f| + 1..] == tail[1..]
    ensures ParseRecord(s) == AfterFirst(f, tail)
  {
    assert |s| == |f| + |tail|;
    if tail == [] {
      assert s == f;
    }
  }

  /** Every `csv.writer` record reads back as the fields it was written from. */
  lemma {:induction false} CsvRoundTrip(fields: seq<string>)
    requires fields != []
    ensures ParseRecord(Join(CsvFields(fields), ',')) == Some(fields)
  {
    var f := fields[0];
    CsvFieldsCons(fields);
    if |fields| > 1 {
      var tail := [','] + Join(CsvFields(fields[1..]), ',');
      JoinCons(CsvFields(fields), ',');
      CsvRoundTrip(fields[1..]);
      ParseFirstField(f, tail);
      assert tail[1..] == Join(CsvFields(fields[1..]), ',');
      assert [f] + fields[1..] == fields;
    } else {
      assert Join(CsvFields(fields), ',') == CsvField(f) + [];
      ParseFirstField(f, []);
      assert fields == [f];
    }
  }

  /** `csv.reader` on one record's text: an empty line is a record of no fields. */
  function ReadRecord(s: string): Option<seq<string>>
  {
    if s == "" then Some([]) else ParseRecord(s)
  }

  /** Every record `csv.writer` writes, an empty one included, reads back as its fields. */
  lemma CsvRecordReadsBack(fields: seq<string>)
    ensures ReadRecord(CsvRecord(fields)) == Some(fields)
  {
    if fields == [""] {
      assert CsvRecord(fields) == "\"\"";
      assert ReadQuoted("\"") == Some(("", ""));
    } else if fields != [] {
      CsvRoundTrip(fields);
      RecordNotEmpty(fields);
    }
  }

  /** Only the record of one empty field would be written as an empty text. */
  lemma RecordNotEmpty(fields: seq<string>)
    requires fields != [] && fields != [""]
    ensures Join(CsvFields(fields), ',') != ""
  {
    CsvFieldsCons(fields);
    if |fields| > 1 {
      JoinCons(CsvFields(fields), ',');
    } else {
      assert Join(CsvFields(fields), ',') == CsvField(fields[0]);
      assert fields == [fields[0]];
    }
  }

  /** The written fields of a record: its first field's, then the rest's. */
  lemma CsvFieldsCons(fields: seq<string>)
    requires fields != []
    ensures CsvFields(fields)[0] == CsvField(fields[0])
    ensures CsvFields(fields)[1..] == CsvFields(fields[1..])
  {
  }

  /** Joining two or more pieces: the first, the separator, then the rest joined. */
  lemma JoinCons(parts: seq<string>, sep: char)
    requires |parts| > 1
    ensures Join(parts, sep) == parts[0] + ([sep] + Join(parts[1..], sep))
  {
  }


  // ---------------------------------------------------------------------
  // .sqlite

  /** The column list of the `INSERT INTO observations` statement, in order. */
  const SqliteColumns: seq<string> :=
    ["stamp", "tmsi1", "tmsi2", "imsi", "imsicountry", "imsibrand", "imsioperator", "mcc", "mnc", "lac", "cell"]

  /** The `observations` column meant for each table heading, heading by heading. */
  const HeadingColumns: seq<string> :=
    ["tmsi1", "tmsi2", "imsi", "imsicountry", "imsibrand", "imsioperator", "mcc", "mnc", "lac", "cell", "stamp"]

  /** The values of one row for the `INSERT`: each item's text, `None` for a cell without one. */
  function SqliteValues(row: Row): seq<Option<string>>
  {
    row
  }

  /**
   * How the `INSERT` binds a row's values, as written: positionally against
   * the column list, so `stamp` takes the first value.
   */
  function BindAsWritten(values: seq<Option<string>>): (r: seq<(string, Option<string>)>)
    requires |values| == Width
    ensures |r| == Width
  {
    seq(Width, c requires 0 <= c < Width => (SqliteColumns[c], values[c]))
  }

  /**
   * As written, column `stamp` receives the TMSI-1 cell and column `cell` the
   * Timestamp cell: no column but by accident receives its own heading's cell.
   */
  lemma BindAsWrittenMisplaces(row: Row)
    requires |row| == Width
    ensures BindAsWritten(SqliteValues(row))[0] == ("stamp", row[0])
    ensures BindAsWritten(SqliteValues(row))[10] == ("cell", row[10])
    ensures forall c :: 0 <= c < Width ==> BindAsWritten(SqliteValues(row))[c] == (SqliteColumns[c], row[c])
    ensures forall i :: 0 <= i < Width ==> HeadingColumns[i] != SqliteColumns[i]
  {
  }

  /** A captured row for which the as-written binding puts TMSI-1 into `stamp`. */
  lemma BindAsWrittenCounterexample()
    ensures var row := [Some("111"), Some("222"), Some("310170000000001"), Some("USA"), Some("Verizon"),
                        Some("Verizon"), Some("310"), Some("170"), Some("12345"), Some("0x1A2B"),
                        Some("2024-01-01 10:00 CET")];
      BindAsWritten(row)[0] == ("stamp", Some("111")) && row[10] != Some("111")
  {
  }

  /**
   * The intended binding: the column list in the statement's order, each
   * column receiving the cell under its own heading.
   */
  function Bind(row: Row): (r: seq<(string, Option<string>)>)
    requires |row| == Width
    ensures |r| == Width
    ensures forall c :: 0 <= c < Width ==> r[c].0 == SqliteColumns[c]
    ensures forall i :: 0 <= i < Width ==> (HeadingColumns[i], row[i]) in r
  {
    var r := [("stamp", row[10])] + seq(10, i requires 0 <= i < 10 => (SqliteColumns[i + 1], row[i]));
    assert r[0] == (HeadingColumns[10], row[10]);
    assert forall i :: 0 <= i < 10 ==> r[i + 1] == (HeadingColumns[i], row[i]);
    r
  }

  // ---------------------------------------------------------------------
  // The flat dump of a stored scan

  /** What a text file holds once its writer is done, and whether the writer got to its end. */
  datatype Written = Written(text: string, complete: bool)

  function DumpFileName(t: string): string
  {
    "exported_scan_data_" + t + ".txt"
  }

  /** `params.get(key)`: `None` when missing. */
  function ValueAt(params: Entry, key: string): Value
  {
    if key in params then params[key] else Null
  }

  /** The lines written before the logs. */
  function DumpHead(t: string, params: Entry): string
  {
    "Timestamp: " + t + "\n" +
    "Frequency: " + Shown(ValueAt(params, "frequency")) + "\n" +
    "PPM: " + Shown(ValueAt(params, "ppm")) + "\n" +
    "Gain: " + Shown(ValueAt(params, "gain")) + "\n" +
    "Logs:\n"
  }

  /**
   * `export_data`'s file: the head, the logs (`No logs available.` when there
   * are none), the `Captured IMSIs:` line and the rows of the live table as
   * tab-joined lines. Writing a logs value that is not a string raises after
   * the head is written, leaving the file with the head alone.
   */
  function Dump(t: string, params: Entry, rows: seq<Row>): (r: Written)
    ensures r.complete <==> EntryLogs(params).Str?
    ensures |DumpHead(t, params)| <= |r.text| && r.text[..|DumpHead(t, params)|] == DumpHead(t, params)
    ensures r.complete ==> EndsWith(r.text, "\nCaptured IMSIs:\n" + TxtRows(rows))
    ensures r.complete ==>
      var head, logs := DumpHead(t, params), EntryLogs(params).s;
      |r.text| == |head| + |logs| + |"\nCaptured IMSIs:\n" + TxtRows(rows)| &&
      r.text[|head|..|head| + |logs|] == logs
    ensures !r.complete ==> r.text == DumpHead(t, params)
  {
    var logs := EntryLogs(params);
    var head := DumpHead(t, params);
    if logs.Str? then
      var tail := "\nCaptured IMSIs:\n" + TxtRows(rows);
      var text := head + logs.s + tail;
      assert text == (head + logs.s) + tail;
      assert text[|head|..|head| + |logs.s|] == logs.s;
      Written(text, true)
    else Written(head, false)
  }

  // ---------------------------------------------------------------------
  // Export Table

  /** What the Export Table button leaves behind for a chosen file name. */
  datatype ExportFile =
    | NoFile                                               // the dialog was cancelled
    | CsvFile(name: string, text: string)
    | TxtFile(name: string, text: string)
    | SqliteFile(name: string, inserted: seq<seq<(string, Option<string>)>>)  // one bound INSERT per row
    | Unwritten(name: string)                              // another extension: nothing written

  /**
   * The chosen extension decides the format, `.csv` first, then `.txt`, then
   * `.sqlite`; each `.sqlite` row is inserted with the intended binding.
   */
  function ExportFor(name: string, rows: seq<Row>): (r: ExportFile)
    requires forall i :: 0 <= i < |rows| ==> |rows[i]| == Width
    ensures name == "" <==> r == NoFile
    ensures r.CsvFile? <==> name != "" && EndsWith(name, ".csv")
    ensures r.CsvFile? ==> r.text == CsvExport(rows)
    ensures r.TxtFile? ==> EndsWith(name, ".txt") && r.text == TxtExport(rows)
    ensures r.SqliteFile? ==> |r.inserted| == |rows| && EndsWith(name, ".sqlite")
    ensures r.SqliteFile? ==> forall i, c :: 0 <= i < |rows| && 0 <= c < Width ==>
      (HeadingColumns[c], rows[i][c]) in r.inserted[i]
    ensures r.Unwritten? ==> !EndsWith(name, ".csv") && !EndsWith(name, ".txt") && !EndsWith(name, ".sqlite")
  {
    if name == "" then NoFile
    else if EndsWith(name, ".csv") then CsvFile(name, CsvExport(rows))
    else if EndsWith(name, ".txt") then TxtFile(name, TxtExport(rows))
    else if EndsWith(name, ".sqlite") then SqliteFile(name, seq(|rows|, i requires 0 <= i < |rows| => Bind(rows[i])))
    else Unwritten(name)
  }
}
