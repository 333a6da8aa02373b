/**
 * The capture session's state as the main window holds it, and the window's
 * operations on it: the live table fed by the decoder's output, the Logs
 * text, the Scans list, the scan store file, the capture parameters and the
 * receiver's tuning; plus the dialog that re-derives a table from saved logs.
 */
module App {
  import opened Wrappers
  import opened Text
  import opened Records
  import opened Grid
  import opened Labels
  import opened Store
  import opened Export

  /** The tuning range the frequency guard and the frequency slider share, in Hz. */
  const MinFrequency: real := 800000000.0
  const MaxFrequency: real := 1990000000.0

  /** The receiver is tuned this far below the target frequency, in Hz. */
  const ShiftOff: real := 400000.0

  /** The frequency guard: `not (f < 800e6 or f > 1990e6)`. */
  predicate InTuningRange(f: real)
  {
    !(f < MinFrequency || f > MaxFrequency)
  }

  /** Every value the frequency slider can take passes the guard. */
  lemma SliderValuesInRange(v: int)
    requires 800000000 <= v <= 1990000000
    ensures InTuningRange(v as real)
  {
  }

  /** The line `start_capture` appends to the Logs tab. */
  function StartBanner(now: string): string
  {
    "Starting IMSI MAP version 1.0 scan at " + now
  }

  class ImsiMap {
    /** The Captured IMSIs table. */
    const table: Table
    /** The Logs tab's plain text. */
    var logText: string
    /** The Scans tab's labels, in list order. */
    var scanList: seq<string>
    /** `logs/scan_data.json`; `None` while the file does not exist. */
    var file: Option<Document>
    /** The capture parameters the receiver object holds. */
    var fc: Value
    var gain: Value
    var ppm: Value
    /** The centre frequencies sent to the receiver, in order. */
    var tunings: seq<real>

    ghost predicate Valid()
      reads this, table
    {
      && table.Valid()
      && table.columnCount == Width
      && (file.Some? ==> Wf(file.value))
    }

    /**
     * The window as it starts: an empty table and Logs tab, the receiver's
     * initial parameters, and the Scans tab filled from the store.
     */
    constructor (file: Option<Document>)
      requires file.Some? ==> Wf(file.value)
      ensures Valid() && fresh(table)
      ensures table.rows == [] && logText == "" && tunings == []
      ensures fc == Other("943203831.0") && gain == Other("50") && ppm == Other("0")
      ensures this.file == file
      ensures scanList == ScanLabels(Load(file))
    {
      table := new Table(Width);
      logText := "";
      scanList := [];
      this.file := file;
      fc, gain, ppm := Other("943203831.0"), Other("50"), Other("0");
      tunings := [];
      new;
      PopulateScansTab();
    }

    /** `load_scan_data` */
    function LoadScanData(): (d: Document)
      reads this
      ensures file.None? ==> d == []
      ensures file.Some? ==> d == file.value
    {
      Load(file)
    }

    /** `save_scan_data`: the whole file replaced by `d`. */
    method SaveScanData(d: Document)
      modifies this`file
      ensures file == Some(d)
    {
      file := Some(d);
    }

    /** `populate_scans_tab`: clear the list, then one label per stored scan in key order. */
    method PopulateScansTab()
      modifies this`scanList
      ensures scanList == ScanLabels(LoadScanData())
    {
      var d := LoadScanData();
      scanList := [];
      var i := 0;
      while i < |d|
        invariant 0 <= i <= |d|
        invariant scanList == ScanLabels(d[..i])
      {
        assert ScanLabels(d[..i + 1]) == ScanLabels(d[..i]) + [ScanLabel(d[i].0, FrequencyText(d[i].1))];
        scanList := scanList + [ScanLabel(d[i].0, FrequencyText(d[i].1))];
        i := i + 1;
      }
      assert d[..i] == d;
    }

    /**
     * `add_new_scan(now)`: one label appended to the list, and the file
     * rewritten as the loaded document with key `now` set to the current
     * parameters and Logs text.
     */
    method AddNewScan(now: string)
      requires Valid()
      modifies this`scanList, this`file
      ensures Valid()
      ensures scanList == old(scanList) + [ScanLabel(now, Shown(fc))]
      ensures file == Some(Put(old(LoadScanData()), now, NewEntry(fc, ppm, gain, logText)))
    {
      scanList := scanList + [ScanLabel(now, Shown(fc))];
      var d := LoadScanData();
      var entry := NewEntry(fc, ppm, gain, logText);
      PutAsMap(d, now, entry);
      SaveScanData(Put(d, now, entry));
    }

    /** `start_capture(now)`: the start banner appended to the Logs tab. */
    method StartCapture(now: string)
      modifies this`logText
      ensures logText == AppendLine(old(logText), StartBanner(now))
    {
      logText := AppendLine(logText, StartBanner(now));
    }

    /** `save_all`, the start button: store the scan so far, then start a new capture. */
    method SaveAll(saveTime: string, startTime: string)
      requires Valid()
      modifies this`scanList, this`file, this`logText
      ensures Valid()
      ensures scanList == old(scanList) + [ScanLabel(saveTime, Shown(fc))]
      ensures file == Some(Put(old(LoadScanData()), saveTime, NewEntry(fc, ppm, gain, old(logText))))
      ensures logText == AppendLine(old(logText), StartBanner(startTime))
    {
      AddNewScan(saveTime);
      StartCapture(startTime);
    }

    /** `update_table(line)`: a data row becomes a new row of the table; any other line changes nothing. */
    method UpdateTable(line: string)
      requires Valid()
      modifies table
      ensures Valid()
      ensures table.rows == if IsDataRow(line) then old(table.rows) + [LiveRow(line)] else old(table.rows)
    {
      if Count(line, ';') >= 6 && !Contains(line, "CellId") {
        var fields := Split(line, ';');
        table.AppendItems(fields[1..]);
      }
    }

    /** The main window's `add_row(data)`: a new row from `data` past its first field. */
    method AddRow(data: seq<string>)
      requires Valid()
      modifies table
      ensures Valid()
      ensures table.rows == old(table.rows) + [Placed(if data == [] then [] else data[1..], Width)]
    {
      table.AppendItems(if data == [] then [] else data[1..]);
    }

    /**
     * One decoded line from the output reader: if the reader passes it on, it
     * is appended to the Logs tab and handed to `update_table`.
     */
    method OnDecodedLine(decoded: string)
      requires Valid()
      modifies this`logText, table
      ensures Valid()
      ensures match ReaderFilter(decoded)
        case None => logText == old(logText) && table.rows == old(table.rows)
        case Some(line) =>
          && logText == AppendLine(old(logText), line)
          && table.rows == old(table.rows) + (if IsDataRow(line) then [LiveRow(line)] else [])
    {
      var line := Strip(decoded);
      if line != "" && !Contains(line, "CellId") {
        logText := AppendLine(logText, line);
        UpdateTable(line);
      }
    }

    /** `set_frequency_in_grgsm(f)`: tunes the receiver only to a frequency in range. */
    method SetFrequency(f: real) returns (ok: bool)
      modifies this`tunings
      ensures ok <==> InTuningRange(f)
      ensures tunings == if ok then old(tunings) + [f - ShiftOff] else old(tunings)
    {
      if f < MinFrequency || f > MaxFrequency {
        return false;
      }
      tunings := tunings + [f - ShiftOff];
      return true;
    }

    /**
     * `view_log`: the text the Saved Logs dialog shows for a selected label;
     * `None` where the source raises: the label does not match, or the logs
     * are neither text nor null, which `setPlainText` refuses.
     */
    method ViewLog(selected: string) returns (shown: Option<string>)
      ensures var l := LogsForLabel(selected, LoadScanData());
        shown.Some? <==> l.Some? && !l.value.Other?
      ensures var l := LogsForLabel(selected, LoadScanData());
        shown.Some? ==> shown.value == if l.value.Str? then l.value.s else ""
    {
      var t := ExtractTimestamp(selected);
      if t.None? {
        return None;
      }
      var logs := LogsOf(LoadScanData(), t.value);
      match logs
      case Str(s) => shown := Some(s);
      case Null => shown := Some("");
      case Other(_) => shown := None;
    }

    /**
     * `view_table`: the dialog re-deriving a table from the selected scan's
     * logs; `None` where the source raises (no match, or logs that are not text).
     */
    method ViewTable(selected: string) returns (dialog: Option<ImsiTableDialog>)
      ensures dialog.Some? <==> LogsForLabel(selected, LoadScanData()).Some? && LogsForLabel(selected, LoadScanData()).value.Str?
      ensures dialog.Some? ==> fresh(dialog.value.table) && dialog.value.table.columnCount == Width
      ensures dialog.Some? ==> dialog.value.table.rows == DerivedRows(LogsForLabel(selected, LoadScanData()).value.s, Width)
    {
      var t := ExtractTimestamp(selected);
      if t.None? {
        return None;
      }
      var logs := LogsOf(LoadScanData(), t.value);
      if !logs.Str? {
        return None;
      }
      var d := new ImsiTableDialog(logs.s, Headers);
      return Some(d);
    }

    /** `set_params_in_context` */
    method SetParamsInContext(frequency: Value, g: Value, p: Value)
      modifies this`fc, this`gain, this`ppm
      ensures fc == frequency && gain == g && ppm == p
    {
      fc, gain, ppm := frequency, g, p;
    }

    /**
     * `repeat_scan`: with parameters replay can use, apply them, move the
     * frequency slider to the frequency and start a capture; otherwise nothing
     * changes. `sliderTakes(f)` says whether the slider's `setValue` accepts
     * frequency `f`, a C `int`; when it raises, the parameters are already
     * applied but no capture starts.
     */
    method RepeatScan(selected: string, toInt: Conversion, toFloat: Conversion,
                      sliderTakes: Value -> bool, now: string)
      modifies this`fc, this`gain, this`ppm, this`logText
      ensures var r := ReplayParams(selected, old(LoadScanData()), toInt, toFloat);
        if r.Some? then
          && (fc, gain, ppm) == r.value
          && logText == if sliderTakes(r.value.0) then AppendLine(old(logText), StartBanner(now))
                        else old(logText)
        else
          && fc == old(fc) && gain == old(gain) && ppm == old(ppm)
          && logText == old(logText)
    {
      var t := ExtractTimestamp(selected);
      if t.None? {
        return;
      }
      var entry := Get(LoadScanData(), t.value).GetOr(map[]);
      var x := ExtractParams(entry, toInt, toFloat);
      if x.MissingKey? {
        return;
      }
      if x.frequency == Null || x.gain == Null || x.ppm == Null {
        return;
      }
      SetParamsInContext(x.frequency, x.gain, x.ppm);
      if !sliderTakes(x.frequency) {
        return;
      }
      StartCapture(now);
    }

    /** The rows of the table as `.txt` lines, written one by one. */
    method WriteTxtRows() returns (text: string)
      requires Valid()
      ensures text == TxtRows(table.rows)
    {
      text := "";
      var row := 0;
      while row < |table.rows|
        invariant 0 <= row <= |table.rows|
        invariant text == TxtRows(table.rows[..row])
      {
        assert table.rows[..row + 1][..row] == table.rows[..row];
        text := text + TxtLine(CellTexts(table.rows[row]));
        row := row + 1;
      }
      assert table.rows[..row] == table.rows;
    }

    /** The rows of the table as `.csv` records, written one by one. */
    method WriteCsvRows() returns (text: string)
      requires Valid()
      ensures text == CsvRows(table.rows)
    {
      text := "";
      var row := 0;
      while row < |table.rows|
        invariant 0 <= row <= |table.rows|
        invariant text == CsvRows(table.rows[..row])
      {
        assert table.rows[..row + 1][..row] == table.rows[..row];
        text := text + CsvLine(CellTexts(table.rows[row]));
        row := row + 1;
      }
      assert table.rows[..row] == table.rows;
    }

    /** `export_table` for the file name the save dialog returned (`""` when cancelled). */
    method ExportTable(name: string) returns (out: ExportFile)
      requires Valid()
      ensures out == ExportFor(name, table.rows)
    {
      if name == "" {
        return NoFile;
      }
      if EndsWith(name, ".csv") {
        var body := WriteCsvRows();
        return CsvFile(name, CsvLine(Headers) + body);
      }
      if EndsWith(name, ".txt") {
        var body := WriteTxtRows();
        return TxtFile(name, TxtLine(Headers) + body);
      }
      if EndsWith(name, ".sqlite") {
        var rows := table.rows;
        var inserted: seq<seq<(string, Option<string>)>> := [];
        var row := 0;
        while row < |rows|
          invariant 0 <= row <= |rows|
          invariant |inserted| == row
          invariant forall i :: 0 <= i < row ==> inserted[i] == Bind(rows[i])
        {
          inserted := inserted + [Bind(rows[row])];
          row := row + 1;
        }
        assert inserted == seq(|rows|, i requires 0 <= i < |rows| => Bind(rows[i]));
        return SqliteFile(name, inserted);
      }
      return Unwritten(name);
    }

    /**
     * `export_data`: for a selected label, the dump file's name and what is
     * written to it; `None` where the source raises before opening the file.
     */
    method ExportData(selected: string) returns (r: Option<(string, Written)>)
      requires Valid()
      ensures var t := ExtractTimestamp(selected);
        r == if t.None? then None
             else Some((DumpFileName(t.value), Dump(t.value, Get(LoadScanData(), t.value).GetOr(map[]), table.rows)))
    {
      var t := ExtractTimestamp(selected);
      if t.None? {
        return None;
      }
      var params := Get(LoadScanData(), t.value).GetOr(map[]);
      var logs := EntryLogs(params);
      var text := DumpHead(t.value, params);
      if !logs.Str? {
        return Some((DumpFileName(t.value), Written(text, false)));
      }
      var head := text;
      text := text + logs.s + "\nCaptured IMSIs:\n";
      var rows := WriteTxtRows();
      text := text + rows;
      assert text == head + logs.s + ("\nCaptured IMSIs:\n" + TxtRows(table.rows));
      return Some((DumpFileName(t.value), Written(text, true)));
    }
  }

  /** The dialog showing a table re-derived from a stored scan's logs. */
  class ImsiTableDialog {
    const table: Table

    /** A table with one column per heading, filled from `logs`. */
    constructor (logs: string, headers: seq<string>)
      ensures fresh(table) && table.Valid() && table.columnCount == |headers|
      ensures table.rows == DerivedRows(logs, |headers|)
    {
      table := new Table(|headers|);
      new;
      PopulateTable(logs);
    }

    /** `populate_table`: one new row per data row of the logs, in order. */
    method PopulateTable(logs: string)
      requires table.Valid()
      modifies table
      ensures table.Valid()
      ensures table.rows == old(table.rows) + DerivedRows(logs, table.columnCount)
    {
      var lines := Split(logs, '\n');
      var width := table.columnCount;
      ghost var start := table.rows;
      var i := 0;
      while i < |lines|
        invariant 0 <= i <= |lines|
        invariant table.Valid()
        invariant table.rows == start + RowsOf(lines[..i], width)
      {
        RowsOfNext(lines, i, width);
        AddLine(lines[i]);
        i := i + 1;
      }
      assert lines[..i] == lines;
    }

    /** One line of the logs: a data row adds its row, any other line nothing. */
    method AddLine(line: string)
      requires table.Valid()
      modifies table
      ensures table.Valid()
      ensures table.rows == old(table.rows) + (if IsDataRow(line) then [DerivedRow(line, table.columnCount)] else [])
    {
      if IsDataRow(line) {
        AddRow(Split(line, ';'));
      }
    }

    /** The dialog's `add_row(fields)`: a new row from the fields after the first, each stripped. */
    method AddRow(fields: seq<string>)
      requires table.Valid()
      modifies table
      ensures table.Valid()
      ensures table.rows == old(table.rows) + [Placed(StripAll(if fields == [] then [] else fields[1..]), table.columnCount)]
    {
      var values := if fields == [] then [] else fields[1..];
      var stripped: seq<string> := [];
      var i := 0;
      while i < |values|
        invariant 0 <= i <= |values|
        invariant |stripped| == i
        invariant forall j :: 0 <= j < i ==> stripped[j] == Strip(values[j])
      {
        stripped := stripped + [Strip(values[i])];
        i := i + 1;
      }
      assert stripped == StripAll(values);
      table.AppendItems(stripped);
    }
  }
}
