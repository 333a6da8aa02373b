/**
 * The decoder's line protocol as the capture table sees it: which output
 * lines are data rows, where a data row's fields land among the table's
 * eleven columns, and how a saved Logs text is turned back into rows.
 */
module Records {
  import opened Wrappers
  import opened Text

  /** The captured-IMSI table's column headings, in column order. */
  const Headers: seq<string> :=
    ["TMSI-1", "TMSI-2", "IMSI", "Country", "Brand", "Operator", "MCC", "MNC", "LAC", "CellId", "Timestamp"]

  /** The captured-IMSI table has this many columns. */
  const Width: nat := 11

  /** A table cell: `None` where no item was ever set, otherwise the item's text. */
  type Cell = Option<string>

  type Row = seq<Cell>

  /** A line is a data row iff it has at least six `;` and no `CellId` header marker. */
  predicate IsDataRow(line: string)
    ensures IsDataRow(line) ==> |Split(line, ';')| >= 7
  {
    Count(line, ';') >= 6 && !Contains(line, "CellId")
  }

  /**
   * What the output reader does with one decoded line of decoder output:
   * strip it, then pass it on unless it is empty or holds `CellId`.
   */
  function ReaderFilter(decoded: string): (r: Option<string>)
    ensures r.Some? ==> r.value != "" && !Contains(r.value, "CellId")
    ensures r.Some? ==> !IsSpace(r.value[0]) && !IsSpace(r.value[|r.value| - 1])
    ensures r.None? <==>
      (forall k :: 0 <= k < |decoded| ==> IsSpace(decoded[k])) || Contains(Strip(decoded), "CellId")
  {
    StripBlank(decoded);
    var line := Strip(decoded);
    if line != "" && !Contains(line, "CellId") then Some(line) else None
  }

  /** A text as `readline()` returns it: a line break can only be its last character. */
  predicate IsReadLine(raw: string)
  {
    forall k :: 0 <= k < |raw| - 1 ==> raw[k] != '\n'
  }

  /** A row just inserted into a table of `width` columns: no item anywhere. */
  function EmptyRow(width: nat): (r: Row)
    ensures |r| == width
    ensures forall j :: 0 <= j < width ==> r[j] == None
  {
    seq(width, _ => None)
  }

  /**
   * A new row after `setItem(row, i, values[i])` for each index i of `values`:
   * the values go into the columns in order, setting an item beyond the last
   * column does nothing, and columns without a value keep no item.
   */
  function Placed(values: seq<string>, width: nat): (r: Row)
    ensures |r| == width
  {
    if width == 0 then []
    else if values == [] then [None] + Placed([], width - 1)
    else [Some(values[0])] + Placed(values[1..], width - 1)
  }

  /** Column j of a placed row holds value j, or no item when there is no value j. */
  lemma {:induction false} PlacedAt(values: seq<string>, width: nat, j: nat)
    requires j < width
    ensures Placed(values, width)[j] == if j < |values| then Some(values[j]) else None
  {
    if j > 0 {
      if values == [] {
        PlacedAt([], width - 1, j - 1);
      } else {
        PlacedAt(values[1..], width - 1, j - 1);
      }
    }
  }

  /** Placing no values leaves the row empty. */
  lemma PlacedNothing(width: nat)
    ensures Placed([], width) == EmptyRow(width)
  {
    forall j | 0 <= j < width ensures Placed([], width)[j] == None {
      PlacedAt([], width, j);
    }
  }

  /** Placing one more value sets one more column, or nothing once the columns run out. */
  lemma PlacedExtend(values: seq<string>, i: nat, width: nat)
    requires i < |values|
    ensures Placed(values[..i + 1], width) ==
      if i < width then Placed(values[..i], width)[i := Some(values[i])] else Placed(values[..i], width)
  {
    var before, after := Placed(values[..i], width), Placed(values[..i + 1], width);
    forall j | 0 <= j < width
      ensures after[j] == if j == i then Some(values[i]) else before[j]
    {
      PlacedAt(values[..i], width, j);
      PlacedAt(values[..i + 1], width, j);
    }
  }

  /** Values past the last column have nowhere to go: they never change the row. */
  lemma PlacedIgnoresOverflow(values: seq<string>, width: nat)
    requires width <= |values|
    ensures Placed(values, width) == Placed(values[..width], width)
  {
    forall j | 0 <= j < width ensures Placed(values, width)[j] == Placed(values[..width], width)[j] {
      PlacedAt(values, width, j);
      PlacedAt(values[..width], width, j);
    }
  }

  /** The live table's row for a line: its fields after the counter, unstripped. */
  function LiveRow(line: string): (r: Row)
    ensures |r| == Width
    ensures forall j :: 0 <= j < Width && r[j].Some? ==> ';' !in r[j].value
  {
    forall j | 0 <= j < Width && Placed(Split(line, ';')[1..], Width)[j].Some?
      ensures ';' !in Placed(Split(line, ';')[1..], Width)[j].value
    {
      PlacedAt(Split(line, ';')[1..], Width, j);
    }
    Placed(Split(line, ';')[1..], Width)
  }

  /**
   * Column j of a live row holds field j + 1 of the line when there is one
   * and no item otherwise; a data row always fills the first six columns,
   * and no cell holds a `;`.
   */
  lemma LiveRowCells(line: string, j: nat)
    requires j < Width
    ensures var fields := Split(line, ';');
      LiveRow(line)[j] == if j + 1 < |fields| then Some(fields[j + 1]) else None
    ensures IsDataRow(line) && j < 6 ==> LiveRow(line)[j].Some?
    ensures LiveRow(line)[j].Some? ==> ';' !in LiveRow(line)[j].value
  {
    PlacedAt(Split(line, ';')[1..], Width, j);
  }

  /**
   * A decoder record written as `;`-separated fields goes into the live table
   * as its fields after the counter, and has one `;` fewer than it has fields.
   */
  lemma RecordRow(fields: seq<string>)
    requires fields != []
    requires forall i :: 0 <= i < |fields| ==> ';' !in fields[i]
    ensures Count(Join(fields, ';'), ';') == |fields| - 1
    ensures LiveRow(Join(fields, ';')) == Placed(fields[1..], Width)
  {
    SplitJoin(fields, ';');
  }

  /** `[s.strip() for s in values]` */
  function StripAll(values: seq<string>): (r: seq<string>)
    ensures |r| == |values|
  {
    seq(|values|, i requires 0 <= i < |values| => Strip(values[i]))
  }

  /** The row a saved log line yields: its fields after the counter, each stripped. */
  function DerivedRow(line: string, width: nat): Row
  {
    Placed(StripAll(Split(line, ';')[1..]), width)
  }

  /** Every item of a row stripped; cells without an item stay without one. */
  function StripCells(row: Row): (r: Row)
    ensures |r| == |row|
  {
    seq(|row|, j requires 0 <= j < |row| => if row[j].Some? then Some(Strip(row[j].value)) else None)
  }

  function StripRows(rows: seq<Row>): (r: seq<Row>)
    ensures |r| == |rows|
  {
    seq(|rows|, i requires 0 <= i < |rows| => StripCells(rows[i]))
  }

  /** Re-deriving a line gives exactly its live row with every item stripped. */
  lemma DerivedIsStrippedLive(line: string)
    ensures DerivedRow(line, Width) == StripCells(LiveRow(line))
  {
    var values := Split(line, ';')[1..];
    forall j | 0 <= j < Width ensures DerivedRow(line, Width)[j] == StripCells(LiveRow(line))[j] {
      PlacedAt(values, Width, j);
      PlacedAt(StripAll(values), Width, j);
    }
  }

  /** The rows `populate_table` adds for `lines`, one per data row, in order. */
  function RowsOf(lines: seq<string>, width: nat): seq<Row>
  {
    if lines == [] then []
    else
      var last := lines[|lines| - 1];
      RowsOf(lines[..|lines| - 1], width) + (if IsDataRow(last) then [DerivedRow(last, width)] else [])
  }

  /** The rows of the first i + 1 lines: those of the first i, then line i's row if it is a data row. */
  lemma RowsOfNext(lines: seq<string>, i: nat, width: nat)
    requires i < |lines|
    ensures RowsOf(lines[..i + 1], width) ==
      RowsOf(lines[..i], width) + (if IsDataRow(lines[i]) then [DerivedRow(lines[i], width)] else [])
  {
    assert lines[..i + 1][..i] == lines[..i];
  }

  /** The rows `populate_table` derives from a saved Logs text. */
  function DerivedRows(logs: string, width: nat): (r: seq<Row>)
    ensures |r| <= Count(logs, '\n') + 1
    ensures forall k :: 0 <= k < |r| ==> |r[k]| == width
  {
    RowsOfCount(Split(logs, '\n'), width);
    RowsOfWidth(Split(logs, '\n'), width);
    RowsOf(Split(logs, '\n'), width)
  }

  /** Every derived row has one cell per column. */
  lemma {:induction false} RowsOfWidth(lines: seq<string>, width: nat)
    ensures forall k :: 0 <= k < |RowsOf(lines, width)| ==> |RowsOf(lines, width)[k]| == width
  {
    if lines != [] {
      RowsOfWidth(lines[..|lines| - 1], width);
    }
  }

  /** Deriving rows from two runs of lines gives the rows of each, concatenated. */
  lemma {:induction false} RowsOfAppend(a: seq<string>, b: seq<string>, width: nat)
    ensures RowsOf(a + b, width) == RowsOf(a, width) + RowsOf(b, width)
  {
    if b != [] {
      var b' := b[..|b| - 1];
      assert (a + b)[..|a + b| - 1] == a + b';
      RowsOfAppend(a, b', width);
    } else {
      assert a + b == a;
    }
  }

  /** A data row derives as many rows as there are data rows, and no more. */
  lemma {:induction false} RowsOfCount(lines: seq<string>, width: nat)
    ensures |RowsOf(lines, width)| <= |lines|
    ensures (forall k :: 0 <= k < |lines| ==> !IsDataRow(lines[k])) ==> RowsOf(lines, width) == []
  {
    if lines != [] {
      RowsOfCount(lines[..|lines| - 1], width);
    }
  }

  /**
   * One character of an appended line as `QTextEdit.toPlainText()` gives it
   * back: a carriage return, a Unicode line or paragraph separator, or one of
   * Qt's frame markers U+FDD0 and U+FDD1 breaks the paragraph, and a no-break
   * space reads back as a space.
   */
  function PlainChar(c: char): (r: char)
    ensures r == '\n' <==> c in "\n\r\U{2028}\U{2029}\U{FDD0}\U{FDD1}"
    ensures r == c <==> c !in "\r\U{2028}\U{2029}\U{FDD0}\U{FDD1}\U{00A0}"
  {
    if c == '\r' || c == '\U{2028}' || c == '\U{2029}' || c == '\U{FDD0}' || c == '\U{FDD1}' then '\n'
    else if c == '\U{00A0}' then ' '
    else c
  }

  /** An appended line as the Logs text reads it back. */
  function PlainText(line: string): string
  {
    seq(|line|, i requires 0 <= i < |line| => PlainChar(line[i]))
  }

  /** A line that the Logs text reads back unchanged. */
  predicate QtPlain(line: string)
  {
    forall k :: 0 <= k < |line| ==> PlainChar(line[k]) == line[k]
  }

  /**
   * The Logs tab after `QTextEdit.append(line)`: a new paragraph at the end.
   * What was there stays, a line break separates it from the new paragraph,
   * and the new paragraph is the line as the Logs text reads it back.
   */
  function AppendLine(log: string, line: string): (r: string)
    ensures log != "" ==> |r| == |log| + 1 + |line| && r[..|log|] == log && r[|log|] == '\n'
    ensures log == "" ==> |r| == |line|
    ensures forall k :: 0 <= k < |line| ==> r[|r| - |line| + k] == PlainChar(line[k])
  {
    if log == "" then PlainText(line) else log + "\n" + PlainText(line)
  }

  /**
   * Appending a line to the Logs text appends to the derived rows exactly the
   * row of that line when it is a data row, and nothing otherwise.
   */
  lemma DerivedAfterAppend(log: string, line: string, width: nat)
    requires '\n' !in line && QtPlain(line)
    ensures DerivedRows(AppendLine(log, line), width) ==
      DerivedRows(log, width) + (if IsDataRow(line) then [DerivedRow(line, width)] else [])
  {
    assert PlainText(line) == line;
    SplitNoSeparator(line, '\n');
    assert RowsOf([line], width) == RowsOf([], width) + (if IsDataRow(line) then [DerivedRow(line, width)] else []);
    if log == "" {
      assert Split(log, '\n') == [""];
      assert RowsOf([""], width) == [] by {
        assert !IsDataRow("");
        assert [""][..0] == [];
      }
    } else {
      assert AppendLine(log, line) == log + ['\n'] + line;
      SplitAppend(log, line, '\n');
      RowsOfAppend(Split(log, '\n'), [line], width);
    }
  }

  /**
   * A line the output reader passes on is non-empty, holds no `CellId`, and,
   * coming from one `readline()`, holds no line break.
   */
  lemma ReaderLineShape(raw: string)
    requires IsReadLine(raw)
    requires ReaderFilter(raw).Some?
    ensures var line := ReaderFilter(raw).value;
      line != "" && !Contains(line, "CellId") && '\n' !in line
  {
    StripOfReadLine(raw);
  }

  /** Stripping a line `readline()` returned drops its line break, if any. */
  lemma StripOfReadLine(raw: string)
    requires IsReadLine(raw)
    ensures '\n' !in Strip(raw)
  {
    var line := Strip(raw);
    var o := StripOffset(raw);
    if line != "" {
      assert line[|line| - 1] != '\n' by {
        assert IsSpace('\n') && !IsSpace(line[|line| - 1]);
      }
      forall p | 0 <= p < |line| - 1 ensures line[p] != '\n' {
        assert line[p] == raw[o + p] && o + p < |raw| - 1;
      }
    }
  }

  /**
   * The live table stays re-derivable from the Logs text: if the log derives
   * the live rows with their items stripped, it still does after the reader
   * passes on one more line, which goes both to the log and to `update_table`,
   * provided the Logs text reads that line back unchanged.
   */
  lemma LiveTableRederivable(log: string, rows: seq<Row>, raw: string)
    requires DerivedRows(log, Width) == StripRows(rows)
    requires IsReadLine(raw) && ReaderFilter(raw).Some? && QtPlain(ReaderFilter(raw).value)
    ensures var line := ReaderFilter(raw).value;
      DerivedRows(AppendLine(log, line), Width) ==
        StripRows(rows + (if IsDataRow(line) then [LiveRow(line)] else []))
  {
    ReaderLineShape(raw);
    LiveRowsAfterLine(log, rows, ReaderFilter(raw).value);
  }

  /** The step of `LiveTableRederivable` for one line that holds no line break. */
  lemma LiveRowsAfterLine(log: string, rows: seq<Row>, line: string)
    requires DerivedRows(log, Width) == StripRows(rows)
    requires '\n' !in line && QtPlain(line)
    ensures DerivedRows(AppendLine(log, line), Width) ==
      StripRows(rows + (if IsDataRow(line) then [LiveRow(line)] else []))
  {
    DerivedAfterAppend(log, line, Width);
    if IsDataRow(line) {
      DerivedIsStrippedLive(line);
      StripRowsAppend(rows, [LiveRow(line)]);
      assert StripRows([LiveRow(line)]) == [StripCells(LiveRow(line))];
    } else {
      assert rows + [] == rows;
    }
  }

  /**
   * A line holding a carriage return between two parts `a` and `b` counts
   * the separators of both, so the reader passes it to `update_table` as one
   * row when together they hold six; but the Logs text reads it back as two
   * lines, and re-deriving gives the rows of `a` and of `b` on their own.
   */
  lemma CarriageReturnSplitsRow(log: string, a: string, b: string)
    requires '\n' !in a && '\n' !in b && QtPlain(a) && QtPlain(b)
    ensures Count(a + "\r" + b, ';') == Count(a, ';') + Count(b, ';')
    ensures DerivedRows(AppendLine(log, a + "\r" + b), Width) ==
      DerivedRows(log, Width) + RowsOf([a], Width) + RowsOf([b], Width)
  {
    CountAppend(a, "\r" + b, ';');
    assert a + "\r" + b == a + ("\r" + b);
    RowsOfOne(a);
    RowsOfOne(b);
    if log == "" && a == "" {
      assert a + "\r" + b == "\r" + b;
      BreakOnEmptyLog(b);
      assert DerivedRows(log, Width) == [] by {
        assert Split(log, '\n') == [""];
      }
    } else {
      var first := AppendLine(log, a);
      calc {
        DerivedRows(AppendLine(log, a + "\r" + b), Width);
        { BreakAsTwoAppends(log, a, b); }
        DerivedRows(AppendLine(first, b), Width);
        { DerivedAfterAppend(first, b, Width); }
        DerivedRows(first, Width) + RowsOf([b], Width);
        { DerivedAfterAppend(log, a, Width); }
        DerivedRows(log, Width) + RowsOf([a], Width) + RowsOf([b], Width);
      }
    }
  }

  lemma RowsOfOne(line: string)
    ensures RowsOf([line], Width) == if IsDataRow(line) then [DerivedRow(line, Width)] else []
  {
    assert [line][..0] == [];
  }

  /** Unless both the log and `a` are empty, the line reads back as `a` and `b` appended in turn. */
  lemma BreakAsTwoAppends(log: string, a: string, b: string)
    requires QtPlain(a) && QtPlain(b) && (log != "" || a != "")
    ensures AppendLine(log, a + "\r" + b) == AppendLine(AppendLine(log, a), b)
  {
    PlainTextBreaks(a, b);
    assert PlainText(a) == a && PlainText(b) == b;
  }

  /** A carriage return between two plain parts reads back as a line break. */
  lemma PlainTextBreaks(a: string, b: string)
    requires QtPlain(a) && QtPlain(b)
    ensures PlainText(a + "\r" + b) == a + "\n" + b
  {
    var t := a + "\r" + b;
    forall k | 0 <= k < |t| ensures PlainText(t)[k] == (a + "\n" + b)[k] {
      if k < |a| {
        assert t[k] == a[k];
      } else if k > |a| {
        assert t[k] == b[k - |a| - 1];
      }
    }
  }

  /** A line that starts with a line break, on an empty log, derives only what its rest does. */
  lemma BreakOnEmptyLog(b: string)
    requires '\n' !in b && QtPlain(b)
    ensures DerivedRows(AppendLine("", "\r" + b), Width) == RowsOf([b], Width)
  {
    PlainTextBreaks("", b);
    assert AppendLine("", "\r" + b) == "" + ['\n'] + b;
    SplitAppend("", b, '\n');
    SplitNoSeparator(b, '\n');
    assert Split("", '\n') == [""];
    RowsOfAppend([""], [b], Width);
    assert [""][..0] == [];
  }

  /** Stripping the items of two runs of rows strips each run. */
  lemma StripRowsAppend(rows: seq<Row>, more: seq<Row>)
    ensures StripRows(rows + more) == StripRows(rows) + StripRows(more)
  {
  }

  /** A header or echo line of the decoder is never a data row. */
  lemma HeaderLineRejected(rest: string)
    ensures !IsDataRow("CellId;" + rest)
  {
    assert StartsAt("CellId;" + rest, 0, "CellId");
  }
}
