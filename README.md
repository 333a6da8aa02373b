# IMSI MAP capture session, modelled in Dafny

IMSI MAP is a PyQt5 front end to a GSM receiver. While a capture runs, a
decoder process prints one `;`-separated line per observed subscriber. An
output reader strips each line and drops empty lines and `CellId` header
lines. It appends what remains to the Logs tab, and `update_table` turns
every line with at least six `;` into a new row of the eleven-column
Captured IMSIs table. Saving a scan stores the Logs text and the capture
parameters in `logs/scan_data.json` under a timestamp key, and lists the scan
as `Scan at <timestamp> on <frequency> Hz`. From that list a stored scan can
be read back (View Log), re-derived into a table (View Table), replayed with
its stored parameters (Repeat Scan) or dumped to a text file (Export Data).
The live table can be exported as `.csv`, `.txt` or `.sqlite`.

The project models this session core:

- `wrappers.dfy` (`Wrappers`): `Option`.
- `text.dfy` (`Text`): the Python string operations the core relies on.
  These are `str.count`, `in`, `split` on one character, `join` and `strip`
  (with Python's whitespace set).
- `records.dfy` (`Records`): the line protocol. It says which lines are data
  rows and where their fields land among the eleven columns. It also says
  how a saved Logs text is turned back into rows, and that the live table
  stays re-derivable from the Logs text.
- `grid.dfy` (`Grid`): a `QTableWidget` as a class whose rows are sequences
  of optional item texts. It has `insertRow` at the end, `setItem` and the
  insert-then-set loop the core uses. `setItem` finds its cell by the flat
  position `row * columnCount + col`: a column past the last reaches the next
  row, and a flat position past the last cell is ignored.
- `labels.dfy` (`Labels`): the scan label and `re.search(r"Scan at (.+?) on")`.
  The search is leftmost and lazy, and `.` stops at a line break. The lemma
  beside it says that a label gives back its timestamp.
- `store.dfy` (`Store`): the scan store.
  - The JSON document is modelled as an ordered association list, because
    a Python dict keeps insertion order and the Scans list shows that order.
  - It covers `d[k] = v`, `get` with its defaults, the scans list and the
    parameter extraction for replay.
- `export.dfy` (`Export`):
  - The `.txt`, `.csv` (`csv.writer`, minimal quoting, `\r\n`) and `.sqlite`
    exports, and the Export Data dump.
  - A reference CSV reader, and read-back lemmas for the `.txt` and `.csv`
    formats.
- `app.dfy` (`App`): the main window as a class. It holds the live table,
  the Logs text, the Scans list, the store file, the receiver's parameters
  and the tunings sent to it. The re-derived table dialog is a second class.

Three properties of the code that the model keeps:

- `start_capture` never clears the live table, so rows from earlier captures
  stay.
- No export coerces stored numbers or replaces bad numeric fields with null.
  Each cell's text is written as it is.
- The scan store is written in place, not atomically.

## Model

| member | source | states |
|---|---|---|
| Text.Split | imsimap.py:1012 | `line.split(';')` has exactly one piece more than `line` has separators, and no piece holds the separator |
| Text.JoinSplit | imsimap.py:1012 | joining the pieces of a split with the separator gives back the line |
| Text.SplitJoin | imsimap.py:1012 | splitting a join of separator-free pieces gives back the pieces |
| Text.Strip | imsimap.py:122 | `strip()` leaves no whitespace at either end, is a contiguous slice of its input, and removes only whitespace |
| Text.StripIdempotent | imsimap.py:122 | stripping a stripped line changes nothing |
| Text.StripBlank | imsimap.py:122-126 | a stripped line is empty exactly when the line is all whitespace |
| Records.Placed | imsimap.py:1019-1021 | the row that insert-then-setItem builds has exactly `width` cells |
| Records.PlacedAt | imsimap.py:1019-1021 | column j holds value j when there is one, and no item otherwise; values past the last column are dropped |
| Records.PlacedIgnoresOverflow | imsimap.py:1019-1021 | values beyond the table's width do not change the row |
| Records.LiveRowCells | imsimap.py:1008-1021 | column j of a live row holds field j+1 of the line or nothing; a data row fills the first six columns; no cell holds `;` |
| Records.RecordRow | imsimap.py:1008-1021 | a record of `;`-free fields has one `;` fewer than fields, and goes into the table as its fields after the counter |
| Records.IsDataRow | imsimap.py:1010 | a line `update_table` takes as a data row splits into at least seven fields |
| Records.LiveRow | imsimap.py:1012-1021 | the live row of a line has one cell per column, and no cell holds `;` |
| Records.ReaderFilter | imsimap.py:122-127 | a line passed on is non-empty, holds no `CellId` and neither starts nor ends with whitespace; a line is dropped exactly when it is all whitespace or its stripped text holds `CellId` |
| Records.HeaderLineRejected | imsimap.py:1010 | a line starting with the `CellId` header is never a data row |
| Records.ReaderLineShape | imsimap.py:122-127 | a line the reader passes on is non-empty, holds no `CellId` and no line break |
| Records.DerivedIsStrippedLive | imsimap.py:201-213 | the dialog's row for a line is the live row for that line with every item stripped |
| Records.RowsOfAppend | imsimap.py:201-206 | re-deriving rows from two runs of lines gives the rows of the first run, then the rows of the second |
| Records.RowsOfCount | imsimap.py:201-206 | no more rows are derived than there are lines |
| Records.DerivedRows | imsimap.py:201-206 | no more rows are derived from a Logs text than it has lines, and each has one cell per column |
| Records.PlainChar | imsimap.py:574 | a character reads back from the Logs text as a line break exactly when it is a line break, a carriage return, U+2028, U+2029, U+FDD0 or U+FDD1, and unchanged exactly when it is none of those nor U+00A0 |
| Records.AppendLine | imsimap.py:574 | appending keeps the old Logs text, puts one line break after it when it is not empty, and ends with the line as it reads back |
| Records.DerivedAfterAppend | imsimap.py:201-206 | appending one line to the Logs text adds exactly that line's row, if it is a data row, to the re-derived rows, for a line without a line break that the Logs text reads back unchanged |
| Records.LiveTableRederivable | imsimap.py:574-576 | the live table, with items stripped, stays equal to the rows re-derived from the Logs text after each line the reader passes on, when the Logs text reads that line back unchanged |
| Records.CarriageReturnSplitsRow | imsimap.py:574-576 | a line with a carriage return between parts `a` and `b` counts the separators of both, so it can reach the live table as one row; yet the Logs text re-derives the rows of `a` and of `b` separately |
| Text.CountAppend | imsimap.py:1010 | the separators in two texts put together are those of each |
| Grid.Table.constructor | imsimap.py:531-533 | a new table has its column count and no rows |
| Grid.Table.InsertRow | imsimap.py:1015-1016 | `insertRow(rowCount())` adds one row with no items at the bottom and changes nothing else |
| Grid.Table.SetItem | imsimap.py:1021 | `setItem` sets the cell at flat position `row * columnCount + col` when that position lies inside the table, and changes nothing otherwise |
| Grid.SetFlat | imsimap.py:1021 | the cell a flat position inside the table names, row `i / width` and column `i % width`, holds the text; every other cell and every row's length is unchanged |
| Grid.FlatInRange | imsimap.py:1021 | the flat position of a column inside the table names exactly that row and column |
| Grid.FlatOnLastRow | imsimap.py:1019-1021 | on the bottom row, a column inside the table has a flat position inside it, and a column past the last one lies past every cell |
| Grid.Table.AppendItems | imsimap.py:1015-1021 | inserting a row and setting item i to value i gives the old rows plus the placed row |
| Labels.SearchFrom | imsimap.py:852-853 | a found group is non-empty, holds no line break and sits after `Scan at ` before ` on`; it is the match at the leftmost position that has one, and nothing is found only when no position from the start matches |
| Labels.LazyGroup | imsimap.py:852 | the lazy group is a slice of the text, one line, followed by ` on`, and no shorter length is followed by ` on`; it fails only when no length within the line is followed by ` on` |
| Labels.LabelRoundTrip | imsimap.py:852-853 | the timestamp read back from a scan's label is the timestamp it was built from, when the timestamp is one line without ` on` |
| Labels.LazyGroupFinds | imsimap.py:852 | the lazy group skips every shorter length and stops exactly at the timestamp |
| Labels.ScanLabel | imsimap.py:757-758 | a label starts with `Scan at `, the timestamp and ` on`, and ends with the frequency and ` Hz` |
| Labels.ExtractTimestamp | imsimap.py:852-853 | a found timestamp is the group of a match at some position with no match before it; none is found only when the pattern matches nowhere |
| Store.PutGet | imsimap.py:805-810 | after `d[k] = v`, key k holds v and every other key holds what it held |
| Store.PutKeys | imsimap.py:805-810 | `d[k] = v` keeps the key order and adds a new key last |
| Store.PutAsMap | imsimap.py:805-810 | `d[k] = v` keeps keys distinct, and as a mapping the result is the old one with only k set |
| Store.Put | imsimap.py:805-810 | `d[k] = v` grows the document by at most one entry and leaves `(k, v)` in it |
| Store.NewEntry | imsimap.py:805-810 | a new entry has exactly the keys `frequency`, `ppm`, `gain` and `logs`; its logs read back as the saved Logs text and its label shows the frequency |
| Store.GetAsMap | imsimap.py:859 | looking a key up in the ordered document agrees with looking it up in the mapping |
| Store.AsMapKeys | imsimap.py:755 | the mapping's keys are the document's keys |
| Store.GetFinds | imsimap.py:859 | looking up the key at position i finds the entry at position i |
| Store.Load | imsimap.py:768-784 | a missing store file reads as the empty document, an existing one as its content |
| Store.ScanLabels | imsimap.py:753-758 | the Scans list has one label per stored scan |
| Store.ListedScanSelectsItsEntry | imsimap.py:852-859 | selecting the i-th listed scan gives back its key and shows that scan's own logs |
| Store.ExtractParams | imsimap.py:888-903 | a missing key raises, and only when one of the three keys is missing; otherwise the values are the three conversions when all succeed, and three nulls when any fails |
| Store.ReplayParams | imsimap.py:888-944 | replay goes ahead exactly when the label matches and all three stored parameters are present, not null and convertible to non-null values; it then applies the converted values |
| Export.CellTexts | imsimap.py:1049 | one text per cell |
| Export.CsvField | imsimap.py:1041 | a field that needs no quotes is written as it is; a quoted field opens with a quote and its body reads back as the field |
| Export.TxtLines | imsimap.py:1046-1049 | a `.txt` export has one line per row plus the header line |
| Export.TxtDocumentIsJoin | imsimap.py:1044-1049 | the `.txt` export is its lines joined by line breaks, with one trailing break |
| Export.TxtLinesSingle | imsimap.py:1044-1049 | no exported line holds a line break when no heading or item does |
| Export.TxtDocumentReadsBack | imsimap.py:1044-1049 | split on line breaks, the export is the header line and one line per row; split on tabs, each row line is that row's cells |
| Export.TxtExportReadsBack | imsimap.py:1043-1049 | the `.txt` export of the live table reads back as its header and its rows |
| Export.JoinFree | imsimap.py:1049 | joining pieces free of a character with another separator gives a text free of it |
| Export.LineSurvivesTxtExport | imsimap.py:1044-1049 | a tab-free decoder line with at least eleven fields after its counter comes back from its `.txt` line as exactly those eleven fields |
| Export.ReadQuotedDoubled | imsimap.py:1038-1041 | a field with its quotes doubled and a closing quote reads back as the field |
| Export.ParseFirstField | imsimap.py:1038-1041 | a record's first field as `csv.writer` writes it reads back, and reading continues after the following comma |
| Export.CsvRoundTrip | imsimap.py:1034-1041 | every non-empty list of fields, written as `csv.writer` writes its fields and comma-joined, reads back as exactly those fields |
| Export.CsvRecordReadsBack | imsimap.py:1034-1041 | every record `csv.writer` writes, including the empty record and the record of one empty field (written as `""`), reads back as exactly its fields |
| Export.RecordNotEmpty | imsimap.py:1041 | only the record of one empty field would be written as an empty line |
| Export.BindAsWritten | imsimap.py:1063-1065 | the INSERT binds exactly eleven values, one per column of the statement; `Export.BindAsWrittenMisplaces` states which value each column gets |
| Export.BindAsWrittenMisplaces | imsimap.py:1060-1065 | as written, column j receives cell j, so `stamp` gets TMSI-1 and `cell` gets the Timestamp; no column gets the cell under its own heading |
| Export.BindAsWrittenCounterexample | imsimap.py:1063-1065 | for a concrete captured row, `stamp` receives the TMSI-1 text |
| Export.Bind | imsimap.py:1060-1065 | corrected: the columns in statement order, each receiving the cell under its own heading |
| Export.Dump | imsimap.py:947-975 | the dump is complete exactly when the logs are absent or text. It always starts with the Timestamp/Frequency/PPM/Gain/Logs head. A complete dump is the head, then the logs (or `No logs available.`), then `Captured IMSIs:` and the table's tab-joined rows; otherwise it is the head alone |
| Export.ExportFor | imsimap.py:1028-1068 | no name writes nothing; `.csv` wins over `.txt` over `.sqlite`. The `.csv` and `.txt` files hold their exports. The `.sqlite` file holds one insert per row, each binding every heading's column to that heading's cell. Any other name writes nothing |
| App.SliderValuesInRange | imsimap.py:386-387 | every value the frequency slider can take passes the frequency guard |
| App.ImsiMap.constructor | imsimap.py:268-272 | a new window has an empty table and Logs tab, the receiver's initial parameters, and a Scans list filled from the store |
| App.ImsiMap.LoadScanData | imsimap.py:768-784 | a missing store file reads as the empty document, an existing one as its content |
| App.ImsiMap.SaveScanData | imsimap.py:814-816 | the store file is replaced by the given document |
| App.ImsiMap.PopulateScansTab | imsimap.py:748-761 | the Scans list becomes one label per stored scan, in key order |
| App.ImsiMap.AddNewScan | imsimap.py:786-812 | one label is appended; the store becomes the loaded document with the timestamp key set to the current parameters and Logs text |
| App.ImsiMap.StartCapture | imsimap.py:709-718 | the start banner with the timestamp is appended to the Logs tab |
| App.ImsiMap.SaveAll | imsimap.py:704-706 | the scan so far is stored with the Logs text from before the new banner, and then a new capture starts |
| App.ImsiMap.UpdateTable | imsimap.py:1008-1021 | a data row adds its live row at the bottom of the table; any other line leaves the table unchanged |
| App.ImsiMap.AddRow | imsimap.py:998-1003 | a new row at the bottom from the data past its first field |
| App.ImsiMap.OnDecodedLine | imsimap.py:571-576 | a line the reader drops changes nothing. A line it passes on is appended to the Logs text and, when it is a data row, adds its live row |
| App.ImsiMap.SetFrequency | imsimap.py:621-638 | the receiver is retuned to 400 kHz below the target exactly when the target lies in 800–1990 MHz; the result reports which |
| App.ImsiMap.ViewLog | imsimap.py:846-863 | the dialog shows that scan's logs, `No logs available.` when there are none, and an empty text for null logs; nothing is shown when the label does not match or the logs are neither text nor null |
| App.ImsiMap.ViewTable | imsimap.py:865-885 | a dialog opens exactly when the label matches and the logs are text; its table is the rows re-derived from those logs |
| App.ImsiMap.SetParamsInContext | imsimap.py:911-914 | the receiver's three parameters become the given values |
| App.ImsiMap.RepeatScan | imsimap.py:917-944 | with replayable stored parameters, they are applied; a capture then starts exactly when the frequency slider accepts the frequency. Otherwise nothing changes |
| App.ImsiMap.WriteTxtRows | imsimap.py:1048-1049 | the loop writes exactly the tab-joined lines of the table's rows |
| App.ImsiMap.WriteCsvRows | imsimap.py:1040-1041 | the loop writes exactly one CSV record per row of the table |
| App.ImsiMap.ExportTable | imsimap.py:1028-1068 | the file written for a chosen name is the one the extension rules give for the live table; the `.sqlite` loop binds each row with the corrected binding |
| App.ImsiMap.ExportData | imsimap.py:947-975 | nothing is written when the label does not match; otherwise the file `exported_scan_data_<timestamp>.txt` holds the dump of that scan with the live table's rows |
| App.ImsiTableDialog.constructor | imsimap.py:186-200 | the dialog's table has one column per heading and holds the rows derived from the logs |
| App.ImsiTableDialog.PopulateTable | imsimap.py:201-206 | one new row per data line of the logs, in order |
| App.ImsiTableDialog.AddLine | imsimap.py:203-205 | a data line of the logs adds its derived row at the bottom; any other line adds nothing |
| App.ImsiTableDialog.AddRow | imsimap.py:208-213 | a new row at the bottom from the fields after the first, each stripped |

## Left out

- The subprocess and its supervision are not modelled: spawning the decoder, polling, restarting it, and the `Error:`/`Exception:` strings the generator yields. The model starts from each line `readline()` returns, after UTF-8 decoding. Those strings are never decoded as bytes, so they never reach the UI.
- Widgets, layouts, dialogs, message boxes, menus, the screenshot, help texts and the window-management actions are UI only and not modelled.
- The GNU Radio flowgraph is a foreign call. Starting and stopping it are not modelled; tuning is modelled as the list of centre frequencies sent to it. The frequency-sink range update is not modelled.
- The clock is a parameter: every timestamp is passed in already formatted.
- File and JSON I/O are left out: creating the `logs` directory, JSON encoding and decoding, and a store file that is not a JSON object. The store file is an optional document, and an unreadable file is not modelled.
- `int()` and `float()` on stored values are parameters (`Conversion`). Python's number parsing, NaN and infinities are not modelled.
- The saved-frequencies feature is not modelled. That is the frequency options combo, its file and `save_new_frequency`.
- App.ImsiMap.SetFrequency: frequencies are modelled as reals, so NaN is not modelled. The guard at imsimap.py:624 compares with `<` and `>`, so a NaN typed into the frequency box (`float("nan")` at imsimap.py:613) passes it and retunes the receiver. `int(nan)` then raises at imsimap.py:616 and the error dialog appears after the retune. Infinities are rejected by the guard, as for reals out of range.
- App.ImsiMap.ViewLog, App.ImsiMap.ViewTable and App.ImsiMap.ExportData model an exception raised inside a Qt slot as a `None` result; for ExportData a logs value that is not text gives the file with the head alone. Nothing catches those exceptions, and under PyQt5 an exception escaping a slot aborts the application. The model does not represent the abort. It leaves every field unchanged.
- `set_frequency_in_grgsm_text` and `set_frequency_in_grgsm_slider` are not modelled. They parse text as a float and copy values between the two widgets. The guard they share is modelled.
- App.ImsiMap.RepeatScan: `update_spinboxes` (imsimap.py:906-909) runs between applying the parameters and starting the capture, and is modelled only by whether the slider's `setValue` accepts the frequency (a parameter, since the check that it fits a C `int` is in PyQt). A frequency outside that range raises, so no capture starts and no banner is written, though the parameters stay applied. Also not modelled: the slider clamps the frequency to its range and can retune the receiver through its signal; the gain and ppm spin boxes clamp their values to 0–100 and −150–150, round them to one decimal, and re-apply them to the receiver through `set_gain_in_grgsm` and `set_ppm_in_grgsm`, so a stored gain of 120 ends as 100. The stored values are modelled as texts, so the model cannot clamp them.
- Gain and ppm widget changes are not modelled (`set_gain_in_grgsm`, `set_ppm_in_grgsm`), nor is the command text box.
- `QTextEdit.append` is modelled on plain text: a line break goes between lines, and when the text is read back a carriage return, U+2028, U+2029, U+FDD0 or U+FDD1 inside a line becomes a line break, and U+00A0 becomes a space. Qt's rich-text detection, which can render a line that looks like HTML, is not modelled. Records.DerivedAfterAppend and Records.LiveTableRederivable hold only for lines that read back unchanged; Records.CarriageReturnSplitsRow shows what goes wrong otherwise.
- Redirected `stdout`/`stderr` text is not modelled. It is inserted into the Logs tab by `onUpdateText`, so the modelled Logs text holds only the appended lines.
- `scrollToBottom` and `insertRow` at any position other than the end are not modelled.
- App.ImsiMap.ExportTable: the `.sqlite` file is modelled as the list of rows inserted by this export. `CREATE TABLE IF NOT EXISTS` appends them to the rows of any earlier export, and that is not modelled.
- Export.ExportFor: the `.sqlite` export uses the corrected binding `Export.Bind`, not the positional binding the code performs (see Findings). It requires rows of eleven cells, which the live table always has.
- Concurrency between the reader thread and the UI thread is not modelled. Qt queues the signals, so the model handles one line at a time.

## Findings

| source | as written | input that shows it | evidently intended | confidence | as-written member | corrected member |
|---|---|---|---|---|---|---|
| imsimap.py:1063-1065 | the eleven cell texts, in table order (TMSI-1 … Timestamp), are bound positionally to `(stamp, tmsi1, …, cell)`, so every value lands one column off | a row `111;222;310170000000001;USA;Verizon;Verizon;310;170;12345;0x1A2B;2024-01-01 10:00 CET` stores `111` as `stamp` and the timestamp as `cell` | each column receives the cell under its own heading (`stamp` ← Timestamp, `tmsi1` ← TMSI-1, …, `cell` ← CellId) | high (not executed) | Export.BindAsWrittenMisplaces | Export.Bind |
