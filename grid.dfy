/**
 * The part of a Qt table widget the capture pipeline uses: rows that grow at
 * the bottom and items set one cell at a time.
 */
module Grid {
  import opened Wrappers
  import opened Records

  /** A flat position below `rows * width` names a cell: its row is below `rows`. */
  lemma FlatBound(i: nat, rows: nat, width: nat)
    requires i < rows * width
    ensures width > 0 && i / width < rows
  {
    if width > 0 && i / width >= rows {
      MulMonotone(rows, i / width, width);
    }
  }

  lemma MulMonotone(a: nat, b: nat, width: nat)
    requires a <= b
    ensures a * width <= b * width
  {
    assert b * width == a * width + (b - a) * width;
  }

  /**
   * The rows after the item at flat position `i` is set: the cell it names,
   * row `i / width` and column `i % width`, holds `text`, and nothing else changes.
   */
  function SetFlat(rows: seq<Row>, width: nat, i: nat, text: string): (r: seq<Row>)
    requires forall k :: 0 <= k < |rows| ==> |rows[k]| == width
    requires i < |rows| * width
    ensures |r| == |rows| && forall k :: 0 <= k < |r| ==> |r[k]| == width
    ensures width > 0 && i / width < |rows| && r[i / width][i % width] == Some(text)
    ensures forall k, j :: 0 <= k < |r| && 0 <= j < width && (k, j) != (i / width, i % width) ==>
      r[k][j] == rows[k][j]
  {
    FlatBound(i, |rows|, width);
    rows[i / width := rows[i / width][i % width := Some(text)]]
  }

  /** The flat position of a column inside the table names that very row and column. */
  lemma FlatInRange(row: nat, col: nat, width: nat)
    requires col < width
    ensures (row * width + col) / width == row && (row * width + col) % width == col
  {
    var i := row * width + col;
    var q, m := i / width, i % width;
    assert q * width + m == row * width + col;
    if q < row {
      MulMonotone(q + 1, row, width);
    } else if q > row {
      MulMonotone(row + 1, q, width);
    }
    assert q * width == row * width;
  }

  /**
   * On the bottom row the flat position of a column inside the table is that
   * cell, and that of a column past the last lies past every cell.
   */
  lemma FlatOnLastRow(rows: nat, col: nat, width: nat)
    requires rows > 0
    ensures col < width ==> (rows - 1) * width + col < rows * width
    ensures col >= width ==> (rows - 1) * width + col >= rows * width
  {
    assert rows * width == (rows - 1) * width + width;
  }

  class Table {
    const columnCount: nat
    var rows: seq<Row>

    /** Every row has one cell per column. */
    ghost predicate Valid()
      reads this
    {
      forall i :: 0 <= i < |rows| ==> |rows[i]| == columnCount
    }

    /** A table with `columnCount` columns and no rows. */
    constructor (columnCount: nat)
      ensures Valid()
      ensures this.columnCount == columnCount && rows == []
    {
      this.columnCount := columnCount;
      rows := [];
    }

    function RowCount(): nat
      reads this
    {
      |rows|
    }

    /** `insertRow(rowCount())`: a new row without items at the bottom. */
    method InsertRow()
      requires Valid()
      modifies this
      ensures Valid()
      ensures rows == old(rows) + [EmptyRow(columnCount)]
    {
      rows := rows + [EmptyRow(columnCount)];
    }

    /**
     * `setItem(row, col, item)`: Qt finds the item by its flat position
     * `row * columnCount + col`, so a column past the last reaches a cell of
     * a later row, and a flat position past the last cell is ignored.
     */
    method SetItem(row: nat, col: nat, text: string)
      requires Valid()
      modifies this
      ensures Valid()
      ensures rows == if row * columnCount + col < |old(rows)| * columnCount
        then SetFlat(old(rows), columnCount, row * columnCount + col, text)
        else old(rows)
    {
      var i := row * columnCount + col;
      if i < |rows| * columnCount {
        rows := SetFlat(rows, columnCount, i, text);
      }
    }
    /**
     * Insert a row at the bottom, then set item i of it to `values[i]` for
     * each i in turn, as each of the source's add-row loops does.
     */
    method AppendItems(values: seq<string>)
      requires Valid()
      modifies this
      ensures Valid()
      ensures rows == old(rows) + [Placed(values, columnCount)]
    {
      var r := |rows|;
      InsertRow();
      PlacedNothing(columnCount);
      assert values[..0] == [];
      var i := 0;
      while i < |values|
        invariant 0 <= i <= |values|
        invariant Valid() && |rows| == r + 1
        invariant rows[..r] == old(rows)
        invariant rows[r] == Placed(values[..i], columnCount)
      {
        SetItem(r, i, values[i]);
        FlatOnLastRow(r + 1, i, columnCount);
        if i < columnCount {
          FlatInRange(r, i, columnCount);
        }
        PlacedExtend(values, i, columnCount);
        i := i + 1;
      }
      assert values[..i] == values;
      assert rows == rows[..r] + [rows[r]];
    }
  }
}
