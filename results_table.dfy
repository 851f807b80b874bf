/** The results table of the script console: a grid model the script fills
    by appending columns and rows, and that the console empties between
    runs. */
module ResultsTables {
  import opened Outcomes
  import opened CellTypes
  import opened GridTable

  /** The cells of one pushed row (the script may push any values; the
      model keeps their text). */
  type Cells = seq<string>

  /** What get_value_at(col, row) answers: "" past the last row or past the
      end of the row, the cell otherwise; None where an index before the
      start raises. */
  function ValueAt(rows: seq<Cells>, col: int, row: int): Option<string>
  {
    if |rows| <= row then Some("")
    else match PyIndex(row, |rows|)
      case None => None
      case Some(r) =>
        if |rows[r]| <= col then Some("")
        else match PyIndex(col, |rows[r]|)
          case None => None
          case Some(c) => Some(rows[r][c])
  }

  /** The column push_column appends: a string column whose id, short name
      and long name are all the given name. */
  function StringColumn(name: string): (c: Column)
    ensures c.id == name && c.nameShort == name && c.nameLong == Some(name)
    ensures c.cellType == StringType(false) && c.initWidth == -1 && !c.optional
  {
    Column(name, StringType(false), name, Some(name), -1, false)
  }

  /** With indexes that are not negative, get_value_at never fails: it gives
      the cell where there is one and "" everywhere else. */
  lemma ValueAtNeverFails(rows: seq<Cells>, col: int, row: int)
    requires row >= 0 && col >= 0
    ensures ValueAt(rows, col, row) ==
      Some(if row < |rows| && col < |rows[row]| then rows[row][col] else "")
  {
  }

  /** A negative row counts from the end; one before the first row raises. */
  lemma ValueAtNegativeRow(rows: seq<Cells>, col: int, row: int)
    requires row < 0 && col >= 0
    ensures row < -|rows| ==> ValueAt(rows, col, row) == None
    ensures -|rows| <= row ==> ValueAt(rows, col, row) == ValueAt(rows, col, row + |rows|)
  {
  }

  /** Appending a row makes its cells readable at the new last row and
      changes no earlier answer. */
  lemma PushRowReads(rows: seq<Cells>, cells: Cells, col: int, row: int)
    requires row >= 0 && col >= 0
    ensures row < |rows| ==> ValueAt(rows + [cells], col, row) == ValueAt(rows, col, row)
    ensures row == |rows| ==> ValueAt(rows + [cells], col, row) == Some(if col < |cells| then cells[col] else "")
    ensures row > |rows| ==> ValueAt(rows + [cells], col, row) == Some("")
  {
    ValueAtNeverFails(rows + [cells], col, row);
    if row < |rows| {
      ValueAtNeverFails(rows, col, row);
      assert (rows + [cells])[row] == rows[row];
    }
  }

  class ResultsTableModel {
    var columns: seq<Column>
    var rows: seq<Cells>

    constructor ()
      ensures columns == [] && rows == []
    {
      columns := [];
      rows := [];
    }

    method GetColumns() returns (cs: seq<Column>)
      ensures cs == columns
    {
      cs := columns;
    }

    /** get_value_at(col, row); None where Python raises IndexError. */
    method GetValueAt(col: int, row: int) returns (v: Option<string>)
      ensures v == ValueAt(rows, col, row)
      ensures row >= 0 && col >= 0 ==> v.Some?
    {
      if |rows| <= row {
        return Some("");
      }
      var r := PyIndex(row, |rows|);
      if r.None? {
        return None;
      }
      var cells := rows[r.value];
      if |cells| <= col {
        return Some("");
      }
      var c := PyIndex(col, |cells|);
      if c.None? {
        return None;
      }
      v := Some(cells[c.value]);
    }

    method GetRowsCount() returns (n: nat)
      ensures n == |rows|
    {
      n := |rows|;
    }

    method TotalRows() returns (n: nat)
      ensures n == |rows|
    {
      n := |rows|;
    }

    /** push_column(name): one more string column; the cell type argument is
        ignored. */
    method PushColumn(name: string)
      modifies this`columns
      ensures columns == old(columns) + [StringColumn(name)]
    {
      columns := columns + [StringColumn(name)];
    }

    method PushRow(cells: Cells)
      modifies this`rows
      ensures rows == old(rows) + [cells]
    {
      rows := rows + [cells];
    }

    /** ResultsTable.clear: no columns and no rows are left. */
    method Clear()
      modifies this
      ensures columns == [] && rows == []
    {
      columns := [];
      rows := [];
    }
  }
}
