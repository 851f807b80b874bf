/** The model a grid editor works over: a list of rows of cell texts with
    the columns that describe them. Every caller passes the column before
    the row to get_value_at and set_value_at, whatever order the declared
    protocol gives, and the editor also calls restore_row, which the
    protocol does not declare. */
module HostModels {
  import opened GridTable
  import opened PyList
  import opened CellTypes

  class HostModel {
    const columns: seq<Column>
    var rows: Table
    /** The rows as last committed, which have_changes compares against. */
    var saved: Table

    constructor (columns: seq<Column>, rows: Table)
      ensures this.columns == columns && this.rows == rows && saved == rows
    {
      this.columns := columns;
      this.rows := rows;
      saved := rows;
    }

    /** The row insert_row creates: one empty text per column. */
    function Blank(): (row: Row)
      ensures |row| == |columns|
      ensures forall c :: 0 <= c < |row| ==> row[c] == ""
    {
      seq(|columns|, _ => "")
    }

    /** get_value_at(col, row): the text at rows[row][col], "" outside. */
    method GetValueAt(col: int, row: int) returns (v: string)
      ensures v == Cell(rows, row, col)
      ensures 0 <= row < |rows| && 0 <= col < |rows[row]| ==> v == rows[row][col]
    {
      match Slot(rows, row, col)
      case None => v := "";
      case Some(rc) => v := rows[rc.0][rc.1];
    }

    /** set_value_at(col, row, value): replaces one cell, nothing outside. */
    method SetValueAt(col: int, row: int, value: string)
      modifies this`rows
      ensures rows == SetCell(old(rows), row, col, value)
    {
      match Slot(rows, row, col)
      case None =>
      case Some(rc) => rows := rows[rc.0 := rows[rc.0][rc.1 := value]];
    }

    method TotalRows() returns (n: nat)
      ensures n == |rows|
    {
      n := |rows|;
    }

    /** insert_row(row): a blank row at the list position row. */
    method InsertRow(row: int)
      modifies this`rows
      ensures rows == InsertAt(old(rows), row, Blank())
    {
      rows := InsertAt(rows, row, Blank());
    }

    method DeleteRow(row: int)
      requires 0 <= row < |rows|
      modifies this`rows
      ensures rows == DeleteAt(old(rows), row)
    {
      rows := DeleteAt(rows, row);
    }

    /** get_row_state(row): what restore_row needs to put the row back. */
    method GetRowState(row: int) returns (state: Row)
      requires 0 <= row < |rows|
      ensures state == rows[row]
    {
      state := rows[row];
    }

    method RestoreRow(row: int, state: Row)
      modifies this`rows
      ensures rows == InsertAt(old(rows), row, state)
    {
      rows := InsertAt(rows, row, state);
    }

    method HaveChanges() returns (b: bool)
      ensures b <==> rows != saved
    {
      b := rows != saved;
    }
  }
}
