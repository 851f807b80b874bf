/** The loops the grid editor's commands run over the host model, each
    through the model's own operations: appending and dropping rows,
    capturing, deleting and restoring rows, capturing and writing cells,
    and pasting a table cell by cell. */
module ModelEdits {
  import opened GridTable
  import opened PyList
  import opened HostModels
  import opened Commands


  /** The append loop: a blank row inserted at the end, n times. */
  method AppendBlankRows(model: HostModel, n: nat)
    modifies model`rows
    ensures model.rows == old(model.rows) + Blanks(n, model.Blank())
  {
    var i := 0;
    while i < n
      invariant 0 <= i <= n
      invariant model.rows == old(model.rows) + Blanks(i, model.Blank())
    {
      var total := model.TotalRows();
      ghost var prev := model.rows;
      model.InsertRow(total);
      assert prev[..|prev|] == prev;
      assert Blanks(i + 1, model.Blank()) == Blanks(i, model.Blank()) + [model.Blank()];
      i := i + 1;
    }
  }

  /** The undo-append loop: the last row deleted, n times. */
  method DropLastRows(model: HostModel, n: nat)
    requires n <= |model.rows|
    modifies model`rows
    ensures model.rows == old(model.rows)[..|old(model.rows)| - n]
  {
    var i := 0;
    while i < n
      invariant 0 <= i <= n
      invariant model.rows == old(model.rows)[..|old(model.rows)| - i]
    {
      var total := model.TotalRows();
      model.DeleteRow(total - 1);
      i := i + 1;
    }
  }

  /** get_row_state for each position, before anything is deleted. */
  method CaptureRows(model: HostModel, ps: seq<int>) returns (undo: seq<(int, Row)>)
    requires AllBelow(ps, |model.rows|)
    ensures undo == Captured(model.rows, ps)
  {
    undo := [];
    var k := 0;
    while k < |ps|
      invariant 0 <= k <= |ps|
      invariant |undo| == k && forall j :: 0 <= j < k ==> undo[j] == (ps[j], model.rows[ps[j]])
    {
      var st := model.GetRowState(ps[k]);
      undo := undo + [(ps[k], st)];
      k := k + 1;
    }
  }

  /** The delete loop: delete_row(p - minus), minus counting the rows
    already deleted. */
  method DeleteRowsAt(model: HostModel, ps: seq<int>)
    requires Deletable(ps, |model.rows|)
    modifies model`rows
    ensures model.rows == DeleteRun(old(model.rows), ps)
  {
    ghost var t := model.rows;
    var minus := 0;
    var k := 0;
    while k < |ps|
      invariant 0 <= k <= |ps| && minus == k
      invariant Deletable(ps[..k], |t|)
      invariant model.rows == DeleteRun(t, ps[..k])
    {
      assert ps[..k + 1][..k] == ps[..k];
      model.DeleteRow(ps[k] - minus);
      minus := minus + 1;
      k := k + 1;
    }
    assert ps[..|ps|] == ps;
  }

  /** The undo-delete loop: restore_row for each captured row, in the
    order of capture. */
  method RestoreRows(model: HostModel, caps: seq<(int, Row)>)
    modifies model`rows
    ensures model.rows == RestoreRun(old(model.rows), caps)
  {
    var k := 0;
    while k < |caps|
      invariant 0 <= k <= |caps|
      invariant model.rows == RestoreRun(old(model.rows), caps[..k])
    {
      assert caps[..k + 1][..k] == caps[..k];
      model.RestoreRow(caps[k].0, caps[k].1);
      k := k + 1;
    }
    assert caps[..|caps|] == caps;
  }

  /** get_value_at for each cell, before anything is written. */
  method CaptureCells(model: HostModel, cells: seq<(int, int)>) returns (undo: seq<Write>)
    ensures |undo| == |cells|
    ensures forall j :: 0 <= j < |cells| ==> undo[j] == Write(cells[j].0, cells[j].1, Cell(model.rows, cells[j].0, cells[j].1))
  {
    undo := [];
    var k := 0;
    while k < |cells|
      invariant 0 <= k <= |cells|
      invariant |undo| == k
      invariant forall j :: 0 <= j < k ==> undo[j] == Write(cells[j].0, cells[j].1, Cell(model.rows, cells[j].0, cells[j].1))
    {
      var v := model.GetValueAt(cells[k].1, cells[k].0);
      undo := undo + [Write(cells[k].0, cells[k].1, v)];
      k := k + 1;
    }
  }

  /** set_value_at for each write in order: the set-value loop, and the
    loop both undo commands run over their captured values. */
  method WriteBack(model: HostModel, ws: seq<Write>)
    modifies model`rows
    ensures model.rows == WriteAll(old(model.rows), ws)
  {
    var k := 0;
    while k < |ws|
      invariant 0 <= k <= |ws|
      invariant model.rows == WriteAll(old(model.rows), ws[..k])
    {
      assert ws[..k + 1][..k] == ws[..k];
      model.SetValueAt(ws[k].col, ws[k].row, ws[k].value);
      k := k + 1;
    }
    assert ws[..|ws|] == ws;
  }

  /** Table row i of the paste loop, written to row r0 + i from column c0:
    each cell's value is captured just before it is overwritten. */
  method PasteRow(model: HostModel, ghost t: Table, table: Table, r0: int, c0: int, i: int, undo0: seq<Write>)
    returns (undo: seq<Write>)
    requires r0 >= 0 && c0 >= 0 && 0 <= i < |table|
    requires TablePastedUpTo(t, table, r0, c0, i, model.rows, undo0)
    modifies model`rows
    ensures TablePastedUpTo(t, table, r0, c0, i + 1, model.rows, undo)
  {
    ghost var ws := PasteWrites(table[..i], r0, c0);
    var r, row := r0 + i, table[i];
    RowPastedStart(t, table, r0, c0, i, model.rows, undo0);
    undo := undo0;
    var j := 0;
    while j < |row|
      invariant 0 <= j <= |row|
      invariant RowPastedUpTo(t, ws, r, c0, row, j, model.rows, undo)
    {
      ghost var (before, undoBefore) := (model.rows, undo);
      var v := model.GetValueAt(c0 + j, r);
      undo := undo + [Write(r, c0 + j, v)];
      model.SetValueAt(c0 + j, r, row[j]);
      RowPastedNext(t, ws, r, c0, row, j, before, undoBefore, model.rows, undo);
      j := j + 1;
    }
    RowPastedEnd(t, table, r0, c0, i, model.rows, undo);
  }

  /** The paste loop, row by row. All earlier writes lie in earlier rows,
    so every captured value is the one from before the paste. */
  method PasteCells(model: HostModel, r0: int, c0: int, table: Table) returns (undo: seq<Write>)
    requires r0 >= 0 && c0 >= 0
    modifies model`rows
    ensures model.rows == WriteAll(old(model.rows), PasteWrites(table, r0, c0))
    ensures undo == SnapshotOf(old(model.rows), PasteWrites(table, r0, c0))
  {
    ghost var t := model.rows;
    undo := [];
    TablePastedStart(t, table, r0, c0);
    var i := 0;
    while i < |table|
      invariant 0 <= i <= |table|
      invariant TablePastedUpTo(t, table, r0, c0, i, model.rows, undo)
    {
      undo := PasteRow(model, t, table, r0, c0, i, undo);
      i := i + 1;
    }
    TablePastedEnd(t, table, r0, c0, model.rows, undo);
  }
}
