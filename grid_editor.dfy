/** The grid editor: the grid control it renders the model into, the
    commands it submits to its command processor, the four undo stacks
    behind them, the clipboard operations, the enablement flags, the
    search and the validation highlights. */
module GridEditors {
  import opened Outcomes
  import opened GridTable
  import opened PyList
  import opened CellTypes
  import opened GridView
  import opened Clipboard
  import opened HostModels
  import opened Commands
  import opened ModelEdits

  /** Row r as the grid shows it after rendering ncols columns. */
  function RenderedRow(rows: Table, r: int, ncols: nat): (row: Row)
    ensures |row| == ncols
    ensures forall c :: 0 <= c < ncols ==> row[c] == Cell(rows, r, c)
  {
    seq(ncols, c requires 0 <= c < ncols => Cell(rows, r, c))
  }

  /** The cell texts the grid shows after rendering nrows rows. */
  function Rendered(rows: Table, nrows: nat, ncols: nat): (shown: Table)
    ensures |shown| == nrows
    ensures forall r :: 0 <= r < nrows ==> shown[r] == RenderedRow(rows, r, ncols)
  {
    seq(nrows, r requires 0 <= r < nrows => RenderedRow(rows, r, ncols))
  }

  /** After a render the grid shows every model cell that lies in a
      rendered column, and "" past the end of a short row. */
  lemma RenderedShowsModel(rows: Table, ncols: nat, r: int, c: int)
    requires 0 <= r < |rows| && 0 <= c < ncols
    ensures ViewCell(Rendered(rows, |rows|, ncols), r, c) == (if c < |rows[r]| then rows[r][c] else "")
  {
    var shown := Rendered(rows, |rows|, ncols);
    assert shown[r][c] == Cell(rows, r, c);
    if c >= |rows[r]| {
      assert Slot(rows, r, c).None?;
    }
  }

  /** The grid control: its size, the texts it shows, the cursor (-1, -1
      when there is none), the selected blocks and the selected rows. */
  class Grid {
    var numRows: nat
    var numCols: nat
    var cells: Table
    var cursor: (int, int)
    var blocks: seq<Block>
    var selectedRows: seq<int>

    predicate InGrid(r: int, c: int)
      reads this
    {
      0 <= r < numRows && 0 <= c < numCols
    }

    ghost predicate Valid()
      reads this
    {
      |cells| == numRows &&
      (forall r :: 0 <= r < numRows ==> |cells[r]| == numCols) &&
      (cursor == (-1, -1) || InGrid(cursor.0, cursor.1)) &&
      (forall k :: 0 <= k < |blocks| ==>
        0 <= blocks[k].top <= blocks[k].bottom < numRows && 0 <= blocks[k].left <= blocks[k].right < numCols) &&
      StrictlyAscending(selectedRows) && AllBelow(selectedRows, numRows)
    }

    constructor ()
      ensures Valid()
      ensures numRows == 0 && numCols == 0 && cells == [] && cursor == (-1, -1)
      ensures blocks == [] && selectedRows == []
    {
      numRows, numCols, cells := 0, 0, [];
      cursor := (-1, -1);
      blocks, selectedRows := [], [];
    }

    /** Drops every row and column and builds the grid anew with the given
      texts; the selection and the cursor go with the old cells. */
    method Reset(shown: Table, nrows: nat, ncols: nat)
      requires |shown| == nrows && forall r :: 0 <= r < nrows ==> |shown[r]| == ncols
      modifies this
      ensures Valid()
      ensures numRows == nrows && numCols == ncols && cells == shown
      ensures cursor == (-1, -1) && blocks == [] && selectedRows == []
    {
      numRows, numCols, cells := nrows, ncols, shown;
      cursor := (-1, -1);
      blocks, selectedRows := [], [];
    }

    method SetGridCursor(r: int, c: int)
      requires Valid() && InGrid(r, c)
      modifies this`cursor
      ensures Valid() && cursor == (r, c)
    {
      cursor := (r, c);
    }

    /** A selection made with the mouse or the keyboard. */
    method Select(bs: seq<Block>, rows: seq<int>)
      requires Valid()
      requires forall k :: 0 <= k < |bs| ==>
        0 <= bs[k].top <= bs[k].bottom < numRows && 0 <= bs[k].left <= bs[k].right < numCols
      requires StrictlyAscending(rows) && AllBelow(rows, numRows)
      modifies this`blocks, this`selectedRows
      ensures Valid() && blocks == bs && selectedRows == rows
    {
      blocks, selectedRows := bs, rows;
    }

    /** SelectAll: the whole grid as one block, every row selected. */
    method SelectAll()
      requires Valid()
      modifies this`blocks, this`selectedRows
      ensures Valid()
      ensures blocks == (if numRows > 0 && numCols > 0 then [Block(0, 0, numRows - 1, numCols - 1)] else [])
      ensures selectedRows == seq(numRows, i => i)
    {
      blocks := if numRows > 0 && numCols > 0 then [Block(0, 0, numRows - 1, numCols - 1)] else [];
      selectedRows := seq(numRows, i => i);
    }

    method ClearSelection()
      requires Valid()
      modifies this`blocks, this`selectedRows
      ensures Valid() && blocks == [] && selectedRows == []
    {
      blocks, selectedRows := [], [];
    }

    /** SelectBlock(r, c, r, c): the one cell becomes the selection. */
    method SelectCell(r: int, c: int)
      requires Valid() && InGrid(r, c)
      modifies this`blocks, this`selectedRows
      ensures Valid() && blocks == [Block(r, c, r, c)] && selectedRows == []
    {
      blocks, selectedRows := [Block(r, c, r, c)], [];
    }
  }

  class GridEditor {
    const model: HostModel
    const view: Grid
    const readOnly: bool

    var columns: seq<Column>
    var colSizes: seq<ColumnSize>
    var lastCursor: Option<(int, int)>
    var inEditMode: bool
    var state: State
    /** How many state-changed and model-changed events were posted. */
    var stateEvents: nat
    var modelEvents: nat

    var appendStack: seq<nat>
    var deleteStack: seq<seq<(int, Row)>>
    var setStack: seq<seq<Write>>
    var pasteStack: seq<seq<Write>>

    /** The command processor: commands done, newest last, and commands
      undone, the next to redo last. */
    var done: seq<Command>
    var undone: seq<Command>
    /** The rows each done (undone) command was applied to, and the record
      each done command pushed. */
    ghost var before: seq<Table>
    ghost var redoBefore: seq<Table>
    ghost var records: seq<UndoRecord>

    var highlight: seq<(int, int)>
    var q: string
    var strictMode: bool
    var findPos: (int, int)

    /** The view bookkeeping every method relies on. */
    ghost predicate Tidy()
      reads view, this`lastCursor
    {
      view.Valid() &&
      (lastCursor.Some? ==> lastCursor.value.0 >= 0 && lastCursor.value.1 >= 0)
    }

    /** The grid's size and texts are those of the model rows. */
    ghost predicate Mirrors()
      reads view`numRows, view`numCols, view`cells, model`rows, this`columns
    {
      columns == model.columns &&
      view.numRows == |model.rows| && view.numCols == |columns| &&
      view.cells == Rendered(model.rows, |model.rows|, |columns|)
    }

    /** The grid shows the model as the last render left it. */
    ghost predicate Shown()
      reads view, model`rows, this`lastCursor, this`columns
    {
      Tidy() && Mirrors()
    }

    /** The undo stacks and the command processor agree with the history
      of the model rows. */
    ghost predicate History()
      reads model`rows, this`before, this`done, this`redoBefore, this`undone, this`records
      reads this`appendStack, this`deleteStack, this`setStack, this`pasteStack
    {
      Consistent(before, done, redoBefore, undone, records, appendStack, deleteStack, setStack, pasteStack,
                 model.rows, model.Blank())
    }

    ghost predicate Valid()
      reads view, model`rows, this`lastCursor, this`columns
      reads this`before, this`done, this`redoBefore, this`undone, this`records
      reads this`appendStack, this`deleteStack, this`setStack, this`pasteStack
    {
      Shown() && History()
    }

    constructor (model: HostModel, readOnly: bool)
      ensures Valid()
      ensures this.model == model && this.readOnly == readOnly && model.rows == old(model.rows)
      ensures done == [] && undone == [] && lastCursor == None
      ensures colSizes == Reconciled(model.columns, InitialSizes(model.columns))
    {
      this.model := model;
      this.readOnly := readOnly;
      view := new Grid();
      columns := model.columns;
      colSizes := InitialSizes(model.columns);
      lastCursor := None;
      inEditMode := false;
      state := AllOff;
      stateEvents, modelEvents := 0, 0;
      appendStack, deleteStack, setStack, pasteStack := [], [], [], [];
      done, undone := [], [];
      before, redoBefore, records := [], [], [];
      highlight := [];
      q, strictMode, findPos := "", true, (0, 0);
      new;
      Render();
    }

    // ---------------------------------------------------------- rendering

    /** The texts of every model cell in a rendered column, read with
      get_value_at row by row. */
    method ReadModel() returns (shown: Table)
      ensures shown == Rendered(model.rows, |model.rows|, |columns|)
    {
      var total := model.TotalRows();
      shown := [];
      var r := 0;
      while r < total
        invariant 0 <= r <= total
        invariant shown == Rendered(model.rows, r, |columns|)
      {
        var row: Row := [];
        var c := 0;
        while c < |columns|
          invariant 0 <= c <= |columns|
          invariant row == RenderedRow(model.rows, r, c)
        {
          var v := model.GetValueAt(c, r);
          row := row + [v];
          c := c + 1;
        }
        shown := shown + [row];
        r := r + 1;
      }
    }

    /** Re-renders the grid from the model: widths by column id, all cells,
      and the cursor back at the last position clamped into the grid. */
    method Render()
      requires Tidy()
      modifies view, this`columns, this`colSizes, this`lastCursor, this`state, this`stateEvents
      ensures Shown()
      ensures colSizes == Reconciled(model.columns, old(colSizes))
      ensures view.blocks == [] && view.selectedRows == []
      ensures old(lastCursor).Some? && |model.rows| > 0 && |model.columns| > 0 ==>
        view.cursor == ClampCursor(old(lastCursor).value.0, old(lastCursor).value.1, |model.rows|, |model.columns|) &&
        lastCursor == Some(view.cursor)
      ensures !(old(lastCursor).Some? && |model.rows| > 0 && |model.columns| > 0) ==>
        view.cursor == (-1, -1) && lastCursor == old(lastCursor) && state == old(state)
    {
      columns := model.columns;
      colSizes := ReconcileSizes(columns, colSizes);
      var shown := ReadModel();
      view.Reset(shown, |model.rows|, |columns|);
      RestoreCursor();
    }

    /** The cursor back at the last position, clamped into the grid; with
      no last position or an empty grid the cursor stays where it is. */
    method RestoreCursor()
      requires Tidy()
      modifies view`cursor, this`lastCursor, this`state, this`stateEvents
      ensures Tidy()
      ensures old(lastCursor).Some? && view.numRows > 0 && view.numCols > 0 ==>
        view.cursor == ClampCursor(old(lastCursor).value.0, old(lastCursor).value.1, view.numRows, view.numCols) &&
        lastCursor == Some(view.cursor)
      ensures !(old(lastCursor).Some? && view.numRows > 0 && view.numCols > 0) ==>
        view.cursor == old(view.cursor) && lastCursor == old(lastCursor) && state == old(state)
    {
      var last := lastCursor;
      if last.Some? && view.numCols > 0 && view.numRows > 0 {
        var cursorRow, cursorCol := last.value.0, last.value.1;
        if cursorCol >= view.numCols {
          cursorCol := view.numCols - 1;
        }
        if cursorRow >= view.numRows {
          cursorRow := view.numRows - 1;
        }
        assert (cursorRow, cursorCol) == ClampCursor(last.value.0, last.value.1, view.numRows, view.numCols);
        view.SetGridCursor(cursorRow, cursorCol);
        OnSelectCell(cursorRow, cursorCol);
      }
    }

    /** The select-cell event: remember the position, refresh the flags. */
    method OnSelectCell(r: int, c: int)
      requires Tidy() && view.InGrid(r, c)
      modifies this`lastCursor, this`state, this`stateEvents
      ensures Tidy() && lastCursor == Some((r, c))
      ensures state == Merge(Merge(old(state), ControlFlags(inEditMode, readOnly, |view.selectedRows| > 0, model.rows != model.saved)),
                             UndoRedoFlags(|done| > 0, |undone| > 0))
    {
      lastCursor := Some((r, c));
      UpdateControlsState();
    }

    /** GoToCell: moves the cursor to a cell of the grid; a position outside
      the grid leaves everything as it is. */
    method GoToCell(r: int, c: int)
      requires Tidy()
      modifies view`cursor, this`lastCursor, this`state, this`stateEvents
      ensures Tidy()
      ensures view.InGrid(r, c) ==> view.cursor == (r, c) && lastCursor == Some((r, c))
      ensures !view.InGrid(r, c) ==> view.cursor == old(view.cursor) && lastCursor == old(lastCursor) && state == old(state)
      ensures state.canFindNext == old(state.canFindNext)
    {
      if view.InGrid(r, c) {
        view.SetGridCursor(r, c);
        OnSelectCell(r, c);
      }
    }

    // -------------------------------------------------------------- flags

    /** _set_state: merges the update into the state and posts a
      state-changed event when some updated flag differed. */
    method SetState(updates: Update)
      modifies this`state, this`stateEvents
      ensures state == Merge(old(state), updates)
      ensures stateEvents == old(stateEvents) + (if Differs(old(state), updates) then 1 else 0)
      ensures Valid() == old(Valid())
    {
      var eq := true;
      var keys := updates.Keys;
      while keys != {} && eq
        modifies {}
        invariant keys <= updates.Keys
        invariant eq <==> forall f :: f in updates.Keys - keys ==> updates[f] == Get(state, f)
        decreases keys
      {
        var f :| f in keys;
        if updates[f] != Get(state, f) {
          eq := false;
        }
        keys := keys - {f};
      }
      state := Merge(state, updates);
      if !eq {
        stateEvents := stateEvents + 1;
      }
    }

    method UpdateUndoRedoState()
      modifies this`state, this`stateEvents
      ensures state == Merge(old(state), UndoRedoFlags(|done| > 0, |undone| > 0))
      ensures Valid() == old(Valid())
    {
      var canUndo, canRedo := |done| > 0, |undone| > 0;
      var flags := UndoRedoFlags(canUndo, canRedo);
      if state.canUndo != canUndo || state.canRedo != canRedo {
        SetState(flags);
      } else {
        UndoRedoFlagsHeld(state, canUndo, canRedo);
      }
    }

    /** _update_controls_state: copy, cut, paste, save and delete-row
      follow the edit mode, the read-only flag, the row selection and the
      model's pending changes; undo and redo follow the command stacks. */
    method UpdateControlsState()
      modifies this`state, this`stateEvents
      ensures state == Merge(Merge(old(state), ControlFlags(inEditMode, readOnly, |view.selectedRows| > 0, model.rows != model.saved)),
                             UndoRedoFlags(|done| > 0, |undone| > 0))
      ensures Valid() == old(Valid())
    {
      UpdateEditFlags();
      UpdateUndoRedoState();
    }

    /** The five flags that follow the edit mode, the read-only flag, the
      row selection and the pending changes. */
    method UpdateEditFlags()
      modifies this`state, this`stateEvents
      ensures state == Merge(old(state), ControlFlags(inEditMode, readOnly, |view.selectedRows| > 0, model.rows != model.saved))
      ensures Valid() == old(Valid())
    {
      var globalEnable := !inEditMode;
      var rowsSelected := |view.selectedRows| > 0;
      var removeRow := globalEnable && rowsSelected && !readOnly;
      var canCopy := globalEnable;
      var canCut := globalEnable && !readOnly;
      var canPaste := globalEnable && !readOnly;
      var changes := model.HaveChanges();
      var canSave := changes && !readOnly;
      if state.canCopy != canCopy || state.canCut != canCut || state.canPaste != canPaste ||
         state.canSave != canSave || state.canDeleteRow != removeRow {
        SetState(map[CanCopy := canCopy, CanCut := canCut, CanPaste := canPaste, CanSave := canSave, CanDeleteRow := removeRow]);
      } else {
        ControlFlagsHeld(state, inEditMode, readOnly, rowsSelected, changes);
      }
    }

    /** After a command: can_save follows the model's pending changes (the
      read-only flag is not consulted here) and a model-changed event is
      posted. */
    method SyncAfterChange()
      modifies this`state, this`stateEvents, this`modelEvents
      ensures state == old(state).(canSave := model.rows != model.saved)
      ensures modelEvents == old(modelEvents) + 1
    {
      var changes := model.HaveChanges();
      if state.canSave != changes {
        SetState(map[CanSave := changes]);
      }
      modelEvents := modelEvents + 1;
    }

    // ----------------------------------------------------------- commands

    /** _cmd_append_rows: n blank rows at the end, n on the append stack,
      the cursor to the last row in its column. */
    method CmdAppendRows(n: nat)
      requires Tidy()
      modifies model`rows, this`appendStack
      modifies view, this`columns, this`colSizes, this`lastCursor, this`state, this`stateEvents, this`modelEvents
      ensures model.rows == old(model.rows) + Blanks(n, model.Blank())
      ensures appendStack == old(appendStack) + [n]
      ensures Shown()
    {
      AppendBlankRows(model, n);
      appendStack := appendStack + [n];
      Render();
      GoToCell(view.numRows - 1, view.cursor.1);
      SyncAfterChange();
    }

    method CmdUndoAppendRows(ghost rs: seq<UndoRecord>)
      requires Tidy() && rs != [] && rs[|rs| - 1].AppendRecord? && Reversible(model.rows, rs[|rs| - 1])
      requires StacksMatch(rs, appendStack, deleteStack, setStack, pasteStack)
      modifies model`rows, this`appendStack
      modifies view, this`columns, this`colSizes, this`lastCursor, this`state, this`stateEvents, this`modelEvents
      ensures model.rows == old(model.rows)[..|old(model.rows)| - old(appendStack)[|old(appendStack)| - 1]]
      ensures appendStack == old(appendStack)[..|old(appendStack)| - 1]
      ensures model.rows == Reverse(old(model.rows), rs[|rs| - 1])
      ensures StacksMatch(rs[..|rs| - 1], appendStack, deleteStack, setStack, pasteStack)
      ensures Shown()
    {
      PopMatches(rs, appendStack, deleteStack, setStack, pasteStack);
      var n := appendStack[|appendStack| - 1];
      appendStack := appendStack[..|appendStack| - 1];
      DropLastRows(model, n);
      RenderAtLastRow();
    }

    /** Renders, moves the cursor to the last row in its column when there
      is a row, and posts the model-changed event. */
    method RenderAtLastRow()
      requires Tidy()
      modifies view, this`columns, this`colSizes, this`lastCursor, this`state, this`stateEvents, this`modelEvents
      ensures Shown()
    {
      Render();
      var total := model.TotalRows();
      if total > 0 {
        GoToCell(view.numRows - 1, view.cursor.1);
      }
      SyncAfterChange();
    }

    method CmdDeleteRows(ps: seq<int>)
      requires Tidy() && StrictlyAscending(ps) && AllBelow(ps, |model.rows|)
      modifies model`rows, this`deleteStack
      modifies view, this`columns, this`colSizes, this`lastCursor, this`state, this`stateEvents, this`modelEvents
      ensures Deletable(ps, |old(model.rows)|) && model.rows == DeleteRun(old(model.rows), ps)
      ensures deleteStack == old(deleteStack) + [Captured(old(model.rows), ps)]
      ensures Shown()
    {
      var undo := CaptureRows(model, ps);
      deleteStack := deleteStack + [undo];
      AscendingDeletable(ps, |model.rows|);
      DeleteRowsAt(model, ps);
      Render();
      SyncAfterChange();
    }

    method CmdUndoDeleteRows(ghost rs: seq<UndoRecord>)
      requires Tidy() && rs != [] && rs[|rs| - 1].DeleteRecord? && Reversible(model.rows, rs[|rs| - 1])
      requires StacksMatch(rs, appendStack, deleteStack, setStack, pasteStack)
      modifies model`rows, this`deleteStack
      modifies view, this`columns, this`colSizes, this`lastCursor, this`state, this`stateEvents, this`modelEvents
      ensures model.rows == RestoreRun(old(model.rows), old(deleteStack)[|old(deleteStack)| - 1])
      ensures deleteStack == old(deleteStack)[..|old(deleteStack)| - 1]
      ensures model.rows == Reverse(old(model.rows), rs[|rs| - 1])
      ensures StacksMatch(rs[..|rs| - 1], appendStack, deleteStack, setStack, pasteStack)
      ensures Shown()
    {
      PopMatches(rs, appendStack, deleteStack, setStack, pasteStack);
      var rowsData := deleteStack[|deleteStack| - 1];
      deleteStack := deleteStack[..|deleteStack| - 1];
      RestoreRows(model, rowsData);
      Render();
      SyncAfterChange();
    }

    method CmdSetCellValue(cells: seq<(int, int)>, value: string)
      requires Tidy()
      modifies model`rows, this`setStack
      modifies view, this`columns, this`colSizes, this`lastCursor, this`state, this`stateEvents, this`modelEvents
      ensures model.rows == WriteAll(old(model.rows), Fill(cells, value))
      ensures setStack == old(setStack) + [SnapshotOf(old(model.rows), Fill(cells, value))]
      ensures Shown()
    {
      var undo := CaptureCells(model, cells);
      assert undo == SnapshotOf(model.rows, Fill(cells, value));
      setStack := setStack + [undo];
      WriteBack(model, Fill(cells, value));
      Render();
      SyncAfterChange();
    }

    method CmdUndoSetCellValue(ghost rs: seq<UndoRecord>)
      requires Tidy() && rs != [] && rs[|rs| - 1].SetRecord? && Reversible(model.rows, rs[|rs| - 1])
      requires StacksMatch(rs, appendStack, deleteStack, setStack, pasteStack)
      modifies model`rows, this`setStack
      modifies view, this`columns, this`colSizes, this`lastCursor, this`state, this`stateEvents, this`modelEvents
      ensures model.rows == WriteAll(old(model.rows), old(setStack)[|old(setStack)| - 1])
      ensures setStack == old(setStack)[..|old(setStack)| - 1]
      ensures model.rows == Reverse(old(model.rows), rs[|rs| - 1])
      ensures StacksMatch(rs[..|rs| - 1], appendStack, deleteStack, setStack, pasteStack)
      ensures Shown()
    {
      PopMatches(rs, appendStack, deleteStack, setStack, pasteStack);
      var undo := setStack[|setStack| - 1];
      setStack := setStack[..|setStack| - 1];
      WriteBack(model, undo);
      Render();
      SyncAfterChange();
    }

    method CmdPaste(r0: int, c0: int, table: Table)
      requires Tidy() && r0 >= 0 && c0 >= 0
      modifies model`rows, this`pasteStack
      modifies view, this`columns, this`colSizes, this`lastCursor, this`state, this`stateEvents, this`modelEvents
      ensures model.rows == WriteAll(old(model.rows), PasteWrites(table, r0, c0))
      ensures pasteStack == old(pasteStack) + [SnapshotOf(old(model.rows), PasteWrites(table, r0, c0))]
      ensures Shown()
    {
      var undo := PasteCells(model, r0, c0, table);
      pasteStack := pasteStack + [undo];
      Render();
      SyncAfterChange();
    }

    method CmdUndoPaste(ghost rs: seq<UndoRecord>)
      requires Tidy() && rs != [] && rs[|rs| - 1].PasteRecord? && Reversible(model.rows, rs[|rs| - 1])
      requires StacksMatch(rs, appendStack, deleteStack, setStack, pasteStack)
      modifies model`rows, this`pasteStack
      modifies view, this`columns, this`colSizes, this`lastCursor, this`state, this`stateEvents, this`modelEvents
      ensures model.rows == WriteAll(old(model.rows), old(pasteStack)[|old(pasteStack)| - 1])
      ensures pasteStack == old(pasteStack)[..|old(pasteStack)| - 1]
      ensures model.rows == Reverse(old(model.rows), rs[|rs| - 1])
      ensures StacksMatch(rs[..|rs| - 1], appendStack, deleteStack, setStack, pasteStack)
      ensures Shown()
    {
      PopMatches(rs, appendStack, deleteStack, setStack, pasteStack);
      var undo := pasteStack[|pasteStack| - 1];
      pasteStack := pasteStack[..|pasteStack| - 1];
      WriteBack(model, undo);
      Render();
      SyncAfterChange();
    }

    /** A command's Do: false, with nothing changed, on an empty input;
      otherwise the rows are Forward's and the record is pushed on the
      command's own stack. */
    method DoCommand(c: Command, ghost rs: seq<UndoRecord>) returns (accepted: bool)
      requires Tidy() && Applicable(model.rows, c)
      requires StacksMatch(rs, appendStack, deleteStack, setStack, pasteStack)
      modifies model`rows, this`appendStack, this`deleteStack, this`setStack, this`pasteStack
      modifies view, this`columns, this`colSizes, this`lastCursor, this`state, this`stateEvents, this`modelEvents
      ensures accepted == Accepted(c)
      ensures accepted ==> Shown() && model.rows == Forward(old(model.rows), c, model.Blank())
      ensures accepted ==> StacksMatch(rs + [RecordOf(old(model.rows), c)], appendStack, deleteStack, setStack, pasteStack)
      ensures !accepted ==>
        (model.rows == old(model.rows) && appendStack == old(appendStack) &&
         deleteStack == old(deleteStack) && setStack == old(setStack) && pasteStack == old(pasteStack))
      ensures !accepted ==>
        (unchanged(view) && columns == old(columns) && colSizes == old(colSizes) &&
         lastCursor == old(lastCursor) && state == old(state))
    {
      ghost var t := model.rows;
      match c
      case AppendRows(n) =>
        if n == 0 {
          return false;
        }
        assert RecordOf(t, c) == AppendRecord(n);
        PushMatches(rs, appendStack, deleteStack, setStack, pasteStack, RecordOf(t, c));
        CmdAppendRows(n);
        accepted := true;
        assert StacksMatch(rs + [RecordOf(t, c)], appendStack, deleteStack, setStack, pasteStack);
      case DeleteRows(ps) =>
        if |ps| == 0 {
          return false;
        }
        assert RecordOf(t, c) == DeleteRecord(Captured(t, ps));
        PushMatches(rs, appendStack, deleteStack, setStack, pasteStack, RecordOf(t, c));
        CmdDeleteRows(ps);
        accepted := true;
        assert StacksMatch(rs + [RecordOf(t, c)], appendStack, deleteStack, setStack, pasteStack);
      case SetValue(cells, value) =>
        if |cells| == 0 {
          return false;
        }
        assert RecordOf(t, c) == SetRecord(SnapshotOf(t, Fill(cells, value)));
        PushMatches(rs, appendStack, deleteStack, setStack, pasteStack, RecordOf(t, c));
        CmdSetCellValue(cells, value);
        accepted := true;
        assert StacksMatch(rs + [RecordOf(t, c)], appendStack, deleteStack, setStack, pasteStack);
      case Paste(r0, c0, table) =>
        assert RecordOf(t, c) == PasteRecord(SnapshotOf(t, PasteWrites(table, r0, c0)));
        PushMatches(rs, appendStack, deleteStack, setStack, pasteStack, RecordOf(t, c));
        CmdPaste(r0, c0, table);
        accepted := true;
        assert StacksMatch(rs + [RecordOf(t, c)], appendStack, deleteStack, setStack, pasteStack);
    }

    /** A command's Undo: its own stack is popped and the newest record
      reversed on the rows. */
    method UndoCommand(c: Command, ghost rs: seq<UndoRecord>)
      requires Tidy() && rs != [] && RecordFor(c, rs[|rs| - 1])
      requires Reversible(model.rows, rs[|rs| - 1])
      requires StacksMatch(rs, appendStack, deleteStack, setStack, pasteStack)
      modifies model`rows, this`appendStack, this`deleteStack, this`setStack, this`pasteStack
      modifies view, this`columns, this`colSizes, this`lastCursor, this`state, this`stateEvents, this`modelEvents
      ensures Shown() && model.rows == Reverse(old(model.rows), rs[|rs| - 1])
      ensures StacksMatch(rs[..|rs| - 1], appendStack, deleteStack, setStack, pasteStack)
    {
      match c
      case AppendRows(_) =>
        CmdUndoAppendRows(rs);
      case DeleteRows(_) =>
        CmdUndoDeleteRows(rs);
      case SetValue(_, _) =>
        CmdUndoSetCellValue(rs);
      case Paste(_, _, _) =>
        CmdUndoPaste(rs);
    }

    // -------------------------------------------------- command processor

    /** Replaces the command processor's stacks and the history behind
      them with ones that agree with the model rows. */
    method SetHistory(d: seq<Command>, u: seq<Command>, ghost b: seq<Table>, ghost rb: seq<Table>, ghost rs: seq<UndoRecord>)
      requires Shown()
      requires Consistent(b, d, rb, u, rs, appendStack, deleteStack, setStack, pasteStack, model.rows, model.Blank())
      modifies this`done, this`undone, this`before, this`redoBefore, this`records
      ensures Valid() && done == d && undone == u && before == b && redoBefore == rb && records == rs
    {
      done, undone := d, u;
      before, redoBefore, records := b, rb, rs;
    }

    /** Submit: Do the command; when it is accepted it goes on the done
      stack and the redo stack is emptied. */
    method Submit(c: Command)
      requires Valid() && Applicable(model.rows, c)
      modifies this, view, model`rows
      ensures Valid()
      ensures Accepted(c) ==>
        (model.rows == Forward(old(model.rows), c, model.Blank()) && done == old(done) + [c] && undone == [])
      ensures !Accepted(c) ==>
        (model.rows == old(model.rows) && done == old(done) && undone == old(undone) &&
         view.blocks == old(view.blocks) && view.selectedRows == old(view.selectedRows))
    {
      ghost var t := model.rows;
      ghost var (a, d, s, p) := (appendStack, deleteStack, setStack, pasteStack);
      var accepted := DoCommand(c, records);
      if accepted {
        ConsistentDo(before, done, redoBefore, undone, records, a, d, s, p, t, model.Blank(),
                     c, appendStack, deleteStack, setStack, pasteStack);
        SetHistory(done + [c], [], before + [t], [], records + [RecordOf(t, c)]);
      }
    }

    /** The newest done command's Undo; it then waits on the redo stack,
      and the rows are back to what that command was done on. */
    method UndoLast()
      requires Valid() && done != []
      modifies this, view, model`rows
      ensures Valid()
      ensures model.rows == old(before)[|old(before)| - 1]
      ensures done == old(done)[..|old(done)| - 1] && undone == old(undone) + [old(done)[|old(done)| - 1]]
    {
      var n := |done| - 1;
      var c := done[n];
      ghost var t := before[n];
      ghost var cur := model.rows;
      ghost var (a, d, s, p) := (appendStack, deleteStack, setStack, pasteStack);
      ConsistentUndoReady(before, done, redoBefore, undone, records, a, d, s, p, cur, model.Blank());
      UndoCommand(c, records);
      ConsistentUndo(before, done, redoBefore, undone, records, a, d, s, p, cur, model.Blank(),
                     appendStack, deleteStack, setStack, pasteStack);
      SetHistory(done[..n], undone + [c], before[..n], redoBefore + [t], records[..n]);
    }

    /** Undo, when there is a command to undo; the controls follow. */
    method Undo()
      requires Valid()
      modifies this, view, model`rows
      ensures Valid()
      ensures old(done) != [] ==>
        (model.rows == old(before)[|old(before)| - 1] &&
         done == old(done)[..|old(done)| - 1] && undone == old(undone) + [old(done)[|old(done)| - 1]])
      ensures old(done) == [] ==> model.rows == old(model.rows) && done == old(done) && undone == old(undone)
    {
      if |done| > 0 {
        UndoLast();
      }
      UpdateControlsState();
    }

    /** Do the newest undone command again; it goes back on the done stack
      with a fresh record. */
    method RedoLast()
      requires Valid() && undone != []
      modifies this, view, model`rows
      ensures Valid()
      ensures model.rows == Forward(old(model.rows), old(undone)[|old(undone)| - 1], model.Blank())
      ensures done == old(done) + [old(undone)[|old(undone)| - 1]] && undone == old(undone)[..|old(undone)| - 1]
    {
      var n := |undone| - 1;
      var c := undone[n];
      ghost var t := model.rows;
      ghost var (a, d, s, p) := (appendStack, deleteStack, setStack, pasteStack);
      ConsistentRedoReady(before, done, redoBefore, undone, records, a, d, s, p, t, model.Blank());
      var accepted := DoCommand(c, records);
      ConsistentRedo(before, done, redoBefore, undone, records, a, d, s, p, t, model.Blank(),
                     appendStack, deleteStack, setStack, pasteStack);
      SetHistory(done + [c], undone[..n], before + [t], redoBefore[..n], records + [RecordOf(t, c)]);
    }

    /** Redo, when there is a command to redo; the controls follow. */
    method Redo()
      requires Valid()
      modifies this, view, model`rows
      ensures Valid()
      ensures old(undone) != [] ==>
        (model.rows == Forward(old(model.rows), old(undone)[|old(undone)| - 1], model.Blank()) &&
         done == old(done) + [old(undone)[|old(undone)| - 1]] && undone == old(undone)[..|old(undone)| - 1])
      ensures old(undone) == [] ==> model.rows == old(model.rows) && done == old(done) && undone == old(undone)
    {
      if |undone| > 0 {
        RedoLast();
      }
      UpdateControlsState();
    }

    // ---------------------------------------------------- user operations

    /** Add one empty row at the end. */
    method AddRow()
      requires Valid()
      modifies this, view, model`rows
      ensures Valid()
      ensures model.rows == old(model.rows) + [model.Blank()] && done == old(done) + [AppendRows(1)]
    {
      Submit(AppendRows(1));
      assert Blanks(1, model.Blank()) == [model.Blank()];
      UpdateControlsState();
    }

    /** Add count empty rows at the end (the menu offers 1 to 20). */
    method AddRows(count: nat)
      requires Valid()
      modifies this, view, model`rows
      ensures Valid()
      ensures model.rows == old(model.rows) + Blanks(count, model.Blank())
      ensures count > 0 ==> done == old(done) + [AppendRows(count)] && undone == []
      ensures count == 0 ==> done == old(done) && undone == old(undone)
    {
      assert old(model.rows) + Blanks(0, model.Blank()) == old(model.rows);
      Submit(AppendRows(count));
      UpdateControlsState();
    }

    /** Delete the selected rows. */
    method DeleteSelectedRows()
      requires Valid()
      modifies this, view, model`rows
      ensures Valid()
      ensures Deletable(old(view.selectedRows), |old(model.rows)|)
      ensures model.rows == DeleteRun(old(model.rows), old(view.selectedRows))
      ensures old(view.selectedRows) != [] ==> done == old(done) + [DeleteRows(old(view.selectedRows))] && undone == []
      ensures old(view.selectedRows) == [] ==> done == old(done) && undone == old(undone)
    {
      AscendingDeletable(view.selectedRows, |model.rows|);
      Submit(DeleteRows(view.selectedRows));
      UpdateControlsState();
    }

    /** The cells a removal clears: the selected blocks' cells, or the
      cursor cell as it is (-1, -1 when there is no cursor). */
    method RemovalCells() returns (cells: seq<(int, int)>)
      ensures cells == TargetCells(view.blocks, view.cursor)
    {
      if |view.blocks| == 0 {
        cells := [view.cursor];
      } else {
        cells := CollectCells(view.blocks);
      }
    }

    /** Clear the selected cells, or the cursor cell, in one command. */
    method RemoveValues()
      requires Valid()
      modifies this, view, model`rows
      ensures Valid()
      ensures model.rows == WriteAll(old(model.rows), Fill(TargetCells(old(view.blocks), old(view.cursor)), ""))
      ensures done == old(done) + [SetValue(TargetCells(old(view.blocks), old(view.cursor)), "")] && undone == []
    {
      var cells := RemovalCells();
      assert cells == [] ==> Fill(cells, "") == [];
      Submit(SetValue(cells, ""));
      UpdateControlsState();
    }

    /** The table copy puts on the clipboard, or the refusal of a mixed
      selection. */
    method Copy() returns (r: Result<Table, CopyError>)
      ensures r == CopyTable(view.cells, view.blocks, view.cursor)
    {
      r := ReadCopy(view.cells, view.blocks, view.cursor);
    }

    /** Copy, then clear what was copied; a refused copy clears nothing. */
    method Cut() returns (r: Result<Table, CopyError>)
      requires Valid()
      modifies this, view, model`rows
      ensures Valid()
      ensures r == CopyTable(old(view.cells), old(view.blocks), old(view.cursor))
      ensures r.Err? ==> model.rows == old(model.rows) && done == old(done)
      ensures r.Ok? ==> model.rows == WriteAll(old(model.rows), Fill(TargetCells(old(view.blocks), old(view.cursor)), ""))
      ensures r.Ok? ==> done == old(done) + [SetValue(TargetCells(old(view.blocks), old(view.cursor)), "")] && undone == []
    {
      r := Copy();
      if r.Err? {
        return;
      }
      RemoveValues();
    }

    /** Paste the parsed clipboard table; answer is the button pressed in
      the message box shown when the selected block and the table differ
      in size. The code compares its result with wx.ID_CANCEL, so the
      answer never cancels. */
    method Paste(clip: Table, answer: Answer) returns (action: PasteAction)
      requires Valid()
      modifies this, view, model`rows
      ensures Valid()
      ensures action == PastePlan(clip, old(view.blocks), old(view.cursor), old(view.numRows), old(view.numCols),
                                  MessageBoxResult(answer))
      ensures action == PastePlan(clip, old(view.blocks), old(view.cursor), old(view.numRows), old(view.numCols),
                                  MessageBoxResult(OkButton))
      ensures action.SetAll? ==> model.rows == WriteAll(old(model.rows), Fill(action.cells, action.value))
      ensures action.Place? ==>
        model.rows == WriteAll(old(model.rows) + Blanks(action.append, model.Blank()), PasteWrites(action.table, action.row, action.col))
      ensures !action.SetAll? && !action.Place? ==> model.rows == old(model.rows) && done == old(done)
      ensures action.SetAll? && action.cells != [] ==> done == old(done) + [SetValue(action.cells, action.value)] && undone == []
      ensures action.SetAll? && action.cells == [] ==> done == old(done) && undone == old(undone)
      ensures action.Place? ==>
        done == old(done) + (if action.append > 0 then [AppendRows(action.append)] else []) +
                [Command.Paste(action.row, action.col, action.table)] &&
        undone == []
    {
      AnswerIgnored(clip, view.blocks, view.cursor, view.numRows, view.numCols, answer);
      action := PlanPaste(clip, view.blocks, view.cursor, view.numRows, view.numCols, MessageBoxResult(answer));
      match action
      case SetAll(cells, value) =>
        assert cells == [] ==> Fill(cells, value) == [];
        Submit(SetValue(cells, value));
      case Place(r0, c0, n, table) =>
        PastePlaceFits(clip, view.blocks, view.cursor, view.numRows, view.numCols, MessageBoxResult(answer));
        PlaceTable(r0, c0, n, table);
      case _ =>
    }

    /** A table paste: the missing rows are appended first, then the table
      is pasted, each through its own command. */
    method PlaceTable(r0: int, c0: int, n: nat, table: Table)
      requires Valid() && r0 >= 0 && c0 >= 0
      modifies this, view, model`rows
      ensures Valid()
      ensures model.rows == WriteAll(old(model.rows) + Blanks(n, model.Blank()), PasteWrites(table, r0, c0))
      ensures done == old(done) + (if n > 0 then [AppendRows(n)] else []) + [Command.Paste(r0, c0, table)]
      ensures undone == []
    {
      ghost var t0, d0, blank := model.rows, done, model.Blank();
      if n > 0 {
        Submit(AppendRows(n));
      } else {
        assert t0 + Blanks(n, blank) == t0;
      }
      ghost var t1, d1 := model.rows, done;
      assert t1 == t0 + Blanks(n, blank);
      assert d1 == d0 + (if n > 0 then [AppendRows(n)] else []);
      Submit(Command.Paste(r0, c0, table));
      assert model.rows == WriteAll(t1, PasteWrites(table, r0, c0));
    }

    /** An edit committed in a cell editor becomes a one-cell command. */
    method CellChanging(r: int, c: int, value: string)
      requires Valid()
      modifies this, view, model`rows
      ensures Valid()
      ensures model.rows == SetCell(old(model.rows), r, c, value)
      ensures done == old(done) + [SetValue([(r, c)], value)] && undone == []
    {
      assert WriteAll(model.rows, Fill([(r, c)], value)) == SetCell(model.rows, r, c, value) by {
        assert Fill([(r, c)], value)[..0] == [];
      }
      Submit(SetValue([(r, c)], value));
      UpdateControlsState();
    }

    /** A selection made by the user, then the range-selected event. */
    method SelectRange(bs: seq<Block>, rows: seq<int>)
      requires Valid()
      requires forall k :: 0 <= k < |bs| ==>
        0 <= bs[k].top <= bs[k].bottom < view.numRows && 0 <= bs[k].left <= bs[k].right < view.numCols
      requires StrictlyAscending(rows) && AllBelow(rows, view.numRows)
      modifies view`blocks, view`selectedRows, this`state, this`stateEvents
      ensures Valid() && view.blocks == bs && view.selectedRows == rows
      ensures state == Merge(Merge(old(state), ControlFlags(inEditMode, readOnly, |rows| > 0, model.rows != model.saved)),
                             UndoRedoFlags(|done| > 0, |undone| > 0))
    {
      view.Select(bs, rows);
      UpdateControlsState();
    }

    // ------------------------------------------------------------ validate

    /** Highlights the cells of the errors the model reported; true when
      there were none. */
    method Validate(errors: seq<ValidationError>) returns (ok: bool)
      modifies this`highlight
      ensures highlight == Highlights(columns, errors)
      ensures ok <==> errors == []
    {
      highlight := CollectHighlights(columns, errors);
      ok := |errors| == 0;
    }

    // -------------------------------------------------------------- search

    method CanFindNext() returns (b: bool)
      ensures b <==> view.numRows > findPos.0 && |q| > 0
    {
      b := view.numRows > findPos.0 && |q| > 0;
    }

    /** Scans from the search position for a cell equal to the query; the
      position stops on the match or past the last cell. */
    method Scan() returns (found: Option<(int, int)>)
      modifies this`findPos
      ensures found == FindFirst(view.cells, q, old(findPos).0, old(findPos).1, view.numRows, view.numCols)
      ensures found.Some? ==> findPos == found.value
      ensures found.None? ==> !HaveNext(findPos.0, findPos.1, view.numRows, view.numCols)
    {
      found := None;
      while HaveNext(findPos.0, findPos.1, view.numRows, view.numCols)
        invariant FindFirst(view.cells, q, findPos.0, findPos.1, view.numRows, view.numCols) ==
                  FindFirst(view.cells, q, old(findPos).0, old(findPos).1, view.numRows, view.numCols)
        invariant found.None?
        decreases view.numRows - findPos.0, view.numCols - findPos.1
      {
        if ViewCell(view.cells, findPos.0, findPos.1) == q {
          found := Some(findPos);
          break;
        }
        findPos := GoNext(findPos.0, findPos.1, view.numCols);
      }
    }

    /** _do_find: the scan, then the match becomes the selection and the
      cursor moves there. */
    method DoFind() returns (found: Option<(int, int)>)
      requires Valid()
      modifies this`findPos, view`cursor, view`blocks, view`selectedRows, this`lastCursor, this`state, this`stateEvents
      ensures Valid()
      ensures found == FindFirst(view.cells, q, old(findPos).0, old(findPos).1, view.numRows, view.numCols)
      ensures found.Some? ==> findPos == found.value
      ensures found.Some? && view.InGrid(found.value.0, found.value.1) ==>
        view.cursor == found.value && view.blocks == [Block(found.value.0, found.value.1, found.value.0, found.value.1)]
      ensures found.None? ==> !HaveNext(findPos.0, findPos.1, view.numRows, view.numCols)
      ensures state.canFindNext == old(state.canFindNext)
    {
      found := Scan();
      if found.Some? && view.InGrid(found.value.0, found.value.1) {
        ShowMatch(found.value.0, found.value.1);
      }
    }

    /** A match becomes the selection and the cursor moves onto it. */
    method ShowMatch(r: int, c: int)
      requires Valid() && view.InGrid(r, c)
      modifies view`cursor, view`blocks, view`selectedRows, this`lastCursor, this`state, this`stateEvents
      ensures Valid() && view.cursor == (r, c) && view.blocks == [Block(r, c, r, c)]
      ensures state.canFindNext == old(state.canFindNext)
    {
      SelectMatch(r, c);
      GoToCell(r, c);
    }

    /** The match becomes the only selected cell; the flags follow. */
    method SelectMatch(r: int, c: int)
      requires Valid() && view.InGrid(r, c)
      modifies view`blocks, view`selectedRows, this`state, this`stateEvents
      ensures Valid() && view.blocks == [Block(r, c, r, c)]
      ensures state.canFindNext == old(state.canFindNext)
    {
      view.SelectCell(r, c);
      UpdateControlsState();
    }

    /** The find dialog was confirmed with a query. */
    method Find(query: string, strict: bool) returns (found: Option<(int, int)>)
      requires Valid()
      modifies this`findPos, this`q, this`strictMode, view`cursor, view`blocks, view`selectedRows
      modifies this`lastCursor, this`state, this`stateEvents
      ensures Valid() && q == query && strictMode == strict
      ensures found == FindFirst(view.cells, query, 0, 0, view.numRows, view.numCols)
      ensures found.Some? ==> findPos == found.value
      ensures found.Some? && view.InGrid(found.value.0, found.value.1) ==>
        view.cursor == found.value && view.blocks == [Block(found.value.0, found.value.1, found.value.0, found.value.1)]
      ensures found.None? ==> !HaveNext(findPos.0, findPos.1, view.numRows, view.numCols)
      ensures state.canFindNext == (view.numRows > 0 && |query| > 0)
    {
      StartFind(query, strict);
      var canNext := CanFindNext();
      SetState(map[Flag.CanFindNext := canNext]);
      found := DoFind();
    }

    /** The query and the mode are stored and the search restarts at the
      first cell. */
    method StartFind(query: string, strict: bool)
      modifies this`findPos, this`q, this`strictMode
      ensures q == query && strictMode == strict && findPos == (0, 0)
      ensures Valid() == old(Valid())
    {
      q, strictMode, findPos := query, strict, (0, 0);
    }

    /** Continue the search one cell after the last position. */
    method FindNext() returns (found: Option<(int, int)>)
      requires Valid()
      modifies this`findPos, view`cursor, view`blocks, view`selectedRows, this`lastCursor, this`state, this`stateEvents
      ensures Valid()
      ensures var next := GoNext(old(findPos).0, old(findPos).1, view.numCols);
        found == FindFirst(view.cells, q, next.0, next.1, view.numRows, view.numCols)
      ensures found.Some? ==> findPos == found.value
      ensures found.Some? && view.InGrid(found.value.0, found.value.1) ==>
        view.cursor == found.value && view.blocks == [Block(found.value.0, found.value.1, found.value.0, found.value.1)]
      ensures found.None? ==> !HaveNext(findPos.0, findPos.1, view.numRows, view.numCols)
    {
      findPos := GoNext(findPos.0, findPos.1, view.numCols);
      found := DoFind();
    }
  }
}
