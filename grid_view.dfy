/** The parts of the grid editor's view logic that are plain computations:
    enablement flags, the column widths kept across re-renders, the cursor
    clamp, the error highlights and the row-major search order. */
module GridView {
  import opened Outcomes
  import opened CellTypes
  import opened GridTable

  // ---------------------------------------------------------------- flags

  datatype Flag = CanCopy | CanCut | CanSave | CanPaste | CanUndo | CanRedo | CanDeleteRow | CanFindNext

  /** The editor's state dict. It is created holding every flag and only
      ever merged with updates over the same keys, so it always holds all
      eight. */
  datatype State = State(canCopy: bool, canCut: bool, canSave: bool, canPaste: bool,
                         canUndo: bool, canRedo: bool, canDeleteRow: bool, canFindNext: bool)

  /** The dict passed to _set_state. */
  type Update = map<Flag, bool>

  /** state[key]. */
  function Get(s: State, f: Flag): bool
  {
    match f
    case CanCopy => s.canCopy
    case CanCut => s.canCut
    case CanSave => s.canSave
    case CanPaste => s.canPaste
    case CanUndo => s.canUndo
    case CanRedo => s.canRedo
    case CanDeleteRow => s.canDeleteRow
    case CanFindNext => s.canFindNext
  }

  /** Two states holding the same value for every flag are equal. */
  lemma StateExt(s: State, t: State)
    requires forall f :: Get(s, f) == Get(t, f)
    ensures s == t
  {
    assert Get(s, CanCopy) == Get(t, CanCopy) && Get(s, CanCut) == Get(t, CanCut);
    assert Get(s, CanSave) == Get(t, CanSave) && Get(s, CanPaste) == Get(t, CanPaste);
    assert Get(s, CanUndo) == Get(t, CanUndo) && Get(s, CanRedo) == Get(t, CanRedo);
    assert Get(s, CanDeleteRow) == Get(t, CanDeleteRow) && Get(s, CanFindNext) == Get(t, CanFindNext);
  }

  /** The initial state: every flag off. */
  const AllOff: State := State(false, false, false, false, false, false, false, false)

  /** {**s, **u}: the updated flags take their new values, the others keep
      theirs. */
  function Merge(s: State, u: Update): (r: State)
    ensures forall f :: Get(r, f) == if f in u then u[f] else Get(s, f)
  {
    var pick := (f: Flag) => if f in u then u[f] else Get(s, f);
    State(pick(CanCopy), pick(CanCut), pick(CanSave), pick(CanPaste),
          pick(CanUndo), pick(CanRedo), pick(CanDeleteRow), pick(CanFindNext))
  }

  /** An update names some flag the state holds differently. */
  predicate Differs(s: State, u: Update)
  {
    exists f :: f in u && u[f] != Get(s, f)
  }

  /** The merged state differs from the old one exactly when some updated
      flag differs; _set_state posts its event in that case only. */
  lemma DiffersIffChanged(s: State, u: Update)
    ensures Differs(s, u) <==> Merge(s, u) != s
  {
    if !Differs(s, u) {
      StateExt(Merge(s, u), s);
    } else {
      var f :| f in u && u[f] != Get(s, f);
      assert Get(Merge(s, u), f) != Get(s, f);
    }
  }

  /** The five flags _update_controls_state recomputes. */
  function ControlFlags(inEditMode: bool, readOnly: bool, rowsSelected: bool, haveChanges: bool): Update
  {
    var global := !inEditMode;
    map[CanCopy := global,
        CanCut := global && !readOnly,
        CanPaste := global && !readOnly,
        CanSave := haveChanges && !readOnly,
        CanDeleteRow := global && rowsSelected && !readOnly]
  }

  /** The flags _update_undo_redo_state keeps in step with the command
      processor. */
  function UndoRedoFlags(canUndo: bool, canRedo: bool): Update
  {
    map[CanUndo := canUndo, CanRedo := canRedo]
  }

  /** A read-only editor never offers to change anything, an editor in
      cell-edit mode offers nothing but saving, and the other three flags
      keep their values. */
  lemma ControlFlagsGuards(s: State, inEditMode: bool, readOnly: bool, rowsSelected: bool, haveChanges: bool)
    ensures var r := Merge(s, ControlFlags(inEditMode, readOnly, rowsSelected, haveChanges));
      (readOnly ==> !r.canCut && !r.canPaste && !r.canSave && !r.canDeleteRow) &&
      (inEditMode ==> !r.canCopy && !r.canCut && !r.canPaste && !r.canDeleteRow) &&
      (r.canDeleteRow ==> rowsSelected) &&
      (r.canSave <==> haveChanges && !readOnly) &&
      (r.canCopy <==> !inEditMode) &&
      r.canUndo == s.canUndo && r.canRedo == s.canRedo && r.canFindNext == s.canFindNext
  {
    var u := ControlFlags(inEditMode, readOnly, rowsSelected, haveChanges);
    var r := Merge(s, u);
    assert Get(r, CanCopy) == u[CanCopy] && Get(r, CanCut) == u[CanCut] && Get(r, CanPaste) == u[CanPaste];
    assert Get(r, CanSave) == u[CanSave] && Get(r, CanDeleteRow) == u[CanDeleteRow];
    assert Get(r, CanUndo) == s.canUndo && Get(r, CanRedo) == s.canRedo && Get(r, CanFindNext) == s.canFindNext;
  }

  /** When the state already holds the five recomputed flags, merging them
      changes nothing. */
  lemma ControlFlagsHeld(s: State, inEditMode: bool, readOnly: bool, rowsSelected: bool, haveChanges: bool)
    requires s.canCopy == !inEditMode && s.canCut == (!inEditMode && !readOnly) && s.canPaste == (!inEditMode && !readOnly)
    requires s.canSave == (haveChanges && !readOnly) && s.canDeleteRow == (!inEditMode && rowsSelected && !readOnly)
    ensures Merge(s, ControlFlags(inEditMode, readOnly, rowsSelected, haveChanges)) == s
  {
    StateExt(Merge(s, ControlFlags(inEditMode, readOnly, rowsSelected, haveChanges)), s);
  }

  lemma UndoRedoFlagsHeld(s: State, canUndo: bool, canRedo: bool)
    requires s.canUndo == canUndo && s.canRedo == canRedo
    ensures Merge(s, UndoRedoFlags(canUndo, canRedo)) == s
  {
    StateExt(Merge(s, UndoRedoFlags(canUndo, canRedo)), s);
  }

  // --------------------------------------------------------- column sizes

  /** One entry of _original_col_sizes: a width and the column id. */
  datatype ColumnSize = ColumnSize(size: int, id: string)

  /** The widths the editor starts with: init_width when positive, else 100. */
  function InitialSizes(cols: seq<Column>): (r: seq<ColumnSize>)
    ensures |r| == |cols|
    ensures forall i :: 0 <= i < |cols| ==> r[i].id == cols[i].id && r[i].size > 0
    ensures forall i :: 0 <= i < |cols| ==> r[i].size == (if cols[i].initWidth > 0 then cols[i].initWidth else 100)
  {
    seq(|cols|, i requires 0 <= i < |cols| =>
      ColumnSize(if cols[i].initWidth > 0 then cols[i].initWidth else 100, cols[i].id))
  }

  /** The first stored entry with the id, as the scan in _render finds it. */
  function FirstWithId(sizes: seq<ColumnSize>, id: string): (r: Option<nat>)
    ensures r.Some? ==> r.value < |sizes| && sizes[r.value].id == id
    ensures r.Some? ==> forall j :: 0 <= j < r.value ==> sizes[j].id != id
    ensures r.None? ==> forall j :: 0 <= j < |sizes| ==> sizes[j].id != id
  {
    if sizes == [] then None
    else if sizes[0].id == id then Some(0)
    else
      match FirstWithId(sizes[1..], id)
      case None => None
      case Some(k) => Some(k + 1)
  }

  /** The width a re-render gives a column. */
  function SizeFor(sizes: seq<ColumnSize>, col: Column): int
  {
    match FirstWithId(sizes, col.id)
    case Some(k) => sizes[k].size
    case None => col.initWidth
  }

  /** The widths after a re-render: one entry per current column, in the
      current order, keeping the stored width of an id already seen and
      taking the raw init_width of a new one. */
  function Reconciled(cols: seq<Column>, sizes: seq<ColumnSize>): (r: seq<ColumnSize>)
    ensures |r| == |cols|
    ensures forall i :: 0 <= i < |cols| ==> r[i] == ColumnSize(SizeFor(sizes, cols[i]), cols[i].id)
  {
    seq(|cols|, i requires 0 <= i < |cols| => ColumnSize(SizeFor(sizes, cols[i]), cols[i].id))
  }

  /** The loop in _render: for each column, scan the stored entries for the
      first with its id. */
  method ReconcileSizes(cols: seq<Column>, sizes: seq<ColumnSize>) returns (r: seq<ColumnSize>)
    ensures r == Reconciled(cols, sizes)
  {
    r := [];
    var i := 0;
    while i < |cols|
      invariant 0 <= i <= |cols|
      invariant r == Reconciled(cols[..i], sizes)
    {
      var found := false;
      var j := 0;
      while j < |sizes|
        invariant 0 <= j <= |sizes|
        invariant !found ==> forall k :: 0 <= k < j ==> sizes[k].id != cols[i].id
        invariant found ==> r == Reconciled(cols[..i + 1], sizes)
        invariant !found ==> r == Reconciled(cols[..i], sizes)
      {
        if sizes[j].id == cols[i].id {
          assert FirstWithId(sizes, cols[i].id) == Some(j);
          r := r + [ColumnSize(sizes[j].size, cols[i].id)];
          assert cols[..i + 1][..i] == cols[..i];
          found := true;
          break;
        }
        j := j + 1;
      }
      if !found {
        r := r + [ColumnSize(cols[i].initWidth, cols[i].id)];
        assert cols[..i + 1][..i] == cols[..i];
      }
      i := i + 1;
    }
    assert cols[..|cols|] == cols;
  }

  predicate DistinctIds(cols: seq<Column>)
  {
    forall i, j :: 0 <= i < j < |cols| ==> cols[i].id != cols[j].id
  }

  /** With distinct column ids, reconciling against the result of a
      reconciliation with the same columns changes nothing: widths survive
      any number of re-renders. */
  lemma ReconcileIdempotent(cols: seq<Column>, sizes: seq<ColumnSize>)
    requires DistinctIds(cols)
    ensures Reconciled(cols, Reconciled(cols, sizes)) == Reconciled(cols, sizes)
  {
    var r := Reconciled(cols, sizes);
    forall i | 0 <= i < |cols| ensures FirstWithId(r, cols[i].id) == Some(i) {
      assert r[i].id == cols[i].id;
    }
  }

  /** A column whose id has a stored width keeps the first such width; any
      other column gets its raw init_width, which is -1 for a column
      declared without one. */
  lemma ReconcileKeepsStored(cols: seq<Column>, sizes: seq<ColumnSize>, i: int)
    requires 0 <= i < |cols|
    ensures (exists k :: 0 <= k < |sizes| && sizes[k].id == cols[i].id) ==>
      exists k :: 0 <= k < |sizes| && sizes[k].id == cols[i].id && Reconciled(cols, sizes)[i].size == sizes[k].size
    ensures (forall k :: 0 <= k < |sizes| ==> sizes[k].id != cols[i].id) ==>
      Reconciled(cols, sizes)[i].size == cols[i].initWidth
  {
    var f := FirstWithId(sizes, cols[i].id);
    if f.Some? {
      assert sizes[f.value].id == cols[i].id;
    }
  }

  /** The first render after construction, with the same distinct
      columns, keeps the initial widths. */
  lemma FirstRenderKeepsInitial(cols: seq<Column>)
    requires DistinctIds(cols)
    ensures Reconciled(cols, InitialSizes(cols)) == InitialSizes(cols)
  {
    var init := InitialSizes(cols);
    forall i | 0 <= i < |cols| ensures FirstWithId(init, cols[i].id) == Some(i) {
      assert init[i].id == cols[i].id;
    }
  }

  // --------------------------------------------------------------- cursor

  /** The last cursor position clamped into a non-empty grid. */
  function ClampCursor(row: int, col: int, nrows: int, ncols: int): (r: (int, int))
    requires nrows > 0 && ncols > 0
    ensures r.0 < nrows && r.1 < ncols
    ensures row < nrows ==> r.0 == row
    ensures col < ncols ==> r.1 == col
    ensures row >= nrows ==> r.0 == nrows - 1
    ensures col >= ncols ==> r.1 == ncols - 1
  {
    (if row >= nrows then nrows - 1 else row, if col >= ncols then ncols - 1 else col)
  }

  // ---------------------------------------------------------- highlights

  datatype ValidationError = ValidationError(column: Column, row: int, message: string)

  /** `ids.index(id)`: the first position holding id, None where Python
      raises ValueError. */
  function IndexOfId(cols: seq<Column>, id: string): (r: Option<nat>)
    ensures r.Some? ==> r.value < |cols| && cols[r.value].id == id
    ensures r.Some? ==> forall j :: 0 <= j < r.value ==> cols[j].id != id
    ensures r.None? ==> forall j :: 0 <= j < |cols| ==> cols[j].id != id
  {
    if cols == [] then None
    else if cols[0].id == id then Some(0)
    else
      match IndexOfId(cols[1..], id)
      case None => None
      case Some(k) => Some(k + 1)
  }

  /** The cells validate highlights: for each error whose column id is
      shown, (column index, row); others are skipped. */
  function Highlights(cols: seq<Column>, errors: seq<ValidationError>): seq<(int, int)>
  {
    if errors == [] then []
    else
      var e := errors[|errors| - 1];
      Highlights(cols, errors[..|errors| - 1]) +
        (match IndexOfId(cols, e.column.id) case None => [] case Some(c) => [(c as int, e.row)])
  }

  /** The loop in validate. */
  method CollectHighlights(cols: seq<Column>, errors: seq<ValidationError>) returns (h: seq<(int, int)>)
    ensures h == Highlights(cols, errors)
  {
    h := [];
    var i := 0;
    while i < |errors|
      invariant 0 <= i <= |errors|
      invariant h == Highlights(cols, errors[..i])
    {
      assert errors[..i + 1][..i] == errors[..i];
      var c := IndexOfId(cols, errors[i].column.id);
      if c.Some? {
        h := h + [(c.value as int, errors[i].row)];
      }
      i := i + 1;
    }
    assert errors[..|errors|] == errors;
  }

  /** Every highlight names the first shown column with its error's id and
      the error's row, and there is at most one per error. */
  lemma {:induction false} HighlightsPointAtColumns(cols: seq<Column>, errors: seq<ValidationError>)
    ensures |Highlights(cols, errors)| <= |errors|
    ensures forall h :: h in Highlights(cols, errors) ==>
      0 <= h.0 < |cols| && exists e :: e in errors && e.row == h.1 && IndexOfId(cols, e.column.id) == Some(h.0 as nat)
    decreases |errors|
  {
    if errors != [] {
      var init := errors[..|errors| - 1];
      HighlightsPointAtColumns(cols, init);
      forall h | h in Highlights(cols, errors)
        ensures 0 <= h.0 < |cols| && exists e :: e in errors && e.row == h.1 && IndexOfId(cols, e.column.id) == Some(h.0 as nat)
      {
        if h in Highlights(cols, init) {
          var e :| e in init && e.row == h.1 && IndexOfId(cols, e.column.id) == Some(h.0 as nat);
          assert e in errors;
        } else {
          assert errors[|errors| - 1] in errors;
        }
      }
    }
  }

  /** An error about a column the grid shows is always highlighted. */
  lemma {:induction false} ShownColumnHighlighted(cols: seq<Column>, errors: seq<ValidationError>, k: int)
    requires 0 <= k < |errors| && IndexOfId(cols, errors[k].column.id).Some?
    ensures (IndexOfId(cols, errors[k].column.id).value as int, errors[k].row) in Highlights(cols, errors)
    decreases |errors|
  {
    var init := errors[..|errors| - 1];
    if k < |errors| - 1 {
      assert init[k] == errors[k];
      ShownColumnHighlighted(cols, init, k);
    }
  }

  // --------------------------------------------------------------- search

  /** _find_have_next_cell: is the position before the bottom-right cell? */
  predicate HaveNext(row: int, col: int, nrows: int, ncols: int)
  {
    row < nrows - 1 || (row == nrows - 1 && col < ncols - 1)
  }

  /** _find_go_next_cell: one step in row-major order. */
  function GoNext(row: int, col: int, ncols: int): (int, int)
  {
    if col + 1 > ncols - 1 then (row + 1, 0) else (row, col + 1)
  }

  /** The cell _do_find stops at, scanning from (row, col): the first cell
      equal to q at which the scan still sees a next cell. */
  function FindFirst(t: Table, q: string, row: int, col: int, nrows: int, ncols: int): (r: Option<(int, int)>)
    ensures r.Some? ==> ViewCell(t, r.value.0, r.value.1) == q && HaveNext(r.value.0, r.value.1, nrows, ncols)
    decreases nrows - row, ncols - col
  {
    if !HaveNext(row, col, nrows, ncols) then None
    else if ViewCell(t, row, col) == q then Some((row, col))
    else
      var next := GoNext(row, col, ncols);
      FindFirst(t, q, next.0, next.1, nrows, ncols)
  }

  /** A found cell holds exactly the query (strict_mode is not consulted),
      lies in the grid and not before the start in row-major order. */
  lemma {:induction false} FindFirstSound(t: Table, q: string, row: int, col: int, nrows: int, ncols: int)
    requires 0 <= row && 0 <= col < ncols
    requires FindFirst(t, q, row, col, nrows, ncols).Some?
    ensures var p := FindFirst(t, q, row, col, nrows, ncols).value;
      ViewCell(t, p.0, p.1) == q && 0 <= p.0 < nrows && 0 <= p.1 < ncols &&
      (p.0 > row || (p.0 == row && p.1 >= col))
    decreases nrows - row, ncols - col
  {
    if ViewCell(t, row, col) != q {
      var next := GoNext(row, col, ncols);
      FindFirstSound(t, q, next.0, next.1, nrows, ncols);
    }
  }

  /** No cell the scan passes before stopping holds the query. */
  lemma {:induction false} FindFirstMinimal(t: Table, q: string, row: int, col: int, nrows: int, ncols: int, r: int, c: int)
    requires 0 <= row && 0 <= col < ncols && 0 <= c < ncols
    requires RowMajorBefore(row, col, r, c) || (r == row && c == col)
    requires match FindFirst(t, q, row, col, nrows, ncols)
      case Some(p) => RowMajorBefore(r, c, p.0, p.1)
      case None => RowMajorBefore(r, c, nrows - 1, ncols - 1)
    ensures ViewCell(t, r, c) != q
    decreases nrows - row, ncols - col
  {
    if !(r == row && c == col) {
      var next := GoNext(row, col, ncols);
      FindFirstMinimal(t, q, next.0, next.1, nrows, ncols, r, c);
    }
  }

  /** The bottom-right cell is never reported, whatever it holds. */
  lemma {:induction false} LastCellNeverFound(t: Table, q: string, row: int, col: int, nrows: int, ncols: int)
    ensures FindFirst(t, q, row, col, nrows, ncols) != Some((nrows - 1, ncols - 1))
    decreases nrows - row, ncols - col
  {
    if HaveNext(row, col, nrows, ncols) && ViewCell(t, row, col) != q {
      var next := GoNext(row, col, ncols);
      LastCellNeverFound(t, q, next.0, next.1, nrows, ncols);
    }
  }

  /** In a one-cell grid holding the query the search finds nothing. */
  lemma OneCellGridNotFound(q: string)
    ensures FindFirst([[q]], q, 0, 0, 1, 1) == None
  {
  }

  /** The scan as evidently intended: each cell is compared before the scan
      asks for a next one, so the bottom-right cell is compared too. */
  function IntendedFindFirst(t: Table, q: string, row: int, col: int, nrows: int, ncols: int): (r: Option<(int, int)>)
    ensures r.Some? ==> ViewCell(t, r.value.0, r.value.1) == q
    decreases nrows - row, ncols - col
  {
    if !(row < nrows && 0 <= col < ncols) then None
    else if ViewCell(t, row, col) == q then Some((row, col))
    else
      var next := GoNext(row, col, ncols);
      IntendedFindFirst(t, q, next.0, next.1, nrows, ncols)
  }

  /** The intended scan finds a match whenever some cell of the grid at or
      after the start holds the query, the bottom-right cell included. */
  lemma {:induction false} IntendedFindComplete(t: Table, q: string, row: int, col: int, nrows: int, ncols: int,
                                                r: int, c: int)
    requires 0 <= col < ncols && r < nrows && 0 <= c < ncols
    requires RowMajorBefore(row, col, r, c) || (r == row && c == col)
    requires ViewCell(t, r, c) == q
    ensures IntendedFindFirst(t, q, row, col, nrows, ncols).Some?
    decreases nrows - row, ncols - col
  {
    if ViewCell(t, row, col) != q {
      var next := GoNext(row, col, ncols);
      IntendedFindComplete(t, q, next.0, next.1, nrows, ncols, r, c);
    }
  }

  /** Where the scan as written finds a cell, the intended scan finds the
      same one. */
  lemma {:induction false} IntendedAgrees(t: Table, q: string, row: int, col: int, nrows: int, ncols: int)
    requires 0 <= col < ncols
    requires FindFirst(t, q, row, col, nrows, ncols).Some?
    ensures IntendedFindFirst(t, q, row, col, nrows, ncols) == FindFirst(t, q, row, col, nrows, ncols)
    decreases nrows - row, ncols - col
  {
    if ViewCell(t, row, col) != q {
      var next := GoNext(row, col, ncols);
      IntendedAgrees(t, q, next.0, next.1, nrows, ncols);
    }
  }

  /** In a one-cell grid holding the query the intended scan finds it. */
  lemma OneCellGridFound(q: string)
    ensures IntendedFindFirst([[q]], q, 0, 0, 1, 1) == Some((0, 0))
  {
  }
}
