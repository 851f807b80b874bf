/** The cell contents a grid model holds, as a list of rows of strings,
    and the cell writes the set-value and paste commands perform. Reads
    and writes use Python list indexing: a negative index counts from the
    end, a read outside the rows gives "" and a write there is dropped. */
module GridTable {
  import opened Outcomes

  type Row = seq<string>
  type Table = seq<Row>

  /** The list slot Python's `s[i]` addresses in a list of length n. */
  function PyIndex(i: int, n: nat): (r: Option<nat>)
    ensures r.Some? <==> -(n as int) <= i < n
    ensures r.Some? ==> r.value < n
    ensures 0 <= i < n ==> r == Some(i)
  {
    if 0 <= i < n then Some(i) else if -(n as int) <= i < 0 then Some(n + i) else None
  }

  /** The (row, column) slot that `rows[row][col]` addresses, if any. */
  function Slot(t: Table, row: int, col: int): (s: Option<(nat, nat)>)
    ensures s.Some? ==> s.value.0 < |t| && s.value.1 < |t[s.value.0]|
    ensures 0 <= row < |t| && 0 <= col < |t[row]| ==> s == Some((row, col))
  {
    match PyIndex(row, |t|)
    case None => None
    case Some(r) =>
      match PyIndex(col, |t[r]|)
      case None => None
      case Some(c) => Some((r, c))
  }

  /** A slot reached from non-negative indices is those indices. */
  lemma SlotOfNatural(t: Table, row: int, col: int)
    requires 0 <= row && 0 <= col && Slot(t, row, col).Some?
    ensures Slot(t, row, col) == Some((row, col))
  {
  }

  function Cell(t: Table, row: int, col: int): string
  {
    match Slot(t, row, col)
    case None => ""
    case Some(rc) => t[rc.0][rc.1]
  }

  /** What the grid view shows at (row, col): the rendered cell, or "" for
      a position outside the grid. */
  function ViewCell(t: Table, row: int, col: int): string
  {
    if 0 <= row < |t| && 0 <= col < |t[row]| then t[row][col] else ""
  }

  predicate SameShape(a: Table, b: Table)
  {
    |a| == |b| && forall r :: 0 <= r < |a| ==> |a[r]| == |b[r]|
  }

  /** Slots depend on the shape of the table only. */
  lemma SlotShape(a: Table, b: Table, row: int, col: int)
    requires SameShape(a, b)
    ensures Slot(a, row, col) == Slot(b, row, col)
  {
  }

  /** Two tables of the same shape with the same cells are equal. */
  lemma TableExt(a: Table, b: Table)
    requires SameShape(a, b)
    requires forall r, c :: 0 <= r < |a| && 0 <= c < |a[r]| ==> a[r][c] == b[r][c]
    ensures a == b
  {
    assert forall r :: 0 <= r < |a| ==> a[r] == b[r];
  }

  function SetCell(t: Table, row: int, col: int, v: string): (u: Table)
    ensures SameShape(t, u)
  {
    match Slot(t, row, col)
    case None => t
    case Some(rc) => t[rc.0 := t[rc.0][rc.1 := v]]
  }

  datatype Write = Write(row: int, col: int, value: string)

  /** The table after performing the writes in order. */
  function WriteAll(t: Table, ws: seq<Write>): (u: Table)
    ensures SameShape(t, u)
    decreases |ws|
  {
    if ws == [] then t
    else
      var w := ws[|ws| - 1];
      SetCell(WriteAll(t, ws[..|ws| - 1]), w.row, w.col, w.value)
  }

  /** Some write addresses slot (r, c). */
  predicate Hits(t: Table, ws: seq<Write>, r: int, c: int)
  {
    exists k :: 0 <= k < |ws| && Slot(t, ws[k].row, ws[k].col) == Some((r, c))
  }

  /** The value the last write to slot (r, c) carries, d if there is none. */
  function LastValue(t: Table, ws: seq<Write>, r: int, c: int, d: string): string
    decreases |ws|
  {
    if ws == [] then d
    else if Slot(t, ws[|ws| - 1].row, ws[|ws| - 1].col) == Some((r, c)) then ws[|ws| - 1].value
    else LastValue(t, ws[..|ws| - 1], r, c, d)
  }

  /** After a run of writes a cell holds the last value written to it, or
      what it held before. */
  lemma {:induction false} WriteAllCell(t: Table, ws: seq<Write>, r: int, c: int)
    requires 0 <= r < |t| && 0 <= c < |t[r]|
    ensures WriteAll(t, ws)[r][c] == LastValue(t, ws, r, c, t[r][c])
    decreases |ws|
  {
    if ws != [] {
      var w := ws[|ws| - 1];
      var u := WriteAll(t, ws[..|ws| - 1]);
      WriteAllCell(t, ws[..|ws| - 1], r, c);
      SlotShape(t, u, w.row, w.col);
    }
  }

  /** When every write to slot (r, c) carries x, the last one does. */
  lemma {:induction false} LastValueUniform(t: Table, ws: seq<Write>, r: int, c: int, d: string, x: string)
    requires forall k :: 0 <= k < |ws| && Slot(t, ws[k].row, ws[k].col) == Some((r, c)) ==> ws[k].value == x
    ensures LastValue(t, ws, r, c, d) == if Hits(t, ws, r, c) then x else d
    decreases |ws|
  {
    if ws != [] {
      var m := |ws| - 1;
      var init := ws[..m];
      assert forall k :: 0 <= k < m ==> init[k] == ws[k];
      LastValueUniform(t, init, r, c, d, x);
      if Slot(t, ws[m].row, ws[m].col) != Some((r, c)) {
        if Hits(t, ws, r, c) {
          var k :| 0 <= k < |ws| && Slot(t, ws[k].row, ws[k].col) == Some((r, c));
          assert init[k] == ws[k];
        }
      }
    }
  }

  /** A slot no write addresses keeps its value. */
  lemma LastValueMiss(t: Table, ws: seq<Write>, r: int, c: int, d: string)
    requires !Hits(t, ws, r, c)
    ensures LastValue(t, ws, r, c, d) == d
  {
    LastValueUniform(t, ws, r, c, d, d);
  }

  /** What a command captures before it writes: every target with the value
      it holds now. */
  function SnapshotOf(t: Table, ws: seq<Write>): (s: seq<Write>)
    ensures |s| == |ws|
    ensures forall k :: 0 <= k < |ws| ==> s[k] == Write(ws[k].row, ws[k].col, Cell(t, ws[k].row, ws[k].col))
  {
    seq(|ws|, k requires 0 <= k < |ws| => Write(ws[k].row, ws[k].col, Cell(t, ws[k].row, ws[k].col)))
  }

  /** Writing back the values captured before a run of writes undoes it,
      whatever the writes were and however often they repeat a cell. */
  lemma UndoWrites(t: Table, ws: seq<Write>)
    ensures WriteAll(WriteAll(t, ws), SnapshotOf(t, ws)) == t
  {
    var u := WriteAll(t, ws);
    var s := SnapshotOf(t, ws);
    var v := WriteAll(u, s);
    forall r, c | 0 <= r < |v| && 0 <= c < |v[r]|
      ensures v[r][c] == t[r][c]
    {
      WriteAllCell(u, s, r, c);
      forall k | 0 <= k < |s| && Slot(u, s[k].row, s[k].col) == Some((r, c))
        ensures s[k].value == t[r][c]
      {
        SlotShape(t, u, s[k].row, s[k].col);
      }
      LastValueUniform(u, s, r, c, u[r][c], t[r][c]);
      if !Hits(u, s, r, c) {
        if Hits(t, ws, r, c) {
          var k :| 0 <= k < |ws| && Slot(t, ws[k].row, ws[k].col) == Some((r, c));
          SlotShape(t, u, ws[k].row, ws[k].col);
        }
        WriteAllCell(t, ws, r, c);
        LastValueMiss(t, ws, r, c, t[r][c]);
      }
    }
    TableExt(v, t);
  }

  /** A cell that no earlier write names reads as before, when all indices
      involved are non-negative. */
  lemma UntouchedRead(t: Table, ws: seq<Write>, row: int, col: int)
    requires row >= 0 && col >= 0
    requires forall k :: 0 <= k < |ws| ==> ws[k].row >= 0 && ws[k].col >= 0 && (ws[k].row != row || ws[k].col != col)
    ensures Cell(WriteAll(t, ws), row, col) == Cell(t, row, col)
  {
    var u := WriteAll(t, ws);
    SlotShape(t, u, row, col);
    if Slot(t, row, col).Some? {
      SlotOfNatural(t, row, col);
      if Hits(t, ws, row, col) {
        var k :| 0 <= k < |ws| && Slot(t, ws[k].row, ws[k].col) == Some((row, col));
        SlotOfNatural(t, ws[k].row, ws[k].col);
      }
      WriteAllCell(t, ws, row, col);
      LastValueMiss(t, ws, row, col, t[row][col]);
    }
  }

  // ------------------------------------------------------------ set value

  /** The writes of a set-value command: value to every listed cell. */
  function Fill(cells: seq<(int, int)>, v: string): (ws: seq<Write>)
    ensures |ws| == |cells|
    ensures forall k :: 0 <= k < |cells| ==> ws[k] == Write(cells[k].0, cells[k].1, v)
  {
    seq(|cells|, k requires 0 <= k < |cells| => Write(cells[k].0, cells[k].1, v))
  }

  /** After a set-value command every listed cell reads the value and every
      other cell is unchanged. */
  lemma FillEffect(t: Table, cells: seq<(int, int)>, v: string, r: int, c: int)
    requires 0 <= r < |t| && 0 <= c < |t[r]|
    ensures WriteAll(t, Fill(cells, v))[r][c] == if Hits(t, Fill(cells, v), r, c) then v else t[r][c]
  {
    WriteAllCell(t, Fill(cells, v), r, c);
    LastValueUniform(t, Fill(cells, v), r, c, t[r][c], v);
  }

  /** A listed cell inside the table reads the value afterwards. */
  lemma FillReads(t: Table, cells: seq<(int, int)>, v: string, k: int)
    requires 0 <= k < |cells| && Slot(t, cells[k].0, cells[k].1).Some?
    ensures Cell(WriteAll(t, Fill(cells, v)), cells[k].0, cells[k].1) == v
  {
    var rc := Slot(t, cells[k].0, cells[k].1).value;
    var u := WriteAll(t, Fill(cells, v));
    SlotShape(t, u, cells[k].0, cells[k].1);
    assert Fill(cells, v)[k] == Write(cells[k].0, cells[k].1, v);
    assert Hits(t, Fill(cells, v), rc.0, rc.1);
    FillEffect(t, cells, v, rc.0, rc.1);
  }

  // ---------------------------------------------------------------- paste

  /** The writes of one pasted row: row[j] to (r, c0 + j). */
  function RowWrites(r: int, c0: int, row: Row): (ws: seq<Write>)
    ensures |ws| == |row|
    ensures forall j :: 0 <= j < |row| ==> ws[j] == Write(r, c0 + j, row[j])
  {
    seq(|row|, j requires 0 <= j < |row| => Write(r, c0 + j, row[j]))
  }

  /** The writes of a paste, in row-major order: table[i][j] to
      (r0 + i, c0 + j). */
  function PasteWrites(table: Table, r0: int, c0: int): seq<Write>
    decreases |table|
  {
    if table == [] then []
    else
      var n := |table| - 1;
      PasteWrites(table[..n], r0, c0) + RowWrites(r0 + n, c0, table[n])
  }

  /** Every paste write is table[i][j] to (r0 + i, c0 + j) for some
      position (i, j) of the table. */
  lemma {:induction false} PasteWriteOrigin(table: Table, r0: int, c0: int, k: int)
    requires 0 <= k < |PasteWrites(table, r0, c0)|
    ensures var w := PasteWrites(table, r0, c0)[k];
      0 <= w.row - r0 < |table| && 0 <= w.col - c0 < |table[w.row - r0]| &&
      w.value == table[w.row - r0][w.col - c0]
    decreases |table|
  {
    var n := |table| - 1;
    var front := PasteWrites(table[..n], r0, c0);
    if k < |front| {
      PasteWriteOrigin(table[..n], r0, c0, k);
      assert PasteWrites(table, r0, c0)[k] == front[k];
    } else {
      assert PasteWrites(table, r0, c0)[k] == RowWrites(r0 + n, c0, table[n])[k - |front|];
    }
  }

  /** Every position of the table has its paste write. */
  lemma {:induction false} PasteWriteAt(table: Table, r0: int, c0: int, i: int, j: int) returns (k: int)
    requires 0 <= i < |table| && 0 <= j < |table[i]|
    ensures 0 <= k < |PasteWrites(table, r0, c0)|
    ensures PasteWrites(table, r0, c0)[k] == Write(r0 + i, c0 + j, table[i][j])
    decreases |table|
  {
    var n := |table| - 1;
    var front := PasteWrites(table[..n], r0, c0);
    var ws := PasteWrites(table, r0, c0);
    if i < n {
      k := PasteWriteAt(table[..n], r0, c0, i, j);
      assert ws[k] == front[k];
    } else {
      k := |front| + j;
      assert ws[k] == RowWrites(r0 + n, c0, table[n])[j];
    }
  }

  /** Every paste write to a slot reached from a non-negative origin carries
      the table value for that slot. */
  lemma PasteUniform(t: Table, table: Table, r0: int, c0: int, r: int, c: int)
    requires 0 <= r0 && 0 <= c0
    ensures forall k ::
      (0 <= k < |PasteWrites(table, r0, c0)| &&
       Slot(t, PasteWrites(table, r0, c0)[k].row, PasteWrites(table, r0, c0)[k].col) == Some((r, c))) ==>
      (0 <= r - r0 < |table| && 0 <= c - c0 < |table[r - r0]| &&
       PasteWrites(table, r0, c0)[k].value == table[r - r0][c - c0])
  {
    var ws := PasteWrites(table, r0, c0);
    forall k | 0 <= k < |ws| && Slot(t, ws[k].row, ws[k].col) == Some((r, c))
      ensures 0 <= r - r0 < |table| && 0 <= c - c0 < |table[r - r0]| && ws[k].value == table[r - r0][c - c0]
    {
      PasteWriteOrigin(table, r0, c0, k);
      SlotOfNatural(t, ws[k].row, ws[k].col);
    }
  }

  /** After a paste at a non-negative origin, a cell covered by the table
      holds the pasted value and any other cell is unchanged. */
  lemma PasteEffect(t: Table, table: Table, r0: int, c0: int, r: int, c: int)
    requires 0 <= r0 && 0 <= c0
    requires 0 <= r < |t| && 0 <= c < |t[r]|
    ensures var u := WriteAll(t, PasteWrites(table, r0, c0));
      if 0 <= r - r0 < |table| && 0 <= c - c0 < |table[r - r0]| then u[r][c] == table[r - r0][c - c0]
      else u[r][c] == t[r][c]
  {
    if 0 <= r - r0 < |table| && 0 <= c - c0 < |table[r - r0]| {
      PasteCovered(t, table, r0, c0, r, c);
    } else {
      PasteUncovered(t, table, r0, c0, r, c);
    }
  }

  lemma PasteCovered(t: Table, table: Table, r0: int, c0: int, r: int, c: int)
    requires 0 <= r0 && 0 <= c0
    requires 0 <= r < |t| && 0 <= c < |t[r]|
    requires 0 <= r - r0 < |table| && 0 <= c - c0 < |table[r - r0]|
    ensures WriteAll(t, PasteWrites(table, r0, c0))[r][c] == table[r - r0][c - c0]
  {
    var ws := PasteWrites(table, r0, c0);
    var x := table[r - r0][c - c0];
    assert Hits(t, ws, r, c) by {
      var k := PasteWriteAt(table, r0, c0, r - r0, c - c0);
      assert ws[k].row == r && ws[k].col == c;
      assert Slot(t, ws[k].row, ws[k].col) == Some((r, c));
    }
    assert LastValue(t, ws, r, c, t[r][c]) == x by {
      PasteUniform(t, table, r0, c0, r, c);
      LastValueUniform(t, ws, r, c, t[r][c], x);
    }
    WriteAllCell(t, ws, r, c);
  }

  lemma PasteUncovered(t: Table, table: Table, r0: int, c0: int, r: int, c: int)
    requires 0 <= r0 && 0 <= c0
    requires 0 <= r < |t| && 0 <= c < |t[r]|
    requires !(0 <= r - r0 < |table| && 0 <= c - c0 < |table[r - r0]|)
    ensures WriteAll(t, PasteWrites(table, r0, c0))[r][c] == t[r][c]
  {
    var ws := PasteWrites(table, r0, c0);
    WriteAllCell(t, ws, r, c);
    PasteUniform(t, table, r0, c0, r, c);
    LastValueMiss(t, ws, r, c, t[r][c]);
  }

  /** Paste writes come in strictly increasing row-major order, so none of
      them addresses a cell an earlier one did. */
  predicate RowMajorBefore(r: int, c: int, r': int, c': int)
  {
    r < r' || (r == r' && c < c')
  }

  lemma {:induction false} PasteWritesOrdered(table: Table, r0: int, c0: int, a: int, b: int)
    requires 0 <= a < b < |PasteWrites(table, r0, c0)|
    ensures var ws := PasteWrites(table, r0, c0);
      RowMajorBefore(ws[a].row, ws[a].col, ws[b].row, ws[b].col)
    decreases |table|
  {
    var n := |table| - 1;
    var front := PasteWrites(table[..n], r0, c0);
    var ws := PasteWrites(table, r0, c0);
    if b < |front| {
      PasteWritesOrdered(table[..n], r0, c0, a, b);
      assert ws[a] == front[a] && ws[b] == front[b];
    } else if a < |front| {
      PasteWriteOrigin(table[..n], r0, c0, a);
      assert ws[a] == front[a];
      assert ws[b] == RowWrites(r0 + n, c0, table[n])[b - |front|];
    } else {
      assert ws[a] == RowWrites(r0 + n, c0, table[n])[a - |front|];
      assert ws[b] == RowWrites(r0 + n, c0, table[n])[b - |front|];
    }
  }

  /** Every write lies, in row-major order, before cell (r, c), and none
      has a negative index. */
  ghost predicate WrittenBefore(ws: seq<Write>, r: int, c: int)
  {
    forall k :: 0 <= k < |ws| ==> ws[k].row >= 0 && ws[k].col >= 0 && RowMajorBefore(ws[k].row, ws[k].col, r, c)
  }

  /** One write appended: its effect on the table and on the snapshot. */
  lemma WriteStep(t: Table, ws: seq<Write>, w: Write)
    ensures WriteAll(t, ws + [w]) == SetCell(WriteAll(t, ws), w.row, w.col, w.value)
    ensures SnapshotOf(t, ws + [w]) == SnapshotOf(t, ws) + [Write(w.row, w.col, Cell(t, w.row, w.col))]
  {
    assert (ws + [w])[..|ws|] == ws;
  }

  /** The state of the paste loop once the writes ws are done: the rows
      hold them, undo holds the values they replaced, and the next cell
      written is (r, c). */
  ghost predicate Pasted(t: Table, ws: seq<Write>, r: int, c: int, rows: Table, undo: seq<Write>)
  {
    rows == WriteAll(t, ws) && undo == SnapshotOf(t, ws) && WrittenBefore(ws, r, c)
  }

  /** A write after all earlier ones in row-major order captures the value
      the cell has at that moment, which is its value before any write, so
      the paste loop's state moves on by one write. */
  lemma PastedStep(t: Table, ws: seq<Write>, w: Write, rows: Table, undo: seq<Write>, rows': Table, undo': seq<Write>)
    requires w.row >= 0 && w.col >= 0 && Pasted(t, ws, w.row, w.col, rows, undo)
    requires rows' == SetCell(rows, w.row, w.col, w.value)
    requires undo' == undo + [Write(w.row, w.col, Cell(rows, w.row, w.col))]
    ensures Pasted(t, ws + [w], w.row, w.col + 1, rows', undo')
  {
    UntouchedRead(t, ws, w.row, w.col);
    WriteStep(t, ws, w);
  }

  /** The paste loop after i table rows. */
  ghost predicate TablePastedUpTo(t: Table, table: Table, r0: int, c0: int, i: nat, rows: Table, undo: seq<Write>)
  {
    i <= |table| && Pasted(t, PasteWrites(table[..i], r0, c0), r0 + i, 0, rows, undo)
  }

  /** The row loop after j cells of row r, whose writes follow ws. */
  ghost predicate RowPastedUpTo(t: Table, ws: seq<Write>, r: int, c0: int, row: Row, j: nat, rows: Table, undo: seq<Write>)
  {
    j <= |row| && Pasted(t, ws + RowWrites(r, c0, row)[..j], r, c0 + j, rows, undo)
  }

  lemma TablePastedStart(t: Table, table: Table, r0: int, c0: int)
    ensures TablePastedUpTo(t, table, r0, c0, 0, t, [])
  {
    assert table[..0] == [];
  }

  lemma TablePastedEnd(t: Table, table: Table, r0: int, c0: int, rows: Table, undo: seq<Write>)
    requires TablePastedUpTo(t, table, r0, c0, |table|, rows, undo)
    ensures rows == WriteAll(t, PasteWrites(table, r0, c0)) && undo == SnapshotOf(t, PasteWrites(table, r0, c0))
  {
    assert table[..|table|] == table;
  }

  /** Before the first cell of table row i. */
  lemma RowPastedStart(t: Table, table: Table, r0: int, c0: int, i: nat, rows: Table, undo: seq<Write>)
    requires i < |table| && c0 >= 0 && TablePastedUpTo(t, table, r0, c0, i, rows, undo)
    ensures RowPastedUpTo(t, PasteWrites(table[..i], r0, c0), r0 + i, c0, table[i], 0, rows, undo)
  {
    var ws := PasteWrites(table[..i], r0, c0);
    assert ws + RowWrites(r0 + i, c0, table[i])[..0] == ws;
  }

  /** Reading cell j of the row, then writing it, moves the row loop's
      state one cell on. */
  lemma RowPastedNext(t: Table, ws: seq<Write>, r: int, c0: int, row: Row, j: nat,
                      rows: Table, undo: seq<Write>, rows': Table, undo': seq<Write>)
    requires r >= 0 && c0 >= 0 && j < |row|
    requires RowPastedUpTo(t, ws, r, c0, row, j, rows, undo)
    requires rows' == SetCell(rows, r, c0 + j, row[j]) && undo' == undo + [Write(r, c0 + j, Cell(rows, r, c0 + j))]
    ensures RowPastedUpTo(t, ws, r, c0, row, j + 1, rows', undo')
  {
    var run := RowWrites(r, c0, row);
    var pre := ws + run[..j];
    var w := run[j];
    assert w == Write(r, c0 + j, row[j]);
    assert ws + run[..j + 1] == pre + [w];
    PastedStep(t, pre, w, rows, undo, rows', undo');
  }

  /** After the last cell of table row i. */
  lemma RowPastedEnd(t: Table, table: Table, r0: int, c0: int, i: nat, rows: Table, undo: seq<Write>)
    requires i < |table|
    requires RowPastedUpTo(t, PasteWrites(table[..i], r0, c0), r0 + i, c0, table[i], |table[i]|, rows, undo)
    ensures TablePastedUpTo(t, table, r0, c0, i + 1, rows, undo)
  {
    var ws := PasteWrites(table[..i], r0, c0);
    var run := RowWrites(r0 + i, c0, table[i]);
    assert run[..|table[i]|] == run;
    assert table[..i + 1][..i] == table[..i];
    assert PasteWrites(table[..i + 1], r0, c0) == ws + run;
  }
}
