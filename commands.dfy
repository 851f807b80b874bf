/** The grid editor's reversible commands: append rows, delete rows, set a
    value in cells and paste a table. Each has the effect its Do loop has
    on the model rows, the record it pushes on its own undo stack, and the
    effect its Undo loop has with that record. */
module Commands {
  import opened GridTable
  import opened PyList

  datatype Command =
    | AppendRows(count: nat)
    | DeleteRows(positions: seq<int>)
    | SetValue(cells: seq<(int, int)>, value: string)
    | Paste(row: int, col: int, table: Table)

  /** Do returns False on an empty input, and then nothing is recorded. */
  predicate Accepted(c: Command)
  {
    match c
    case AppendRows(n) => n != 0
    case DeleteRows(ps) => ps != []
    case SetValue(cells, _) => cells != []
    case Paste(_, _, _) => true
  }

  /** What the callers guarantee: row positions from a selection, strictly
      ascending and inside the rows, and a paste origin inside the grid. */
  predicate Applicable(t: Table, c: Command)
  {
    match c
    case DeleteRows(ps) => StrictlyAscending(ps) && AllBelow(ps, |t|)
    case Paste(r0, c0, _) => r0 >= 0 && c0 >= 0
    case _ => true
  }

  function Blanks(n: nat, blank: Row): (rows: Table)
    ensures |rows| == n
    ensures forall i :: 0 <= i < n ==> rows[i] == blank
  {
    seq(n, _ => blank)
  }

  /** The rows after Do. */
  function Forward(t: Table, c: Command, blank: Row): Table
    requires Applicable(t, c)
  {
    match c
    case AppendRows(n) => t + Blanks(n, blank)
    case DeleteRows(ps) =>
      AscendingDeletable(ps, |t|);
      DeleteRun(t, ps)
    case SetValue(cells, v) => WriteAll(t, Fill(cells, v))
    case Paste(r0, c0, table) => WriteAll(t, PasteWrites(table, r0, c0))
  }

  /** An entry of one of the four undo stacks. */
  datatype UndoRecord =
    | AppendRecord(count: nat)
    | DeleteRecord(states: seq<(int, Row)>)
    | SetRecord(writes: seq<Write>)
    | PasteRecord(writes: seq<Write>)

  /** What Do pushes: the number of rows appended, each deleted position
      with its row state, or each written cell with the value it held. */
  function RecordOf(t: Table, c: Command): UndoRecord
    requires Applicable(t, c)
  {
    match c
    case AppendRows(n) => AppendRecord(n)
    case DeleteRows(ps) => DeleteRecord(Captured(t, ps))
    case SetValue(cells, v) => SetRecord(SnapshotOf(t, Fill(cells, v)))
    case Paste(r0, c0, table) => PasteRecord(SnapshotOf(t, PasteWrites(table, r0, c0)))
  }

  /** Each command pushes a record of its own kind; an append's record
      holds its count. */
  predicate RecordFor(c: Command, r: UndoRecord)
  {
    match c
    case AppendRows(n) => r == AppendRecord(n)
    case DeleteRows(_) => r.DeleteRecord?
    case SetValue(_, _) => r.SetRecord?
    case Paste(_, _, _) => r.PasteRecord?
  }

  lemma RecordOfFor(t: Table, c: Command)
    requires Applicable(t, c)
    ensures RecordFor(c, RecordOf(t, c))
  {
  }

  /** Undo of an append deletes the last row `count` times; it needs that
      many rows. */
  predicate Reversible(u: Table, r: UndoRecord)
  {
    r.AppendRecord? ==> r.count <= |u|
  }

  /** The rows after Undo with the popped record. */
  function Reverse(u: Table, r: UndoRecord): Table
    requires Reversible(u, r)
  {
    match r
    case AppendRecord(n) => u[..|u| - n]
    case DeleteRecord(states) => RestoreRun(u, states)
    case SetRecord(ws) => WriteAll(u, ws)
    case PasteRecord(ws) => WriteAll(u, ws)
  }

  /** Undo exactly reverses Do: the appended rows go, the deleted rows come
      back at their places, every written cell gets its old value back. */
  lemma UndoReverses(t: Table, c: Command, blank: Row)
    requires Applicable(t, c)
    ensures Reversible(Forward(t, c, blank), RecordOf(t, c))
    ensures Reverse(Forward(t, c, blank), RecordOf(t, c)) == t
  {
    match c
    case AppendRows(n) =>
      assert (t + Blanks(n, blank))[..|t|] == t;
    case DeleteRows(ps) =>
      RestoreAfterDelete(t, ps);
    case SetValue(cells, v) =>
      UndoWrites(t, Fill(cells, v));
    case Paste(r0, c0, table) =>
      UndoWrites(t, PasteWrites(table, r0, c0));
  }

  /** Appending n rows adds exactly n blank rows at the end. */
  lemma AppendAddsBlankRows(t: Table, n: nat, blank: Row)
    ensures |Forward(t, AppendRows(n), blank)| == |t| + n
    ensures Forward(t, AppendRows(n), blank)[..|t|] == t
    ensures forall i :: |t| <= i < |t| + n ==> Forward(t, AppendRows(n), blank)[i] == blank
  {
    assert (t + Blanks(n, blank))[..|t|] == t;
  }

  // ---------------------------------------------------------- undo stacks

  /** The append stack: the counts of the append records, oldest first. */
  function Appends(rs: seq<UndoRecord>): seq<nat>
    decreases |rs|
  {
    if rs == [] then []
    else
      var r := rs[|rs| - 1];
      Appends(rs[..|rs| - 1]) + (if r.AppendRecord? then [r.count] else [])
  }

  function Deletes(rs: seq<UndoRecord>): seq<seq<(int, Row)>>
    decreases |rs|
  {
    if rs == [] then []
    else
      var r := rs[|rs| - 1];
      Deletes(rs[..|rs| - 1]) + (if r.DeleteRecord? then [r.states] else [])
  }

  function Sets(rs: seq<UndoRecord>): seq<seq<Write>>
    decreases |rs|
  {
    if rs == [] then []
    else
      var r := rs[|rs| - 1];
      Sets(rs[..|rs| - 1]) + (if r.SetRecord? then [r.writes] else [])
  }

  function Pastes(rs: seq<UndoRecord>): seq<seq<Write>>
    decreases |rs|
  {
    if rs == [] then []
    else
      var r := rs[|rs| - 1];
      Pastes(rs[..|rs| - 1]) + (if r.PasteRecord? then [r.writes] else [])
  }

  /** Each undo stack is the projection of the record history on its kind,
      so the command on top of the processor's stack finds its record on
      top of its own stack. */
  predicate StacksMatch(rs: seq<UndoRecord>, appends: seq<nat>, deletes: seq<seq<(int, Row)>>,
                        sets: seq<seq<Write>>, pastes: seq<seq<Write>>)
  {
    appends == Appends(rs) && deletes == Deletes(rs) && sets == Sets(rs) && pastes == Pastes(rs)
  }

  /** Popping the newest record pops exactly its own stack. */
  lemma PopMatches(rs: seq<UndoRecord>, appends: seq<nat>, deletes: seq<seq<(int, Row)>>,
                   sets: seq<seq<Write>>, pastes: seq<seq<Write>>)
    requires rs != [] && StacksMatch(rs, appends, deletes, sets, pastes)
    ensures rs[|rs| - 1].AppendRecord? ==>
      (appends != [] && appends[|appends| - 1] == rs[|rs| - 1].count &&
       StacksMatch(rs[..|rs| - 1], appends[..|appends| - 1], deletes, sets, pastes))
    ensures rs[|rs| - 1].DeleteRecord? ==>
      (deletes != [] && deletes[|deletes| - 1] == rs[|rs| - 1].states &&
       StacksMatch(rs[..|rs| - 1], appends, deletes[..|deletes| - 1], sets, pastes))
    ensures rs[|rs| - 1].SetRecord? ==>
      (sets != [] && sets[|sets| - 1] == rs[|rs| - 1].writes &&
       StacksMatch(rs[..|rs| - 1], appends, deletes, sets[..|sets| - 1], pastes))
    ensures rs[|rs| - 1].PasteRecord? ==>
      (pastes != [] && pastes[|pastes| - 1] == rs[|rs| - 1].writes &&
       StacksMatch(rs[..|rs| - 1], appends, deletes, sets, pastes[..|pastes| - 1]))
  {
  }

  /** Pushing a record pushes exactly its own stack. */
  lemma PushMatches(rs: seq<UndoRecord>, appends: seq<nat>, deletes: seq<seq<(int, Row)>>,
                    sets: seq<seq<Write>>, pastes: seq<seq<Write>>, r: UndoRecord)
    requires StacksMatch(rs, appends, deletes, sets, pastes)
    ensures r.AppendRecord? ==> StacksMatch(rs + [r], appends + [r.count], deletes, sets, pastes)
    ensures r.DeleteRecord? ==> StacksMatch(rs + [r], appends, deletes + [r.states], sets, pastes)
    ensures r.SetRecord? ==> StacksMatch(rs + [r], appends, deletes, sets + [r.writes], pastes)
    ensures r.PasteRecord? ==> StacksMatch(rs + [r], appends, deletes, sets, pastes + [r.writes])
  {
    assert (rs + [r])[..|rs|] == rs;
  }

  // ------------------------------------------------------ command history

  /** The done stack, newest last: each command was accepted, was done on
      the rows under it, left the rows the next one was done on (the newest
      left the current rows) and pushed the record RecordOf gives. */
  ghost predicate DoneChain(before: seq<Table>, done: seq<Command>, records: seq<UndoRecord>, cur: Table, blank: Row)
    decreases |done|
  {
    |before| == |done| && |records| == |done| &&
    (done != [] ==>
      var n := |done| - 1;
      Applicable(before[n], done[n]) && Accepted(done[n]) &&
      Forward(before[n], done[n], blank) == cur && records[n] == RecordOf(before[n], done[n]) &&
      DoneChain(before[..n], done[..n], records[..n], before[n], blank))
  }

  /** The redo stack, newest last: the newest undone command applies to
      the current rows, and redoing each leads to the rows the one under it
      applies to. */
  ghost predicate RedoChain(before: seq<Table>, undone: seq<Command>, cur: Table, blank: Row)
    decreases |undone|
  {
    |before| == |undone| &&
    (undone != [] ==>
      var n := |undone| - 1;
      before[n] == cur && Applicable(cur, undone[n]) && Accepted(undone[n]) &&
      RedoChain(before[..n], undone[..n], Forward(cur, undone[n], blank), blank))
  }

  /** An accepted command done on the current rows extends the done stack. */
  lemma DoneChainPush(before: seq<Table>, done: seq<Command>, records: seq<UndoRecord>, cur: Table, blank: Row, c: Command)
    requires DoneChain(before, done, records, cur, blank) && Applicable(cur, c) && Accepted(c)
    ensures DoneChain(before + [cur], done + [c], records + [RecordOf(cur, c)], Forward(cur, c, blank), blank)
  {
    assert (before + [cur])[..|done|] == before;
    assert (done + [c])[..|done|] == done;
    assert (records + [RecordOf(cur, c)])[..|done|] == records;
  }

  /** A command undone from the current rows extends the redo stack with
      the rows it was done on. */
  lemma RedoChainPush(before: seq<Table>, undone: seq<Command>, cur: Table, blank: Row, t: Table, c: Command)
    requires RedoChain(before, undone, cur, blank) && Applicable(t, c) && Accepted(c) && Forward(t, c, blank) == cur
    ensures RedoChain(before + [t], undone + [c], t, blank)
  {
    assert (before + [t])[..|undone|] == before;
    assert (undone + [c])[..|undone|] == undone;
  }

  /** The command processor and the four undo stacks agree with the
      history of the rows: the done and redo stacks are chains as above,
      and each undo stack is the projection of the done commands' records
      on its kind. */
  ghost predicate Consistent(before: seq<Table>, done: seq<Command>, redoBefore: seq<Table>, undone: seq<Command>,
                             records: seq<UndoRecord>, appends: seq<nat>, deletes: seq<seq<(int, Row)>>,
                             sets: seq<seq<Write>>, pastes: seq<seq<Write>>, cur: Table, blank: Row)
  {
    DoneChain(before, done, records, cur, blank) && RedoChain(redoBefore, undone, cur, blank) &&
    StacksMatch(records, appends, deletes, sets, pastes)
  }

  /** Submit of an accepted command: it goes on the done stack, its record
      on its own undo stack, and the redo stack is emptied. */
  lemma ConsistentDo(before: seq<Table>, done: seq<Command>, redoBefore: seq<Table>, undone: seq<Command>,
                     records: seq<UndoRecord>, appends: seq<nat>, deletes: seq<seq<(int, Row)>>,
                     sets: seq<seq<Write>>, pastes: seq<seq<Write>>, cur: Table, blank: Row,
                     c: Command, appends': seq<nat>, deletes': seq<seq<(int, Row)>>,
                     sets': seq<seq<Write>>, pastes': seq<seq<Write>>)
    requires Consistent(before, done, redoBefore, undone, records, appends, deletes, sets, pastes, cur, blank)
    requires Applicable(cur, c) && Accepted(c)
    requires StacksMatch(records + [RecordOf(cur, c)], appends', deletes', sets', pastes')
    ensures Consistent(before + [cur], done + [c], [], [], records + [RecordOf(cur, c)],
                       appends', deletes', sets', pastes', Forward(cur, c, blank), blank)
  {
    DoneChainPush(before, done, records, cur, blank, c);
  }

  /** The newest done command's record is of its own kind, and reversing
      it on the current rows gives back the rows that command was done on. */
  lemma ConsistentUndoReady(before: seq<Table>, done: seq<Command>, redoBefore: seq<Table>, undone: seq<Command>,
                            records: seq<UndoRecord>, appends: seq<nat>, deletes: seq<seq<(int, Row)>>,
                            sets: seq<seq<Write>>, pastes: seq<seq<Write>>, cur: Table, blank: Row)
    requires Consistent(before, done, redoBefore, undone, records, appends, deletes, sets, pastes, cur, blank)
    requires done != []
    ensures var n := |done| - 1;
      |records| == |done| && RecordFor(done[n], records[n]) &&
      Reversible(cur, records[n]) && Reverse(cur, records[n]) == before[n]
  {
    var n := |done| - 1;
    UndoReverses(before[n], done[n], blank);
    RecordOfFor(before[n], done[n]);
  }

  /** Undo: the newest done command moves to the redo stack, its record
      leaves its undo stack, and the rows are those it was done on. */
  lemma ConsistentUndo(before: seq<Table>, done: seq<Command>, redoBefore: seq<Table>, undone: seq<Command>,
                       records: seq<UndoRecord>, appends: seq<nat>, deletes: seq<seq<(int, Row)>>,
                       sets: seq<seq<Write>>, pastes: seq<seq<Write>>, cur: Table, blank: Row,
                       appends': seq<nat>, deletes': seq<seq<(int, Row)>>,
                       sets': seq<seq<Write>>, pastes': seq<seq<Write>>)
    requires Consistent(before, done, redoBefore, undone, records, appends, deletes, sets, pastes, cur, blank)
    requires done != [] && |records| == |done|
    requires StacksMatch(records[..|done| - 1], appends', deletes', sets', pastes')
    ensures var n := |done| - 1;
      Consistent(before[..n], done[..n], redoBefore + [before[n]], undone + [done[n]], records[..n],
                 appends', deletes', sets', pastes', before[n], blank)
  {
    var n := |done| - 1;
    RedoChainPush(redoBefore, undone, cur, blank, before[n], done[n]);
  }

  /** The newest undone command applies to the current rows and was
      accepted when it was first done. */
  lemma ConsistentRedoReady(before: seq<Table>, done: seq<Command>, redoBefore: seq<Table>, undone: seq<Command>,
                            records: seq<UndoRecord>, appends: seq<nat>, deletes: seq<seq<(int, Row)>>,
                            sets: seq<seq<Write>>, pastes: seq<seq<Write>>, cur: Table, blank: Row)
    requires Consistent(before, done, redoBefore, undone, records, appends, deletes, sets, pastes, cur, blank)
    requires undone != []
    ensures Applicable(cur, undone[|undone| - 1]) && Accepted(undone[|undone| - 1])
  {
  }

  /** Redo: the newest undone command is done again and goes back on the
      done stack with a fresh record; the rest of the redo stack stays. */
  lemma ConsistentRedo(before: seq<Table>, done: seq<Command>, redoBefore: seq<Table>, undone: seq<Command>,
                       records: seq<UndoRecord>, appends: seq<nat>, deletes: seq<seq<(int, Row)>>,
                       sets: seq<seq<Write>>, pastes: seq<seq<Write>>, cur: Table, blank: Row,
                       appends': seq<nat>, deletes': seq<seq<(int, Row)>>,
                       sets': seq<seq<Write>>, pastes': seq<seq<Write>>)
    requires Consistent(before, done, redoBefore, undone, records, appends, deletes, sets, pastes, cur, blank)
    requires undone != [] && Applicable(cur, undone[|undone| - 1])
    requires StacksMatch(records + [RecordOf(cur, undone[|undone| - 1])], appends', deletes', sets', pastes')
    ensures var n, c := |undone| - 1, undone[|undone| - 1];
      Consistent(before + [cur], done + [c], redoBefore[..n], undone[..n], records + [RecordOf(cur, c)],
                 appends', deletes', sets', pastes', Forward(cur, c, blank), blank)
  {
    var c := undone[|undone| - 1];
    DoneChainPush(before, done, records, cur, blank, c);
  }

  /** Undoing the newest done command and redoing it gives back the rows
      the undo started from. */
  lemma UndoThenRedo(before: seq<Table>, done: seq<Command>, records: seq<UndoRecord>, cur: Table, blank: Row)
    requires DoneChain(before, done, records, cur, blank) && done != []
    ensures Forward(before[|done| - 1], done[|done| - 1], blank) == cur
  {
  }
}
