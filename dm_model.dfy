/** The discharge-measurement grid model of the test-series editor: one row
    per measurement, twenty named fields per row, edits recorded beside the
    loaded values, and the record ids of deleted measurements kept for the
    next save. */
module DMModels {
  import opened Outcomes
  import opened CellTypes
  import opened VecCellTypes
  import opened GridTable
  import opened PyList

  /** The column ids, which are also the keys of a row's field dicts. */
  datatype ColumnId =
    | SampleNumber | Diameter | Length | Weight | CoreDepth | RockType | E | Rotate | PartNumber | RTens
    | Sensitivity | TP1 | TP2 | PWSpeed | TR | RWSpeed | TS | SWSpeed | PuassonStatic | YungStatic

  /** The columns in the order of the columns dict: get_value_at's col
      indexes this list. */
  const Columns: seq<ColumnId> := [
    SampleNumber, Diameter, Length, Weight, CoreDepth, RockType, E, Rotate, PartNumber, RTens,
    Sensitivity, TP1, TP2, PWSpeed, TR, RWSpeed, TS, SWSpeed, PuassonStatic, YungStatic]

  /** A column's cell type: one of the grid's own, or a list of one. */
  datatype DMCellType = Plain(t: CellType) | Vec(v: VecType)

  function CellTypeOf(c: ColumnId): DMCellType
  {
    match c
    case SampleNumber => Plain(StringType(false))
    case Diameter => Plain(FloatType(1))
    case Length => Plain(FloatType(1))
    case Weight => Plain(NumberType)
    case CoreDepth => Plain(FloatType(2))
    case RockType => Plain(StringType(false))
    case E => Vec(VecType(NumberType))
    case Rotate => Plain(FloatType(2))
    case PartNumber => Plain(StringType(false))
    case RTens => Plain(FloatType(1))
    case Sensitivity => Plain(FloatType(2))
    case TP1 => Vec(VecType(FloatType(1)))
    case TP2 => Vec(VecType(FloatType(1)))
    case PWSpeed => Plain(NumberType)
    case TR => Vec(VecType(FloatType(2)))
    case RWSpeed => Plain(NumberType)
    case TS => Vec(VecType(NumberType))
    case SWSpeed => Plain(NumberType)
    case PuassonStatic => Plain(FloatType(2))
    case YungStatic => Plain(FloatType(2))
  }

  /** The columns that may be left empty: the wave measurements and the
      dynamic moduli. */
  predicate Optional(c: ColumnId)
  {
    c in {TP1, TP2, PWSpeed, TR, RWSpeed, TS, SWSpeed, PuassonStatic, YungStatic}
  }

  type Fields = map<ColumnId, string>

  /** A row's two dicts. A loaded row has its own fields and changed_fields;
      insert_row passes one dict as both, so a write through one is seen
      through the other. */
  datatype RowData = Separate(fields: Fields, changed: Fields) | Shared(values: Fields)

  /** A row: the database record id of a loaded measurement (None for an
      inserted row) and its field dicts. */
  datatype DMRow = DMRow(rid: Option<int>, data: RowData)

  predicate Complete(d: RowData)
  {
    match d
    case Separate(fields, _) => forall c: ColumnId :: c in fields
    case Shared(values) => forall c: ColumnId :: c in values
  }

  /** A field's current text: the edited value if there is one. */
  function Read(d: RowData, c: ColumnId): string
    requires Complete(d)
  {
    match d
    case Separate(fields, changed) => if c in changed then changed[c] else fields[c]
    case Shared(values) => values[c]
  }

  /** changed_fields[c] = v. */
  function WriteField(d: RowData, c: ColumnId, v: string): (r: RowData)
    requires Complete(d)
    ensures Complete(r)
  {
    match d
    case Separate(fields, changed) => Separate(fields, changed[c := v])
    case Shared(values) => Shared(values[c := v])
  }

  /** A non-empty changed_fields dict. */
  predicate HasEdits(d: RowData)
  {
    match d
    case Separate(_, changed) => changed != map[]
    case Shared(values) => values != map[]
  }

  /** The dict insert_row builds. */
  const Defaults: Fields := map[
    SampleNumber := "", Diameter := "0.0", Length := "0.0", Weight := "0", CoreDepth := "0.0",
    RockType := "", E := "0, 0, 0, 0", Rotate := "0.0", PartNumber := "", RTens := "0.0",
    Sensitivity := "0.0", TP1 := "", TP2 := "", PWSpeed := "", TR := "", RWSpeed := "",
    TS := "", SWSpeed := "", PuassonStatic := "", YungStatic := ""]

  /** The defaults name every column. */
  lemma DefaultsComplete()
    ensures forall c: ColumnId :: c in Defaults
  {
    forall c: ColumnId
      ensures c in Defaults
    {
      match c
      case SampleNumber =>
      case Diameter =>
      case Length =>
      case Weight =>
      case CoreDepth =>
      case RockType =>
      case E =>
      case Rotate =>
      case PartNumber =>
      case RTens =>
      case Sensitivity =>
      case TP1 =>
      case TP2 =>
      case PWSpeed =>
      case TR =>
      case RWSpeed =>
      case TS =>
      case SWSpeed =>
      case PuassonStatic =>
      case YungStatic =>
    }
  }

  /** The position of a column in the columns list. */
  function ColumnIndex(c: ColumnId): (k: nat)
    ensures k < |Columns| && Columns[k] == c
  {
    match c
    case SampleNumber => 0
    case Diameter => 1
    case Length => 2
    case Weight => 3
    case CoreDepth => 4
    case RockType => 5
    case E => 6
    case Rotate => 7
    case PartNumber => 8
    case RTens => 9
    case Sensitivity => 10
    case TP1 => 11
    case TP2 => 12
    case PWSpeed => 13
    case TR => 14
    case RWSpeed => 15
    case TS => 16
    case SWSpeed => 17
    case PuassonStatic => 18
    case YungStatic => 19
  }

  /** The columns list names every column exactly once. */
  lemma ColumnsDistinct()
    ensures forall k, l :: 0 <= k < |Columns| && 0 <= l < |Columns| && Columns[k] == Columns[l] ==> k == l
  {
    forall k | 0 <= k < |Columns|
      ensures ColumnIndex(Columns[k]) == k
    {
    }
  }

  /** The row insert_row adds: no record, the defaults as one shared dict. */
  function NewRow(): (r: DMRow)
    ensures r.rid.None? && Complete(r.data)
  {
    DefaultsComplete();
    DMRow(None, Shared(Defaults))
  }

  /** Every row has every field; record ids are unique among the rows and
      in the deleted list, and no row's id is in the deleted list. */
  ghost predicate WellFormed(rows: seq<DMRow>, deleted: seq<int>)
  {
    (forall i :: 0 <= i < |rows| ==> Complete(rows[i].data)) &&
    (forall i, j :: 0 <= i < j < |rows| && rows[i].rid.Some? ==> rows[i].rid != rows[j].rid) &&
    (forall x :: multiset(deleted)[x] <= 1) &&
    (forall i :: 0 <= i < |rows| && rows[i].rid.Some? ==> rows[i].rid.value !in deleted)
  }

  predicate AllComplete(rows: seq<DMRow>)
  {
    forall i :: 0 <= i < |rows| ==> Complete(rows[i].data)
  }

  // ------------------------------------------------------------ operations

  /** get_value_at(col, row); None where an index raises IndexError. */
  function ValueAt(rows: seq<DMRow>, col: int, row: int): Option<string>
    requires AllComplete(rows)
  {
    match PyIndex(col, |Columns|)
    case None => None
    case Some(k) =>
      match PyIndex(row, |rows|)
      case None => None
      case Some(r) => Some(Read(rows[r].data, Columns[k]))
  }

  /** The rows after set_value_at(col, row, value): an edit is recorded only
      when the value differs from the current one. */
  function SetValue(rows: seq<DMRow>, col: int, row: int, value: string): (r: Option<seq<DMRow>>)
    requires AllComplete(rows)
    ensures r.Some? ==> |r.value| == |rows| && AllComplete(r.value)
  {
    var k, i := PyIndex(col, |Columns|), PyIndex(row, |rows|);
    if k.None? || i.None? then None
    else
      var c, x := Columns[k.value], rows[i.value];
      if Read(x.data, c) == value then Some(rows)
      else Some(rows[i.value := DMRow(x.rid, WriteField(x.data, c, value))])
  }

  /** delete_row(row): a loaded row's id joins the deleted list. */
  function Delete(rows: seq<DMRow>, deleted: seq<int>, row: int): Option<(seq<DMRow>, seq<int>)>
  {
    match PyIndex(row, |rows|)
    case None => None
    case Some(i) =>
      var rid := rows[i].rid;
      Some((DeleteAt(rows, i), if rid.Some? then deleted + [rid.value] else deleted))
  }

  /** restore_row(row, state): a loaded row's id leaves the deleted list
      (ValueError, nothing changed, when it is not there), then the row is
      inserted. */
  function Restore(rows: seq<DMRow>, deleted: seq<int>, row: int, state: DMRow): Option<(seq<DMRow>, seq<int>)>
  {
    if state.rid.Some? && state.rid.value !in deleted then None
    else Some((InsertAt(rows, row, state), if state.rid.Some? then RemoveFirst(deleted, state.rid.value) else deleted))
  }

  /** have_changes: some row has edits, or some loaded row was deleted. */
  predicate HasChanges(rows: seq<DMRow>, deleted: seq<int>)
  {
    (exists i :: 0 <= i < |rows| && HasEdits(rows[i].data)) || |deleted| > 0
  }

  // ---------------------------------------------------------------- lemmas

  /** Deleting a row and restoring its state at the same index gives back
      the rows and the deleted list. */
  lemma DeleteRestoreRoundTrip(rows: seq<DMRow>, deleted: seq<int>, i: int)
    requires WellFormed(rows, deleted) && 0 <= i < |rows|
    ensures Delete(rows, deleted, i).Some?
    ensures var (rows', deleted') := Delete(rows, deleted, i).value;
      Restore(rows', deleted', i, rows[i]) == Some((rows, deleted))
  {
    var rid := rows[i].rid;
    if rid.Some? {
      assert rid.value in deleted + [rid.value];
      RemoveAppended(deleted, rid.value);
    }
    InsertDeleted(rows, i);
  }

  /** Deleting keeps the model well formed. */
  lemma DeletePreserves(rows: seq<DMRow>, deleted: seq<int>, row: int)
    requires WellFormed(rows, deleted) && Delete(rows, deleted, row).Some?
    ensures var (rows', deleted') := Delete(rows, deleted, row).value; WellFormed(rows', deleted')
  {
    var i := PyIndex(row, |rows|).value;
    var (rows', deleted') := Delete(rows, deleted, row).value;
    assert rows' == DeleteAt(rows, i);
    forall a, b | 0 <= a < b < |rows'| && rows'[a].rid.Some?
      ensures rows'[a].rid != rows'[b].rid
    {
      var a0 := if a < i then a else a + 1;
      var b0 := if b < i then b else b + 1;
      assert rows'[a] == rows[a0] && rows'[b] == rows[b0];
    }
    var rid := rows[i].rid;
    if rid.Some? {
      assert multiset(deleted)[rid.value] == 0;
      forall a | 0 <= a < |rows'| && rows'[a].rid.Some?
        ensures rows'[a].rid.value !in deleted'
      {
        var a0 := if a < i then a else a + 1;
        assert rows'[a] == rows[a0];
        assert a0 != i;
        if a0 < i {
          assert rows[a0].rid != rows[i].rid;
        } else {
          assert rows[i].rid != rows[a0].rid;
        }
      }
    }
  }

  /** Restoring a complete row keeps the model well formed. */
  lemma RestorePreserves(rows: seq<DMRow>, deleted: seq<int>, row: int, state: DMRow)
    requires WellFormed(rows, deleted) && Complete(state.data) && Restore(rows, deleted, row, state).Some?
    ensures var (rows', deleted') := Restore(rows, deleted, row, state).value; WellFormed(rows', deleted')
  {
    var (rows', deleted') := Restore(rows, deleted, row, state).value;
    if state.rid.Some? {
      RemoveUnique(deleted, state.rid.value);
    }
    forall a, b | 0 <= a < b < |rows'| && rows'[a].rid.Some?
      ensures rows'[a].rid != rows'[b].rid
    {
      RestoredPair(rows, deleted, row, state, a, b);
    }
    forall a | 0 <= a < |rows'|
      ensures Complete(rows'[a].data) && (rows'[a].rid.Some? ==> rows'[a].rid.value !in deleted')
    {
      RestoredRow(rows, deleted, deleted', row, state, a);
    }
  }

  /** Removing an id held once from the deleted list leaves a list that no
      longer holds it, holds nothing new and still holds each id at most once. */
  lemma RemoveUnique(deleted: seq<int>, x: int)
    requires x in deleted && forall y :: multiset(deleted)[y] <= 1
    ensures x !in RemoveFirst(deleted, x)
    ensures forall y :: y in RemoveFirst(deleted, x) ==> y in deleted
    ensures forall y :: multiset(RemoveFirst(deleted, x))[y] <= 1
  {
    var r := RemoveFirst(deleted, x);
    assert multiset(deleted)[x] == 1;
    assert multiset(r)[x] == 0;
    forall y | y in r
      ensures y in deleted
    {
      assert multiset(r)[y] > 0;
    }
  }

  /** A row of the restored list is complete and not in the new deleted
      list d', which holds the restored id no longer and nothing new. */
  lemma RestoredRow(rows: seq<DMRow>, deleted: seq<int>, d': seq<int>, row: int, state: DMRow, a: int)
    requires WellFormed(rows, deleted) && Complete(state.data)
    requires state.rid.Some? ==> state.rid.value !in d'
    requires forall y :: y in d' ==> y in deleted
    requires 0 <= a < |InsertAt(rows, row, state)|
    ensures var r := InsertAt(rows, row, state)[a];
      Complete(r.data) && (r.rid.Some? ==> r.rid.value !in d')
  {
    var rows' := InsertAt(rows, row, state);
    var p := InsertPos(|rows|, row);
    if a != p {
      var src := if a < p then a else a - 1;
      assert rows'[a] == rows[src];
      assert Complete(rows[src].data);
      if rows[src].rid.Some? {
        assert rows[src].rid.value !in deleted;
        var y := rows[src].rid.value;
        assert y in d' ==> y in deleted;
      }
      assert Complete(rows'[a].data);
    } else {
      assert rows'[a] == state;
    }
  }

  /** Two rows of the restored list have different record ids. */
  lemma RestoredPair(rows: seq<DMRow>, deleted: seq<int>, row: int, state: DMRow, a: int, b: int)
    requires WellFormed(rows, deleted) && Restore(rows, deleted, row, state).Some?
    requires var rows' := InsertAt(rows, row, state); 0 <= a < b < |rows'| && rows'[a].rid.Some?
    ensures var rows' := InsertAt(rows, row, state); rows'[a].rid != rows'[b].rid
  {
    var rows' := InsertAt(rows, row, state);
    var p := InsertPos(|rows|, row);
    if a == p {
      assert rows'[b] == rows[b - 1];
    } else if b == p {
      assert rows'[a] == rows[a];
    } else {
      var a0 := if a < p then a else a - 1;
      var b0 := if b < p then b else b - 1;
      assert rows'[a] == rows[a0] && rows'[b] == rows[b0];
    }
  }

  /** Inserting a blank row keeps the model well formed. */
  lemma InsertPreserves(rows: seq<DMRow>, deleted: seq<int>, row: int)
    requires WellFormed(rows, deleted)
    ensures WellFormed(InsertAt(rows, row, NewRow()), deleted)
  {
    var rows' := InsertAt(rows, row, NewRow());
    var p := InsertPos(|rows|, row);
    forall a, b | 0 <= a < b < |rows'| && rows'[a].rid.Some?
      ensures rows'[a].rid != rows'[b].rid
    {
      if b == p {
      } else {
        var a0 := if a < p then a else a - 1;
        var b0 := if b < p then b else b - 1;
        assert rows'[a] == rows[a0] && rows'[b] == rows[b0];
      }
    }
  }

  /** Setting a value keeps the model well formed. */
  lemma SetPreserves(rows: seq<DMRow>, deleted: seq<int>, col: int, row: int, value: string)
    requires WellFormed(rows, deleted) && SetValue(rows, col, row, value).Some?
    ensures WellFormed(SetValue(rows, col, row, value).value, deleted)
  {
    var rows' := SetValue(rows, col, row, value).value;
    assert forall a :: 0 <= a < |rows| ==> rows'[a].rid == rows[a].rid;
  }

  /** After set_value_at the cell reads the value set. */
  lemma SetThenGet(rows: seq<DMRow>, col: int, row: int, value: string)
    requires AllComplete(rows) && SetValue(rows, col, row, value).Some?
    ensures ValueAt(SetValue(rows, col, row, value).value, col, row) == Some(value)
  {
  }

  /** set_value_at changes no other cell. */
  lemma SetKeepsOthers(rows: seq<DMRow>, col: int, row: int, value: string, col2: int, row2: int)
    requires AllComplete(rows) && 0 <= col < |Columns| && 0 <= row < |rows|
    requires 0 <= col2 < |Columns| && 0 <= row2 < |rows| && (col2, row2) != (col, row)
    ensures ValueAt(SetValue(rows, col, row, value).value, col2, row2) == ValueAt(rows, col2, row2)
  {
    ColumnsDistinct();
  }

  /** Setting the value a cell already shows records nothing. */
  lemma SetSameValue(rows: seq<DMRow>, col: int, row: int, value: string)
    requires AllComplete(rows) && ValueAt(rows, col, row) == Some(value)
    ensures SetValue(rows, col, row, value) == Some(rows)
  {
  }

  /** A recorded edit is a change to save. */
  lemma SetRecordsChange(rows: seq<DMRow>, deleted: seq<int>, col: int, row: int, value: string)
    requires AllComplete(rows) && SetValue(rows, col, row, value).Some?
    requires SetValue(rows, col, row, value).value != rows
    ensures HasChanges(SetValue(rows, col, row, value).value, deleted)
  {
    var i := PyIndex(row, |rows|).value;
    var rows' := SetValue(rows, col, row, value).value;
    assert HasEdits(rows'[i].data) by {
      var c := Columns[PyIndex(col, |Columns|).value];
      match rows[i].data
      case Separate(_, changed) => assert c in changed[c := value];
      case Shared(values) => assert c in values[c := value];
    }
  }

  /** An inserted row is a change even before it is edited, because its
      shared dict doubles as its changed_fields. */
  lemma InsertIsChange(rows: seq<DMRow>, deleted: seq<int>, row: int)
    ensures HasChanges(InsertAt(rows, row, NewRow()), deleted)
  {
    var rows' := InsertAt(rows, row, NewRow());
    var p := InsertPos(|rows|, row);
    assert SampleNumber in Defaults;
    assert HasEdits(rows'[p].data);
  }

  /** An inserted row reads the defaults. */
  lemma InsertedDefaults(rows: seq<DMRow>, row: int, col: int)
    requires AllComplete(rows) && 0 <= col < |Columns|
    ensures AllComplete(InsertAt(rows, row, NewRow()))
    ensures ValueAt(InsertAt(rows, row, NewRow()), col, InsertPos(|rows|, row)) == Some(Defaults[Columns[col]])
  {
    var rows' := InsertAt(rows, row, NewRow());
    var p := InsertPos(|rows|, row);
    forall a | 0 <= a < |rows'|
      ensures Complete(rows'[a].data)
    {
      if a < p {
        assert rows'[a] == rows[a];
      } else if a > p {
        assert rows'[a] == rows[a - 1];
      }
    }
  }

  // ------------------------------------------------------------ validation

  datatype ErrorKind = EmptyValue | WrongType | DuplicateSample

  /** One entry of validate's list: the column, the row index and why. */
  datatype ValidationError = ValidationError(col: ColumnId, row: nat, kind: ErrorKind)

  /** test_repr of the column's cell type. */
  predicate Passes(c: ColumnId, value: string)
  {
    match CellTypeOf(c)
    case Plain(t) => TestRepr(t, value)
    case Vec(v) => AllItemsPass(v, value)
  }

  /** The error validate reports for one cell: an empty value in a required
      column, or a non-empty value the column's test refuses. The test is a
      parameter, which validate fills with Passes. */
  function CellError(test: (ColumnId, string) -> bool, c: ColumnId, row: nat, value: string): Option<ValidationError>
  {
    if |value| == 0 then (if Optional(c) then None else Some(ValidationError(c, row, EmptyValue)))
    else if test(c, value) then None
    else Some(ValidationError(c, row, WrongType))
  }

  function Listed(e: Option<ValidationError>): seq<ValidationError>
  {
    if e.Some? then [e.value] else []
  }

  /** The cell errors of the first n rows in column c, in row order. */
  function ColumnErrors(test: (ColumnId, string) -> bool, rows: seq<DMRow>, c: ColumnId, n: nat): seq<ValidationError>
    requires AllComplete(rows) && n <= |rows|
  {
    if n == 0 then []
    else ColumnErrors(test, rows, c, n - 1) + Listed(CellError(test, c, n - 1, Read(rows[n - 1].data, c)))
  }

  /** The cell errors of the first k columns, column after column. */
  function CellErrors(test: (ColumnId, string) -> bool, rows: seq<DMRow>, k: nat): seq<ValidationError>
    requires AllComplete(rows) && k <= |Columns|
  {
    if k == 0 then []
    else CellErrors(test, rows, k - 1) + ColumnErrors(test, rows, Columns[k - 1], |rows|)
  }

  /** The sample numbers of the rows, in row order. */
  function Samples(rows: seq<DMRow>): (s: seq<string>)
    requires AllComplete(rows)
    ensures |s| == |rows| && forall i :: 0 <= i < |rows| ==> s[i] == Read(rows[i].data, SampleNumber)
  {
    if rows == [] then []
    else Samples(rows[..|rows| - 1]) + [Read(rows[|rows| - 1].data, SampleNumber)]
  }

  /** Row i holds the first occurrence of a non-empty sample number that a
      later row repeats. */
  predicate FirstOfDuplicate(s: seq<string>, i: nat)
    requires i < |s|
  {
    s[i] != "" && s[i] !in s[..i] && s[i] in s[i + 1..]
  }

  /** The duplicate errors among the first n rows, in row order: one at the
      first row of each repeated sample number. */
  function DuplicateErrors(s: seq<string>, n: nat): seq<ValidationError>
    requires n <= |s|
  {
    if n == 0 then []
    else
      var here := if FirstOfDuplicate(s, n - 1) then [ValidationError(SampleNumber, n - 1, DuplicateSample)] else [];
      DuplicateErrors(s, n - 1) + here
  }

  /** validate's whole list: the cell errors, then the duplicate errors. */
  function ValidationErrors(rows: seq<DMRow>): seq<ValidationError>
    requires AllComplete(rows)
  {
    CellErrors(Passes, rows, |Columns|) + DuplicateErrors(Samples(rows), |rows|)
  }

  /** The keys of the duplicates dict after n rows: the non-empty sample
      numbers in the order they first appear. */
  function FirstValues(s: seq<string>, n: nat): seq<string>
    requires n <= |s|
  {
    if n == 0 then []
    else FirstValues(s, n - 1) + (if s[n - 1] != "" && s[n - 1] !in s[..n - 1] then [s[n - 1]] else [])
  }

  /** duplicates[v] after n rows: the indices of the rows holding v. */
  function Indices(s: seq<string>, n: nat, v: string): seq<nat>
    requires n <= |s|
  {
    if n == 0 then []
    else Indices(s, n - 1, v) + (if s[n - 1] == v then [n - 1] else [])
  }

  /** The errors the loop over the dict's values adds for the given keys. */
  function KeyErrors(s: seq<string>, keys: seq<string>): seq<ValidationError>
  {
    if keys == [] then []
    else
      var ix := Indices(s, |s|, keys[|keys| - 1]);
      var last := if |ix| > 1 then [ValidationError(SampleNumber, ix[0], DuplicateSample)] else [];
      KeyErrors(s, keys[..|keys| - 1]) + last
  }

  lemma {:induction false} FirstValuesMembers(s: seq<string>, n: nat, v: string)
    requires n <= |s|
    ensures v in FirstValues(s, n) <==> v != "" && v in s[..n]
  {
    if n > 0 {
      FirstValuesMembers(s, n - 1, v);
      assert s[..n] == s[..n - 1] + [s[n - 1]];
    }
  }

  lemma {:induction false} IndicesAbsent(s: seq<string>, n: nat, v: string)
    requires n <= |s| && v !in s[..n]
    ensures Indices(s, n, v) == []
  {
    if n > 0 {
      assert s[..n] == s[..n - 1] + [s[n - 1]];
      IndicesAbsent(s, n - 1, v);
    }
  }

  /** For the first row i holding v, the dict's list for v starts at i and
      has a second entry exactly when a later row holds v. */
  lemma {:induction false} IndicesFrom(s: seq<string>, n: nat, v: string, i: nat)
    requires i < n <= |s| && s[i] == v && v !in s[..i]
    ensures |Indices(s, n, v)| >= 1 && Indices(s, n, v)[0] == i
    ensures |Indices(s, n, v)| > 1 <==> v in s[i + 1..n]
  {
    if n == i + 1 {
      IndicesAbsent(s, i, v);
    } else {
      IndicesFrom(s, n - 1, v, i);
      assert s[i + 1..n] == s[i + 1..n - 1] + [s[n - 1]];
    }
  }

  /** One row of the dict-building loop, from keys and dup to keys' and
      dup', keeps the keys in first-appearance order and each list the
      indices of its sample number. */
  lemma DictStep(s: seq<string>, index: nat, keys: seq<string>, dup: map<string, seq<nat>>,
                 keys': seq<string>, dup': map<string, seq<nat>>)
    requires index < |s| && keys == FirstValues(s, index)
    requires forall w :: w in dup <==> w in keys
    requires forall w :: w in dup ==> dup[w] == Indices(s, index, w)
    requires s[index] == "" ==> keys' == keys && dup' == dup
    requires s[index] != "" ==>
      keys' == (if s[index] in dup then keys else keys + [s[index]]) &&
      s[index] in dup' && dup'[s[index]] == (if s[index] in dup then dup[s[index]] else []) + [index] &&
      forall w :: w != s[index] ==> (w in dup' <==> w in dup) && (w in dup ==> dup'[w] == dup[w])
    ensures keys' == FirstValues(s, index + 1)
    ensures forall w :: w in dup' <==> w in keys'
    ensures forall w :: w in dup' ==> dup'[w] == Indices(s, index + 1, w)
  {
    var v := s[index];
    FirstValuesMembers(s, index, v);
    assert s[..index + 1] == s[..index] + [v];
    if v != "" && v !in dup {
      IndicesAbsent(s, index, v);
    }
  }

  /** One more key of the loop over the dict's values. */
  lemma KeyErrorsNext(s: seq<string>, keys: seq<string>, j: nat)
    requires j < |keys|
    ensures var ix := Indices(s, |s|, keys[j]);
      KeyErrors(s, keys[..j + 1]) ==
        KeyErrors(s, keys[..j]) + if |ix| > 1 then [ValidationError(SampleNumber, ix[0], DuplicateSample)] else []
  {
    assert keys[..j + 1][..j] == keys[..j];
  }

  /** The dict walk reports the same errors as the row-order definition. */
  lemma {:induction false} KeysMatch(s: seq<string>, n: nat)
    requires n <= |s|
    ensures KeyErrors(s, FirstValues(s, n)) == DuplicateErrors(s, n)
  {
    if n > 0 {
      KeysMatch(s, n - 1);
      KeysStep(s, n);
    }
  }

  /** Row n - 1 adds the same entry, if any, to both lists. */
  lemma KeysStep(s: seq<string>, n: nat)
    requires 0 < n <= |s|
    ensures var here := if FirstOfDuplicate(s, n - 1) then [ValidationError(SampleNumber, n - 1, DuplicateSample)] else [];
      DuplicateErrors(s, n) == DuplicateErrors(s, n - 1) + here &&
      KeyErrors(s, FirstValues(s, n)) == KeyErrors(s, FirstValues(s, n - 1)) + here
  {
    var v := s[n - 1];
    if v != "" && v !in s[..n - 1] {
      var keys := FirstValues(s, n);
      assert keys[..|keys| - 1] == FirstValues(s, n - 1);
      IndicesFrom(s, |s|, v, n - 1);
      assert s[n..|s|] == s[n..];
    } else {
      assert FirstValues(s, n) == FirstValues(s, n - 1);
    }
  }

  /** A duplicate error is reported exactly at the first row of a repeated
      non-empty sample number. */
  lemma {:induction false} DuplicateErrorsMembers(s: seq<string>, n: nat, e: ValidationError)
    requires n <= |s|
    ensures e in DuplicateErrors(s, n) <==>
      e.col == SampleNumber && e.kind == DuplicateSample && e.row < n && FirstOfDuplicate(s, e.row)
  {
    if n > 0 {
      DuplicateErrorsMembers(s, n - 1, e);
    }
  }

  /** Some row repeats an earlier non-empty sample number exactly when
      validate reports a duplicate. */
  lemma UniqueSamples(s: seq<string>)
    ensures DuplicateErrors(s, |s|) == [] <==>
      forall i, j :: 0 <= i < j < |s| && s[i] != "" ==> s[i] != s[j]
  {
    if DuplicateErrors(s, |s|) != [] {
      var e := DuplicateErrors(s, |s|)[0];
      DuplicateErrorsMembers(s, |s|, e);
      var later := s[e.row + 1..];
      var m :| 0 <= m < |later| && later[m] == s[e.row];
      var k := e.row + 1 + m;
      assert 0 <= e.row < k < |s| && s[e.row] != "" && s[e.row] == s[k];
    }
    forall i, j | 0 <= i < j < |s| && s[i] != "" && s[i] == s[j]
      ensures DuplicateErrors(s, |s|) != []
    {
      var f := FirstRepeated(s, i, j);
      DuplicateErrorsMembers(s, |s|, ValidationError(SampleNumber, f, DuplicateSample));
    }
  }

  /** A repeated value has a first occurrence, which a later row repeats. */
  lemma {:induction false} FirstRepeated(s: seq<string>, i: nat, j: nat) returns (f: nat)
    requires i < j < |s| && s[i] != "" && s[i] == s[j]
    ensures f <= i && s[f] == s[i] && FirstOfDuplicate(s, f)
    decreases i
  {
    if s[i] in s[..i] {
      var i' :| 0 <= i' < i && s[..i][i'] == s[i];
      f := FirstRepeated(s, i', j);
    } else {
      assert s[j] == s[i + 1..][j - i - 1];
      f := i;
    }
  }

  /** Over the first k columns, a cell error is reported exactly for a cell
      that is empty in a required column or that the column's test refuses;
      validate takes all the columns and Passes as the test. */
  lemma {:induction false} CellErrorsMembers(test: (ColumnId, string) -> bool, rows: seq<DMRow>, k: nat, e: ValidationError)
    requires AllComplete(rows) && k <= |Columns|
    ensures e in CellErrors(test, rows, k) <==>
      e.col in Columns[..k] && e.row < |rows| &&
      var v := Read(rows[e.row].data, e.col);
      (e.kind == EmptyValue && v == "" && !Optional(e.col)) ||
      (e.kind == WrongType && v != "" && !test(e.col, v))
  {
    if k > 0 {
      CellErrorsMembers(test, rows, k - 1, e);
      ColumnErrorsUpTo(test, rows, Columns[k - 1], |rows|, e);
      assert Columns[..k] == Columns[..k - 1] + [Columns[k - 1]];
    }
  }

  lemma {:induction false} ColumnErrorsUpTo(test: (ColumnId, string) -> bool, rows: seq<DMRow>, c: ColumnId, n: nat, e: ValidationError)
    requires AllComplete(rows) && n <= |rows|
    ensures e in ColumnErrors(test, rows, c, n) <==>
      e.col == c && e.row < n && CellError(test, c, e.row, Read(rows[e.row].data, c)) == Some(e)
  {
    if n > 0 {
      ColumnErrorsUpTo(test, rows, c, n - 1, e);
      var last := CellError(test, c, n - 1, Read(rows[n - 1].data, c));
      assert last.Some? ==> last.value.col == c && last.value.row == n - 1;
      assert e in Listed(last) <==> last == Some(e);
    }
  }

  // ------------------------------------------------------------ the model

  class DMModel {
    var rows: seq<DMRow>
    /** The record ids of deleted loaded rows, for the next save. */
    var deleted: seq<int>

    ghost predicate Valid()
      reads this
    {
      WellFormed(rows, deleted)
    }

    /** The rows load builds from the database, passed in. */
    constructor (loaded: seq<DMRow>)
      requires WellFormed(loaded, [])
      ensures rows == loaded && deleted == [] && Valid()
    {
      rows := loaded;
      deleted := [];
    }

    /** get_row_state(row): the row object itself; None for IndexError. */
    method GetRowState(row: int) returns (state: Option<DMRow>)
      ensures state.Some? <==> PyIndex(row, |rows|).Some?
      ensures state.Some? ==> state.value == rows[PyIndex(row, |rows|).value]
    {
      match PyIndex(row, |rows|)
      case None => state := None;
      case Some(i) => state := Some(rows[i]);
    }

    method GetValueAt(col: int, row: int) returns (v: Option<string>)
      requires Valid()
      ensures v == ValueAt(rows, col, row)
    {
      var k := PyIndex(col, |Columns|);
      var i := PyIndex(row, |rows|);
      if k.None? || i.None? {
        return None;
      }
      var c := Columns[k.value];
      match rows[i.value].data
      case Separate(fields, changed) => v := Some(if c in changed then changed[c] else fields[c]);
      case Shared(values) => v := Some(values[c]);
    }

    /** set_value_at: false where an index raises IndexError. */
    method SetValueAt(col: int, row: int, value: string) returns (ok: bool)
      requires Valid()
      modifies this`rows
      ensures ok == SetValue(old(rows), col, row, value).Some?
      ensures rows == if ok then SetValue(old(rows), col, row, value).value else old(rows)
      ensures Valid()
    {
      var current := GetValueAt(col, row);
      if current.None? {
        return false;
      }
      if current.value != value {
        var k, i := PyIndex(col, |Columns|).value, PyIndex(row, |rows|).value;
        var x := rows[i];
        rows := rows[i := DMRow(x.rid, WriteField(x.data, Columns[k], value))];
      }
      SetPreserves(old(rows), deleted, col, row, value);
      return true;
    }

    method InsertRow(row: int)
      requires Valid()
      modifies this`rows
      ensures rows == InsertAt(old(rows), row, NewRow()) && Valid()
    {
      InsertPreserves(rows, deleted, row);
      rows := InsertAt(rows, row, NewRow());
    }

    /** delete_row: false where the index raises IndexError. */
    method DeleteRow(row: int) returns (ok: bool)
      requires Valid()
      modifies this
      ensures ok == Delete(old(rows), old(deleted), row).Some?
      ensures (rows, deleted) == if ok then Delete(old(rows), old(deleted), row).value else (old(rows), old(deleted))
      ensures Valid()
    {
      var i := PyIndex(row, |rows|);
      if i.None? {
        return false;
      }
      DeletePreserves(rows, deleted, row);
      var rid := rows[i.value].rid;
      if rid.Some? {
        deleted := deleted + [rid.value];
      }
      rows := DeleteAt(rows, i.value);
      return true;
    }

    /** restore_row: false where remove raises ValueError. */
    method RestoreRow(row: int, state: DMRow) returns (ok: bool)
      requires Valid() && Complete(state.data)
      modifies this
      ensures ok == Restore(old(rows), old(deleted), row, state).Some?
      ensures (rows, deleted) == if ok then Restore(old(rows), old(deleted), row, state).value else (old(rows), old(deleted))
      ensures Valid()
    {
      if state.rid.Some? {
        if state.rid.value !in deleted {
          return false;
        }
        deleted := RemoveFirst(deleted, state.rid.value);
      }
      RestorePreserves(old(rows), old(deleted), row, state);
      rows := InsertAt(rows, row, state);
      return true;
    }

    method TotalRows() returns (n: nat)
      ensures n == |rows|
    {
      n := |rows|;
    }

    /** have_changes: the first row with edits answers; otherwise any
        deleted record. */
    method HaveChanges() returns (b: bool)
      ensures b == HasChanges(rows, deleted)
    {
      var i := 0;
      while i < |rows|
        invariant 0 <= i <= |rows|
        invariant forall j :: 0 <= j < i ==> !HasEdits(rows[j].data)
      {
        if HasEdits(rows[i].data) {
          return true;
        }
        i := i + 1;
      }
      return |deleted| > 0;
    }

    /** validate: the cell errors column by column, then one duplicate
        error per repeated sample number. */
    method Validate() returns (errors: seq<ValidationError>)
      requires Valid()
      ensures errors == ValidationErrors(rows)
    {
      errors := ListCellErrors(Passes, rows);
      var duplicates := ListDuplicates(rows);
      errors := errors + duplicates;
    }
  }

  /** validate's loop over the columns, with each column's cell type's
      test_repr as test. */
  method ListCellErrors(test: (ColumnId, string) -> bool, rows: seq<DMRow>) returns (errors: seq<ValidationError>)
    requires AllComplete(rows)
    ensures errors == CellErrors(test, rows, |Columns|)
  {
    errors := [];
    var k := 0;
    while k < |Columns|
      invariant 0 <= k <= |Columns|
      invariant errors == CellErrors(test, rows, k)
    {
      var columnErrors := ListColumnErrors(test, rows, Columns[k]);
      errors := errors + columnErrors;
      k := k + 1;
    }
  }

  /** validate's loop over the rows for one column. */
  method ListColumnErrors(test: (ColumnId, string) -> bool, rows: seq<DMRow>, c: ColumnId) returns (errors: seq<ValidationError>)
    requires AllComplete(rows)
    ensures errors == ColumnErrors(test, rows, c, |rows|)
  {
    errors := [];
    var i := 0;
    while i < |rows|
      invariant 0 <= i <= |rows|
      invariant errors == ColumnErrors(test, rows, c, i)
    {
      var value := Read(rows[i].data, c);
      if |value| == 0 {
        if !Optional(c) {
          errors := errors + [ValidationError(c, i, EmptyValue)];
        }
      } else if !test(c, value) {
        errors := errors + [ValidationError(c, i, WrongType)];
      }
      i := i + 1;
    }
  }

  /** validate's duplicate check: a dict from sample number to the indices
      of its rows, kept in insertion order, then one error per entry with
      more than one index. */
  method ListDuplicates(rows: seq<DMRow>) returns (errors: seq<ValidationError>)
    requires AllComplete(rows)
    ensures errors == DuplicateErrors(Samples(rows), |rows|)
  {
    ghost var s := Samples(rows);
    var keys: seq<string> := [];
    var duplicates: map<string, seq<nat>> := map[];
    var index := 0;
    while index < |rows|
      invariant 0 <= index <= |rows|
      invariant keys == FirstValues(s, index)
      invariant forall v :: v in duplicates <==> v in keys
      invariant forall v :: v in duplicates ==> duplicates[v] == Indices(s, index, v)
    {
      var v := Read(rows[index].data, SampleNumber);
      assert v == s[index];
      ghost var keys0, duplicates0 := keys, duplicates;
      if |v| != 0 {
        if v !in duplicates {
          keys := keys + [v];
          duplicates := duplicates[v := []];
        }
        duplicates := duplicates[v := duplicates[v] + [index]];
      }
      DictStep(s, index, keys0, duplicates0, keys, duplicates);
      index := index + 1;
    }
    assert forall w :: w in duplicates ==> duplicates[w] == Indices(s, |s|, w);
    errors := [];
    var j := 0;
    while j < |keys|
      invariant 0 <= j <= |keys|
      invariant errors == KeyErrors(s, keys[..j])
    {
      var indexes := duplicates[keys[j]];
      KeyErrorsNext(s, keys, j);
      if |indexes| > 1 {
        errors := errors + [ValidationError(SampleNumber, indexes[0], DuplicateSample)];
      }
      j := j + 1;
    }
    assert keys[..j] == keys;
    KeysMatch(s, |s|);
  }
}
