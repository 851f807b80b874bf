# geomech2 spreadsheet engine, in Dafny

This project models the table-editing core of geomech2, a desktop application for
geomechanical survey data. Every table screen of the application is a `GridEditor`
over a host `Model`. The model covers:

- **Cell types.** `StringCellType`, `FloatCellType` and `NumberCellType`: test, parse
  and print a cell's text. `Column` equality is by id.
- **Reversible commands.** Append rows, delete rows, set a value into many cells, and
  paste a table. The editor backs them with four LIFO undo stacks and an undo/redo
  command history.
- **Clipboard shape rules.** Copy, cut, paste and "remove values" over a cursor and a
  list of selected blocks. The clipboard is already parsed into rows of strings.
- **Grid editor state.** Re-rendering keeps column widths by column id and clamps the
  cursor. The editor also computes the enable flags, runs the row-major search and
  maps validation errors to highlighted cells.
- **Host models.** The plain list-backed model the editor runs over, and
  `ResultsTableModel` of the script console: an append-only table whose lookups never
  fail. Also `DMModel` of the discharge-measurement test-series editor:
  - a committed field dict with a pending-edits overlay;
  - soft-deleted record ids;
  - the `VecCellType` list cell type;
  - `validate`: empty values, wrong types and duplicate sample numbers.
- **Dates.** The integer date codec (`YYYYMMDDhhmmss`) and the `dd.mm.yyyy` display
  format.
- **File names.** The file-name sanitiser used for downloads.

Layout, one module per file:

| module | file | models |
|---|---|---|
| `Outcomes` | outcomes.dfy | `Option`, `Result` |
| `Doubles` | doubles.dfy | `int(float(v))` for a non-negative rational v: round to the nearest IEEE 754 binary64 double, ties to even, then truncate |
| `Text` | text.dfy | Python `str.strip`, `str(int)`, `int(str)`, the decimal literal grammar, `int(float(s))`, `zfill` |
| `PyList` | pylist.dfy | Python `list.insert`, `del`, `list.remove`; delete-by-positions with a running offset, and its undo |
| `CellTypes` | cell_types.dfy | the three cell types and `Column` |
| `GridTable` | grid_table.dfy | a table of cell strings with Python index reads, and write lists for set-value and paste |
| `Commands` | commands.dfy | the four commands, their undo records and the undo/redo history invariant |
| `HostModels` | host_model.dfy | the list-backed host `Model` |
| `ModelEdits` | model_edits.dfy | the editor's loops that drive the host model |
| `Clipboard` | clipboard.dfy | copy, and the paste and remove-values planning |
| `GridView` | grid_view.dfy | the enable flags, column sizes, cursor clamping, highlights and search |
| `GridEditors` | grid_editor.dfy | the wx grid as a class, and `GridEditor` |
| `VecCellTypes` | vec_cell_type.dfy | `VecCellType` |
| `DMModels` | dm_model.dfy | `DMModel` |
| `ResultsTables` | results_table.dfy | `ResultsTableModel` and `ResultsTable.clear` |
| `CustomDatetime` | custom_datetime.dfy | the `date`/`datetime` subclasses and their `__str__` |
| `DatetimeUtil` | datetime_util.dfy | `encode_date`, `encode_datetime`, `decode_date`, `decode_datetime` |
| `Sanitize` | sanitize.dfy | `sanitize_filename` |

Python exceptions become `Result`/`Option` values or boolean out-parameters:
- `IndexError` from a list index;
- `ValueError` from `list.remove`, `int()` or `float()`;
- `OverflowError` from `int()` of an infinite float;
- `RuntimeError` from copy and paste.

Python's negative list indices are modelled (`GridTable.PyIndex`). So are
`list.insert` clamping (`PyList.InsertPos`) and the in-place dict aliasing of
`insert_row` (`DMModels.RowData.Shared`).

## Model

| member | source | states |
|---|---|---|
| CellTypes.TestRepr | src/ui/grid/grid.py:87-195 | only the String type accepts a blank text; the Float and Number tests refuse every all-whitespace string |
| CellTypes.ToString | src/ui/grid/grid.py:95-205 | a Number cell never prints as the empty string (None prints as "0"); a String cell prints as "" exactly when its text is blank |
| CellTypes.NullHandling | src/ui/grid/grid.py:147-163 | Blank text parses to null for Float and Number. Null prints as "" for Float and as "0" for Number. |
| CellTypes.NumberNullReadsBackAsZero | src/ui/grid/grid.py:197-205 | Parsing the text Number prints for null gives the integer 0, not null. |
| CellTypes.StringTypeTotal | src/ui/grid/grid.py:87-98 | Every string passes the String test and parses to itself. It prints as "" exactly when it is whitespace only, and otherwise unchanged. |
| CellTypes.NumberParses | src/ui/grid/grid.py:197-200 | A decimal literal whose truncation is below 2^53 in magnitude parses to that truncation or to the next integer away from zero. From 2^1024 on, parsing raises OverflowError. |
| CellTypes.NumberRoundsUp | src/ui/grid/grid.py:200 | "2.9999999999999999" parses to 3, not to its truncation 2, because the nearest double is 3.0. |
| CellTypes.NumberRoundTrip | src/ui/grid/grid.py:197-205 | Printing an integer of magnitude at most 2^53 and parsing it back gives the same integer. |
| CellTypes.PositiveReadsRounded | src/ui/grid/grid.py:197-205 | a printed positive integer reads back as the integer of the double it rounds to |
| CellTypes.NumberRoundTripLimit | src/ui/grid/grid.py:197-205 | 2^53 + 1 prints and parses back as 2^53: the round trip ends where doubles stop holding every integer. |
| CellTypes.NumberOverflow | src/ui/grid/grid.py:185-205 | An integer of magnitude 2^1024 or more prints to text that passes the Number test (`int()` reads it), yet parsing that text raises OverflowError. |
| CellTypes.PrintedIntReads | src/ui/grid/grid.py:188 | `int(str(i))` is i for every integer, sign included. |
| CellTypes.IntLiteral | src/ui/grid/grid.py:197-205 | `str(i)` is a decimal literal without a fractional part, whose whole digits are the magnitude of i and whose truncation is i. |
| CellTypes.NumberCommaQuirk | src/ui/grid/grid.py:185-200 | "1,5" passes the Number test (the comma is replaced there), yet parsing it raises (the comma is not replaced there). |
| CellTypes.NumberParseImpliesTest | src/ui/grid/grid.py:185-200 | Non-blank text that the Number type parses also passes its test. |
| CellTypes.FloatTestMatchesParse | src/ui/grid/grid.py:135-158 | For non-blank text the Float test holds exactly when parsing succeeds (both try the text, then the text with "," replaced by "."). |
| CellTypes.FloatRoundTrip | src/ui/grid/grid.py:147-163 | Printing a parsed Float value and parsing it again gives the same value. |
| CellTypes.FloatLiteralParses | src/ui/grid/grid.py:147-158 | A stripped, non-blank decimal literal parses to the Float value of that literal. |
| CellTypes.FromString | src/ui/grid/grid.py:90-200 | `from_string` of the String (lines 90-93), Float (147-158) and Number (197-200) types: a successful parse yields a value of the cell type's own kind. |
| CellTypes.SameColumnById | src/ui/grid/grid.py:226-227 | Columns are equal exactly when their ids are equal. This is an equivalence: reflexive, symmetric and transitive. |
| CellTypes.FloatPrecisionIgnored | src/ui/grid/grid.py:171-172 | Two Float cell types are equal whatever their precisions. |
| Text.Strip | src/ui/grid/grid.py:96 | `str.strip()`: the result is no longer than the input and neither end is a whitespace character of the isspace set |
| Text.TrimInfix | src/ui/grid/grid.py:96 | `strip` returns a contiguous infix of its input, and everything cut from either end is in the stripped set. |
| Text.BlankIsAllSpace | src/ui/grid/grid.py:96 | `len(s.strip()) == 0` holds exactly when every character is whitespace. |
| Text.StripIdempotent | src/ui/grid/grid.py:96 | Stripping twice is stripping once. |
| Text.ParseShow | src/ui/grid/grid.py:205 | `int(str(n))` is n for every natural n. |
| Text.ShowParse | src/datetimeutil.py:44 | `str(int(s))` is s for a digit string without a leading zero. |
| Text.ParsePadZeros | src/datetimeutil.py:26 | `int(str(n).zfill(w))` is n. |
| Text.PadWidth | src/datetimeutil.py:26 | `str(n).zfill(w)` is exactly w digits long when n < 10^w. |
| Text.PyIntDigits | src/datetimeutil.py:44 | `int()` of a digit string is its value; on the empty string it raises. |
| Text.IntOfFloatNear | src/ui/grid/grid.py:200 | For a literal whose truncation is below 2^53 in magnitude, `int(float(s))` is the truncation or the next integer away from zero. |
| Text.IntOfFloatWhole | src/ui/grid/grid.py:200 | A literal without a fractional part and of magnitude at most 2^53 reads exactly. |
| Text.IntOfFloatOverflow | src/ui/grid/grid.py:200 | A literal whose whole part reaches 2^1024 makes `int(float(s))` raise OverflowError. |
| Text.MantissaValue | src/ui/grid/grid.py:200 | The exact value of a literal's digits lies in [w, w + 1), where w is the value of its whole digits. |
| Doubles.RoundHalfEven | src/ui/grid/grid.py:200 | Rounding n / d to the nearest integer gives the floor or the floor plus one, and the exact quotient when d divides n. |
| Doubles.Log2 | src/ui/grid/grid.py:200 | The binade of n: 2^e <= n < 2^(e + 1). |
| Doubles.ScaledAtLeast | src/ui/grid/grid.py:200 | m * 2^s reaches 2^k exactly when floor(log2 m) + s reaches k. This is what makes the exponent test of the rounding the "rounded value is at least 2^1024" test for infinity. |
| Doubles.ExactUpTo53 | src/ui/grid/grid.py:200 | Every integer up to 2^53 is a double: `int(float(n))` is n. |
| Doubles.FirstInexact | src/ui/grid/grid.py:200 | `int(float(2^53 + 1))` is 2^53: the tie goes to the even significand. |
| Doubles.NearTruncation | src/ui/grid/grid.py:200 | Below 2^53, `int(float(v))` is floor(v) or floor(v) + 1. |
| Doubles.Overflow | src/ui/grid/grid.py:200 | From a binade of 2^1024 on, `float()` gives infinity and `int()` raises OverflowError. |
| Doubles.RoundsUpToThree | src/ui/grid/grid.py:200 | 29999999999999999 / 10^16 rounds to the double 3.0, so `int(float())` gives 3. |
| Text.LiteralHasNoComma | src/ui/grid/grid.py:188-191 | A decimal literal contains no comma, so the comma replacement leaves it unchanged. |
| PyList.InsertAt | src/discharge/ui/page/test_series_editor.py:340 | `list.insert(i, x)` clamps i into range, places x there and shifts the tail up by one. |
| PyList.DeleteAt | src/discharge/ui/page/test_series_editor.py:350 | `del s[i]` drops exactly position i and shifts the tail down by one. |
| PyList.InsertDeleted | src/discharge/ui/page/test_series_editor.py:342-350 | Re-inserting the deleted element at its own index gives back the list. |
| PyList.RemoveFirst | src/discharge/ui/page/test_series_editor.py:344 | `list.remove(x)` removes one occurrence of x and keeps all other elements. |
| PyList.RemoveAppended | src/discharge/ui/page/test_series_editor.py:344-349 | Removing an element just appended, and absent before, gives back the list. |
| PyList.DeleteRunIsWithout | src/ui/grid/grid.py:1177-1180 | Deleting at `row_pos - minus` for strictly ascending positions removes exactly the rows at those original positions. |
| PyList.RestoreAfterDelete | src/ui/grid/grid.py:1172-1190 | Re-inserting the captured rows at their original indices, in capture order, restores the original list. |
| PyList.DeleteExample | src/ui/grid/grid.py:1177-1180 | Deleting [2, 4, 6] from A..J leaves A, B, D, F, H, I, J. |
| PyList.UnsortedDeleteCorrupts | src/ui/grid/grid.py:1172-1190 | With the positions [5, 2] (not ascending) the delete removes B and F instead of C and F, and the undo does not restore the list. |
| GridTable.PyIndex | src/console/ui/page/script_editor.py:499-501 | A Python list index is valid exactly in [-n, n), and a natural index below n is itself. |
| GridTable.UndoWrites | src/ui/grid/grid.py:1197-1215 | Writing back the values captured before a list of writes restores the table exactly, even when cells repeat. |
| GridTable.UntouchedRead | src/ui/grid/grid.py:1203-1204 | A cell that no write names keeps its value. |
| GridTable.FillReads | src/ui/grid/grid.py:356-364 | After setting one value into a list of cells, every listed cell reads that value. |
| GridTable.FillEffect | src/ui/grid/grid.py:1197-1210 | A cell reads the set value if the list names it, and otherwise its old value. |
| GridTable.PasteEffect | src/ui/grid/grid.py:1223-1229 | After a paste at (r0, c0), a cell covered by the table reads `table[r-r0][c-c0]`. Any other cell keeps its value. |
| GridTable.PasteCovered | src/ui/grid/grid.py:1223-1229 | A cell covered by the pasted table reads its table value. |
| GridTable.PasteUncovered | src/ui/grid/grid.py:1223-1229 | A cell outside the pasted table keeps its value. |
| GridTable.PasteWriteAt | src/ui/grid/grid.py:1225-1228 | Each table entry `table[i][j]` is written to `(r0+i, c0+j)`. |
| GridTable.PasteWriteOrigin | src/ui/grid/grid.py:1225-1228 | Every paste write comes from a table entry at its offset. |
| GridTable.PasteWritesOrdered | src/ui/grid/grid.py:1225-1226 | Paste writes go in row-major order. |
| GridTable.SnapshotOf | src/ui/grid/grid.py:1198-1200 | The undo list has one entry per write, holding that cell's value before any write. |
| Commands.UndoReverses | src/ui/grid/grid.py:315-381 | For every command, undoing its record from the state the command produced gives back the state before it. |
| Commands.AppendAddsBlankRows | src/ui/grid/grid.py:1144-1147 | Append(n) keeps every old row and adds exactly n blank rows at the end. |
| Commands.RecordOfFor | src/ui/grid/grid.py:1144-1237 | Each command's undo record is of the command's own kind. This only unfolds the definition of `RecordOf`; the push onto the matching stack is `PushMatches`. |
| Commands.PopMatches | src/ui/grid/grid.py:1158-1238 | When the four stacks match the history, the last command's record is on top of its kind's stack, and popping it leaves them matching the shorter history. |
| Commands.PushMatches | src/ui/grid/grid.py:1147-1230 | Pushing a record onto its kind's stack keeps the four stacks matching the history. |
| Commands.ConsistentDo | src/ui/grid/grid.py:315-381 | Submitting an accepted command keeps the history consistent and clears the redo list. |
| Commands.ConsistentUndoReady | src/ui/grid/grid.py:1009-1011 | With a consistent history, undoing the last record leads back to the state before the last command. |
| Commands.ConsistentUndo | src/ui/grid/grid.py:1009-1011 | Undo moves the last command onto the redo list and keeps the history consistent. |
| Commands.ConsistentRedoReady | src/ui/grid/grid.py:1013-1015 | The command on top of the redo list can be done again on the current state. This only extracts a conjunct of the `Consistent` invariant; the work is in `ConsistentUndo`, which establishes it. |
| Commands.ConsistentRedo | src/ui/grid/grid.py:1013-1015 | Redo moves that command back to the done list and keeps the history consistent. |
| Commands.UndoThenRedo | src/ui/grid/grid.py:1009-1015 | Replaying the newest done command on the state before it gives the current state, so a redo after an undo rebuilds the state the undo started from. This only extracts a conjunct of `DoneChain`; the work is in `ConsistentDo` and `ConsistentRedo`, which keep it. |
| HostModels.HostModel.GetValueAt | src/ui/grid/grid.py:289 | Reads `rows[row][col]`, taking the column first as every caller does, and "" outside the table. |
| HostModels.HostModel.SetValueAt | src/ui/grid/grid.py:301 | Writes one cell; every other cell is unchanged. |
| HostModels.HostModel.InsertRow | src/ui/grid/grid.py:302 | `list.insert` of a blank row. |
| HostModels.HostModel.DeleteRow | src/ui/grid/grid.py:303 | `del rows[row]`. |
| HostModels.HostModel.GetRowState | src/ui/grid/grid.py:304 | The state is the row itself. |
| HostModels.HostModel.RestoreRow | src/ui/grid/grid.py:1190 | Re-inserts a captured row at its index. |
| HostModels.HostModel.HaveChanges | src/ui/grid/grid.py:307 | True exactly when the rows differ from the last saved rows. |
| HostModels.HostModel.TotalRows | src/ui/grid/grid.py:298 | The number of rows. |
| ModelEdits.AppendBlankRows | src/ui/grid/grid.py:1145-1146 | n inserts at `total_rows()` append n blank rows. |
| ModelEdits.DropLastRows | src/ui/grid/grid.py:1160-1161 | n deletes at `total_rows() - 1` drop the last n rows. |
| ModelEdits.CaptureRows | src/ui/grid/grid.py:1173-1175 | Captures `(row, get_row_state(row))` for each target, before any delete. |
| ModelEdits.DeleteRowsAt | src/ui/grid/grid.py:1177-1180 | Deletes at `row_pos - minus` with a running offset. |
| ModelEdits.RestoreRows | src/ui/grid/grid.py:1188-1190 | Restores the captured rows in capture order. |
| ModelEdits.CaptureCells | src/ui/grid/grid.py:1198-1200 | Records each cell's current value, reading `get_value_at(col, row)`. |
| ModelEdits.WriteBack | src/ui/grid/grid.py:1213-1215 | Writes the undo values back in list order. |
| ModelEdits.PasteCells | src/ui/grid/grid.py:1224-1228 | Pastes the table row-major and captures each prior value just before its write. The result is the paste writes applied, and the undo list is their snapshot. |
| Clipboard.CopyCursorCell | src/ui/grid/grid.py:875-876 | With no selection, copy yields the cursor cell as a 1x1 table. |
| Clipboard.CopyRefusesIff | src/ui/grid/grid.py:878-882 | Copy raises exactly when some consecutive pair of blocks shares neither its rows nor its columns. |
| Clipboard.SortBy | src/ui/grid/grid.py:892-900 | `sorted(blocks, key=...)` by left column or top row: the result is ordered by that key and is a permutation of the blocks |
| Clipboard.InsertByKey | src/ui/grid/grid.py:892-900 | one insertion step of the sort adds exactly the new block to the multiset of blocks |
| Clipboard.SideBySideCopy | src/ui/grid/grid.py:891-898 | When the first two blocks share rows, the blocks are sorted by left column and each row concatenates them. |
| Clipboard.CopySideBySideShape | src/ui/grid/grid.py:891-898 | Each copied row is as wide as all blocks together. |
| Clipboard.CopyStackedShape | src/ui/grid/grid.py:899-906 | When the first two blocks share columns, the blocks are stacked by top row, and the table is as tall as all of them together. |
| Clipboard.MixedLayoutCopied | src/ui/grid/grid.py:878-898 | Blocks that pass the pairwise check but mix layouts are still copied side by side from `blocks[0]`'s rows; the result is shown on a concrete example. |
| Clipboard.BlockTableShown | src/ui/grid/grid.py:886-890 | A single block copies exactly its displayed cells. |
| Clipboard.CopyPasteInPlace | src/ui/grid/grid.py:886-890 | Pasting a block's copy back at its own corner changes nothing. |
| Clipboard.PasteShownValues | src/ui/grid/grid.py:1223-1228 | Pasting values that are already displayed there changes nothing. |
| Clipboard.ReadCopy | src/ui/grid/grid.py:872-906 | The copy loops compute the copy table, or the refusal. |
| Clipboard.ReadRows | src/ui/grid/grid.py:894-898 | The side-by-side loop builds the concatenated rows. |
| Clipboard.AppendBlockCells | src/ui/grid/grid.py:671-674 | the nested loop over one block appends exactly that block's cells, row-major |
| Clipboard.AppendRowCells | src/ui/grid/grid.py:673-674 | the inner loop appends exactly the cells of one row from the left to the right column |
| Clipboard.CollectCells | src/ui/grid/grid.py:666-673 | The cell loop lists every cell of every block, block by block and row-major. |
| Clipboard.InSelection | src/ui/grid/grid.py:926-929 | A cell is listed exactly when some block contains it. |
| Clipboard.NonEmptyRowsKept | src/ui/grid/grid.py:957-959 | Dropping empty rows keeps every non-empty row and nothing else. |
| Clipboard.DropEmptyRows | src/ui/grid/grid.py:957-959 | The loop keeps the non-empty parsed rows in order. |
| Clipboard.PlanPaste | src/ui/grid/grid.py:934-1005 | The paste branches produce the planned action: ignore, one set-value, the multiple-selection error, the too-few-columns error, or append-then-paste. Cancel is produced only for a message-box result equal to `wx.ID_CANCEL`, as the code tests. |
| Clipboard.AnswerIgnored | src/ui/grid/grid.py:986-992 | The result of `wx.MessageBox` is compared with `wx.ID_CANCEL`, which the message box never returns. So pressing Cancel pastes exactly as OK does, and no answer cancels. |
| Clipboard.CancelStillPastes | src/ui/grid/grid.py:984-1005 | A 2x2 table pasted onto a 1x1 selection and answered with Cancel is still placed at the selection; the intended plan cancels it. |
| Clipboard.IntendedCancels | src/ui/grid/grid.py:984-993 | The corrected plan, which compares with `wx.CANCEL`, cancels exactly when the question is asked and answered with Cancel. Otherwise it is the plan as written. |
| Clipboard.PasteEmptyIgnored | src/ui/grid/grid.py:961-963 | A clipboard with no non-empty row does nothing. |
| Clipboard.PasteOneValue | src/ui/grid/grid.py:965-976 | A 1x1 clipboard becomes one set-value of that value. Every cell of every selected block is a target, or the normalised cursor cell when nothing is selected. |
| Clipboard.PasteTableNeedsOneBlock | src/ui/grid/grid.py:978-980 | A larger clipboard with more than one selected block raises. |
| Clipboard.PastePlaceFits | src/ui/grid/grid.py:982-1005 | A planned paste starts at a non-negative cell, fits in the columns, and appends exactly the rows it lacks. |
| Clipboard.PasteRaggedTablePlaced | src/ui/grid/grid.py:997 | Only the first row's width is checked: a longer second row still passes. |
| GridView.Merge | src/ui/grid/grid.py:831 | The new state takes the updated flags and keeps the others. |
| GridView.DiffersIffChanged | src/ui/grid/grid.py:830-839 | The state-changed event fires exactly when the update changes the state. |
| GridView.ControlFlagsGuards | src/ui/grid/grid.py:1104-1128 | Read-only mode disables cut, paste, save and delete-row. Edit mode disables copy, cut, paste and delete-row. Delete-row needs selected rows. Save is on exactly when there are changes and the grid is writable. The undo, redo and find flags are untouched. |
| GridView.ControlFlagsHeld | src/ui/grid/grid.py:1121-1128 | When the flags already hold, the update changes nothing. |
| GridView.UndoRedoFlagsHeld | src/ui/grid/grid.py:1100-1102 | When the undo and redo flags already agree, the update changes nothing. |
| GridView.InitialSizes | src/ui/grid/grid.py:436-439 | One positive width per column: `init_width` when positive, otherwise 100. |
| GridView.Reconciled | src/ui/grid/grid.py:718-730 | One size entry per current column, in current order. |
| GridView.ReconcileKeepsStored | src/ui/grid/grid.py:718-730 | A column id seen before keeps its stored size; a new id gets `init_width`. |
| GridView.ReconcileIdempotent | src/ui/grid/grid.py:718-730 | Re-rendering with the same columns keeps the sizes. |
| GridView.FirstRenderKeepsInitial | src/ui/grid/grid.py:436-439 | The initial render keeps the widths chosen in the constructor. |
| GridView.ReconcileSizes | src/ui/grid/grid.py:718-730 | The nested loop computes the reconciled sizes. |
| GridView.ClampCursor | src/ui/grid/grid.py:760-768 | The cursor is clamped to the last row and column, and a coordinate in range is kept. |
| GridView.CollectHighlights | src/ui/grid/grid.py:1272-1281 | The error loop computes the highlighted cells. |
| GridView.HighlightsPointAtColumns | src/ui/grid/grid.py:1272-1281 | Each highlight is `(column index, row)` of some error whose column id is shown, with at most one per error. |
| GridView.ShownColumnHighlighted | src/ui/grid/grid.py:1272-1281 | Every error on a shown column is highlighted. |
| GridView.FindFirst | src/ui/grid/grid.py:1304-1311 | a found cell holds the query and lies at a position from which the search still had a next cell |
| GridView.FindFirstSound | src/ui/grid/grid.py:1304-1311 | A hit equals the query, lies in the grid and is at or after the start, row-major. |
| GridView.FindFirstMinimal | src/ui/grid/grid.py:1304-1311 | No earlier cell from the start equals the query: a hit is the first. |
| GridView.LastCellNeverFound | src/ui/grid/grid.py:1300-1305 | The bottom-right cell is never reported. |
| GridView.OneCellGridNotFound | src/ui/grid/grid.py:1300-1313 | In a 1x1 grid the search finds nothing, even when the cell equals the query. |
| GridView.IntendedFindComplete | src/ui/grid/grid.py:1300-1311 | The corrected scan compares each cell before asking for a next one. It finds a match whenever a cell at or after the start holds the query, the bottom-right cell included. |
| GridView.IntendedAgrees | src/ui/grid/grid.py:1300-1311 | Wherever the scan as written finds a cell, the corrected scan finds the same cell. |
| GridView.OneCellGridFound | src/ui/grid/grid.py:1300-1311 | In a 1x1 grid holding the query, the corrected scan finds the cell. |
| GridEditors.RenderedShowsModel | src/ui/grid/grid.py:746-749 | Each displayed cell shows `get_value_at(col, row)`. |
| GridEditors.GridEditor.constructor | src/ui/grid/grid.py:404-491 | The initial widths are reconciled, there is no history, and there is no last cursor. |
| GridEditors.GridEditor.ReadModel | src/ui/grid/grid.py:751-753 | the grid is filled with `get_value_at` of every row and column of the model |
| GridEditors.GridEditor.RestoreCursor | src/ui/grid/grid.py:716-768 | with a remembered cursor and a non-empty grid, the cursor is clamped into the grid; otherwise cursor, memory and state are unchanged |
| GridEditors.GridEditor.Render | src/ui/grid/grid.py:712-773 | The grid shows the model. The sizes are reconciled by id. The selection is cleared. The cursor is restored, clamped, when there was one and the grid is not empty. |
| GridEditors.GridEditor.SetState | src/ui/grid/grid.py:830-839 | Merges the update and posts one event exactly when the state changed. |
| GridEditors.GridEditor.UpdateControlsState | src/ui/grid/grid.py:1104-1129 | Applies the edit flags, then the undo and redo flags. |
| GridEditors.GridEditor.UpdateUndoRedoState | src/ui/grid/grid.py:1100-1102 | `can_undo` and `can_redo` follow the history. |
| GridEditors.GridEditor.OnSelectCell | src/ui/grid/grid.py:794-806 | Remembers the cursor and updates the flags. |
| GridEditors.GridEditor.CmdAppendRows | src/ui/grid/grid.py:1144-1156 | Appends n blank rows, pushes n, and re-renders. |
| GridEditors.GridEditor.CmdUndoAppendRows | src/ui/grid/grid.py:1158-1170 | Pops n and drops the last n rows, which undoes the append. |
| GridEditors.GridEditor.CmdDeleteRows | src/ui/grid/grid.py:1172-1185 | Pushes the captured rows, then deletes exactly the targeted rows. |
| GridEditors.GridEditor.CmdUndoDeleteRows | src/ui/grid/grid.py:1187-1195 | Pops the captures and re-inserts them in capture order, which undoes the delete. |
| GridEditors.GridEditor.CmdSetCellValue | src/ui/grid/grid.py:1197-1210 | Pushes the prior values, then writes the value into every listed cell. |
| GridEditors.GridEditor.CmdUndoSetCellValue | src/ui/grid/grid.py:1212-1221 | Writes the popped prior values back, which undoes the set. |
| GridEditors.GridEditor.CmdPaste | src/ui/grid/grid.py:1223-1235 | Applies the paste writes and pushes their prior values. |
| GridEditors.GridEditor.CmdUndoPaste | src/ui/grid/grid.py:1237-1246 | Writes the popped prior values back, which undoes the paste. |
| GridEditors.GridEditor.DoCommand | src/ui/grid/grid.py:321-377 | An empty command is refused and changes nothing. Otherwise the model becomes the command's effect and its record is pushed. |
| GridEditors.GridEditor.UndoCommand | src/ui/grid/grid.py:327-381 | Undo dispatches to the matching stack and reverses the last command. |
| GridEditors.GridEditor.Submit | src/ui/grid/grid.py:608 | An accepted command is applied, recorded and clears redo. A refused one changes nothing. |
| GridEditors.GridEditor.Undo | src/ui/grid/grid.py:1009-1011 | Restores the state before the last command and moves it to redo; with no history it does nothing. |
| GridEditors.GridEditor.Redo | src/ui/grid/grid.py:1013-1015 | Re-applies the last undone command; with nothing undone it does nothing. |
| GridEditors.GridEditor.UndoLast | src/ui/grid/grid.py:1009-1011 | Undo with a non-empty history returns to the previous state. |
| GridEditors.GridEditor.RedoLast | src/ui/grid/grid.py:1013-1015 | Redo with a non-empty redo list re-applies its top. |
| GridEditors.GridEditor.AddRow | src/ui/grid/grid.py:1068-1070 | Appends one blank row as an append command. |
| GridEditors.GridEditor.AddRows | src/ui/grid/grid.py:606-609 | Appends count blank rows as one undo step: the history gains `AppendRows(count)` and the redo list is cleared. A count of 0 records nothing and keeps both lists. |
| GridEditors.GridEditor.DeleteSelectedRows | src/ui/grid/grid.py:1072-1074 | Deletes exactly the selected rows as one undo step: the history gains `DeleteRows` of the selection and the redo list is cleared. With no selected row both lists are kept. |
| GridEditors.GridEditor.RemovalCells | src/ui/grid/grid.py:665-673 | The cursor cell when nothing is selected, otherwise every cell of every block. |
| GridEditors.GridEditor.RemoveValues | src/ui/grid/grid.py:665-676 | Writes "" into those cells through one set-value command: the history gains exactly that command and the redo list is cleared. |
| GridEditors.GridEditor.Copy | src/ui/grid/grid.py:872-917 | Yields the copy table of the displayed cells, or the refusal. |
| GridEditors.GridEditor.Cut | src/ui/grid/grid.py:919-931 | Copies first. A refused copy changes nothing; otherwise the cut cells become "", recorded as one set-value command, and the redo list is cleared. |
| GridEditors.GridEditor.Paste | src/ui/grid/grid.py:933-1007 | Follows the paste plan as written: the action is the same whichever button of the size-mismatch message box is pressed. One value is set into its cells as one set-value command. A table appends the missing rows and then pastes; that is two history entries (`AppendRows`, then `Paste`), so one undo leaves the appended blank rows. Each recorded paste clears the redo list. Any other outcome changes nothing. |
| GridEditors.GridEditor.PlaceTable | src/ui/grid/grid.py:1001-1005 | Appends the missing blank rows, then pastes the table. The history gains `AppendRows` (only when rows are missing) and then `Paste`, and the redo list is cleared. |
| GridEditors.GridEditor.CellChanging | src/ui/grid/grid.py:823-828 | An in-cell edit sets that one cell, recorded as a one-cell set-value command; the redo list is cleared. |
| GridEditors.GridEditor.SelectRange | src/ui/grid/grid.py:812-813 | Changing the selection updates the flags. |
| GridEditors.GridEditor.Validate | src/ui/grid/grid.py:1263-1283 | Highlights the errors' cells and answers true exactly when there are no errors. |
| GridEditors.GridEditor.CanFindNext | src/ui/grid/grid.py:1288-1290 | True exactly when the find row is inside the grid and the query is non-empty. |
| GridEditors.GridEditor.DoFind | src/ui/grid/grid.py:1304-1313 | Scans row-major from the find position. A hit selects that cell and moves the cursor there; a miss leaves the position where no next cell exists. |
| GridEditors.GridEditor.StartFind | src/ui/grid/grid.py:1318-1320 | stores the query and the strict flag and restarts the search at (0, 0) |
| GridEditors.GridEditor.Find | src/ui/grid/grid.py:1315-1322 | Stores the query and the strict flag, sets `can_find_next` from the grid's row count and the query, then searches from (0, 0). A hit becomes the search position, the cursor and the only selected cell. A miss leaves the position where no next cell exists. |
| GridEditors.GridEditor.FindNext | src/ui/grid/grid.py:1324-1331 | Steps one cell (wrapping to the next row), then searches from there. A hit becomes the search position, the cursor and the only selected cell. A miss leaves the position where no next cell exists. |
| ResultsTables.ValueAtNeverFails | src/console/ui/page/script_editor.py:498-501 | For non-negative indices the lookup is `rows[row][col]` when both are in range and "" otherwise; it never raises. |
| ResultsTables.ValueAtNegativeRow | src/console/ui/page/script_editor.py:498-501 | A negative row reads from the end as Python does, and raises below `-len(rows)`. |
| ResultsTables.PushRowReads | src/console/ui/page/script_editor.py:512-513 | After `push_row(cells)` the earlier rows read as before, the new row reads `cells`, and rows past it read "". |
| ResultsTables.StringColumn | src/console/ui/page/script_editor.py:510 | The pushed column's id, short name and long name are all the name, and its type is String. |
| ResultsTables.ResultsTableModel.constructor | src/console/ui/page/script_editor.py:490-493 | Starts with no columns and no rows. |
| ResultsTables.ResultsTableModel.GetColumns | src/console/ui/page/script_editor.py:495-496 | Returns the columns. |
| ResultsTables.ResultsTableModel.GetValueAt | src/console/ui/page/script_editor.py:498-501 | The lookup above; defined for every non-negative index. |
| ResultsTables.ResultsTableModel.GetRowsCount | src/console/ui/page/script_editor.py:503-504 | The number of rows. |
| ResultsTables.ResultsTableModel.TotalRows | src/console/ui/page/script_editor.py:506-507 | The number of rows. |
| ResultsTables.ResultsTableModel.PushColumn | src/console/ui/page/script_editor.py:509-510 | Appends exactly one string column named `name`; earlier columns are unchanged. |
| ResultsTables.ResultsTableModel.PushRow | src/console/ui/page/script_editor.py:512-513 | Appends exactly one row. |
| ResultsTables.ResultsTableModel.Clear | src/console/ui/page/script_editor.py:548-551 | Leaves zero columns and zero rows. |
| VecCellTypes.VecNullHandling | src/discharge/ui/page/test_series_editor.py:51-63 | None prints as "". Blank text parses to the empty list. Otherwise a parse yields one value per piece. |
| VecCellTypes.VecToString | src/discharge/ui/page/test_series_editor.py:51-54 | a one-item list prints exactly as its item type prints that item |
| VecCellTypes.SplitItems | src/discharge/ui/page/test_series_editor.py:46 | `re.split("[,;]\s*")` yields at least one item, no item holds a separator, and a text without separators is its own single item |
| VecCellTypes.SplitJoin | src/discharge/ui/page/test_series_editor.py:51-63 | Splitting on `[,;]\s*` the "; "-join of pieces that hold no separator and start with no whitespace gives back the pieces. |
| VecCellTypes.NumberVecRoundTrip | src/discharge/ui/page/test_series_editor.py:51-63 | Printing a list of integers, each of magnitude at most 2^53, and parsing it back gives the same list. |
| VecCellTypes.VecTestRepr | src/discharge/ui/page/test_series_editor.py:45-49 | The test holds exactly when every split piece of the stripped text passes the item type's test. |
| VecCellTypes.EveryItem | src/discharge/ui/page/test_series_editor.py:45-49 | The early-exit check is the plain "every piece passes". |
| VecCellTypes.VecFromString | src/discharge/ui/page/test_series_editor.py:56-63 | Parses each piece with the item type, in order. The first piece the item type refuses raises. |
| VecCellTypes.ParseEachItems | src/discharge/ui/page/test_series_editor.py:61-62 | The parse succeeds exactly when every piece parses, value i is piece i's value, and a failure is the first failing piece's error. |
| VecCellTypes.SeparatorIndex | src/discharge/ui/page/test_series_editor.py:46 | Finds the first "," or ";", with no separator before it. |
| VecCellTypes.ItemStrings | src/discharge/ui/page/test_series_editor.py:54 | One item string per value, each printed by the item type. |
| DMModels.ColumnIndex | src/discharge/ui/page/test_series_editor.py:156-300 | Every field id has a column position, in the order the column dict declares them. |
| DMModels.ColumnsDistinct | src/discharge/ui/page/test_series_editor.py:156-300 | The column ids are distinct. |
| DMModels.NewRow | src/discharge/ui/page/test_series_editor.py:317-340 | A new row has no record and holds every field. |
| DMModels.InsertedDefaults | src/discharge/ui/page/test_series_editor.py:317-340 | An inserted row reads the default of every column. |
| DMModels.InsertIsChange | src/discharge/ui/page/test_series_editor.py:317-359 | After `insert_row`, `have_changes` is true. |
| DMModels.InsertPreserves | src/discharge/ui/page/test_series_editor.py:317-340 | Insert keeps the rows well formed: all fields present, unique record ids, ids not deleted. |
| DMModels.SetThenGet | src/discharge/ui/page/test_series_editor.py:307-315 | After `set_value_at`, `get_value_at` returns the new value. |
| DMModels.SetKeepsOthers | src/discharge/ui/page/test_series_editor.py:312-315 | `set_value_at` leaves every other cell's value as it was. |
| DMModels.SetSameValue | src/discharge/ui/page/test_series_editor.py:313 | Setting the value a cell already shows records nothing. |
| DMModels.SetRecordsChange | src/discharge/ui/page/test_series_editor.py:312-359 | A set that changes the rows makes `have_changes` true. |
| DMModels.SetPreserves | src/discharge/ui/page/test_series_editor.py:312-315 | Setting a value keeps the rows well formed. |
| DMModels.DeleteRestoreRoundTrip | src/discharge/ui/page/test_series_editor.py:304-350 | `get_row_state(i)`, `delete_row(i)`, `restore_row(i, s)` restores both the rows and the deleted-id list. |
| DMModels.DeletePreserves | src/discharge/ui/page/test_series_editor.py:347-350 | Delete keeps the state well formed: the record id moves to the deleted list. |
| DMModels.RestorePreserves | src/discharge/ui/page/test_series_editor.py:342-345 | Restoring a complete row keeps the state well formed. |
| DMModels.RemoveUnique | src/discharge/ui/page/test_series_editor.py:344 | Removing an id listed once leaves it absent and keeps the others unique. |
| DMModels.DuplicateErrorsMembers | src/discharge/ui/page/test_series_editor.py:379-393 | A duplicate error is exactly a non-empty sample number's first row, when that number occurs again later. |
| DMModels.UniqueSamples | src/discharge/ui/page/test_series_editor.py:379-393 | There is no duplicate error exactly when the non-empty sample numbers are pairwise distinct. |
| DMModels.KeysMatch | src/discharge/ui/page/test_series_editor.py:379-393 | Walking the dict's keys in insertion order yields the duplicate errors in the order of their first rows. |
| DMModels.DictStep | src/discharge/ui/page/test_series_editor.py:379-388 | Each step of the dict loop keeps the keys as the first occurrences so far, each mapped to all its indices so far. |
| DMModels.CellErrorsMembers | src/discharge/ui/page/test_series_editor.py:362-377 | A cell error is exactly either an empty value in a required column or a non-empty value failing the column type's test. |
| DMModels.ColumnErrorsUpTo | src/discharge/ui/page/test_series_editor.py:363-377 | A column's errors are its cells' errors, row by row. |
| DMModels.Samples | src/discharge/ui/page/test_series_editor.py:380-384 | The sample numbers read through the pending edits. |
| DMModels.WriteField | src/discharge/ui/page/test_series_editor.py:315 | Writing a pending edit keeps every field present. |
| DMModels.DMModel.constructor | src/discharge/ui/page/test_series_editor.py:76-83 | Starts from the given rows (standing in for `load`) with no deleted ids. |
| DMModels.DMModel.GetRowState | src/discharge/ui/page/test_series_editor.py:304-305 | The row object itself, with Python indexing; IndexError out of range. |
| DMModels.DMModel.GetValueAt | src/discharge/ui/page/test_series_editor.py:307-310 | The pending value when one exists, else the committed one; IndexError out of range. |
| DMModels.DMModel.SetValueAt | src/discharge/ui/page/test_series_editor.py:312-315 | Records the value only when it differs, keeps the state well formed, and fails only on a bad index. |
| DMModels.DMModel.InsertRow | src/discharge/ui/page/test_series_editor.py:317-340 | Inserts a default row at the clamped index. |
| DMModels.DMModel.DeleteRow | src/discharge/ui/page/test_series_editor.py:347-350 | Deletes the row and lists its record id as deleted. |
| DMModels.DMModel.RestoreRow | src/discharge/ui/page/test_series_editor.py:342-345 | Unlists the record id, failing when it is not listed, and re-inserts the row. |
| DMModels.DMModel.TotalRows | src/discharge/ui/page/test_series_editor.py:352-353 | The number of rows. |
| DMModels.DMModel.HaveChanges | src/discharge/ui/page/test_series_editor.py:355-359 | True exactly when some row has pending edits or some record was deleted. |
| DMModels.DMModel.Validate | src/discharge/ui/page/test_series_editor.py:361-395 | The cell errors column by column, then one error per repeated sample number at its first row. It changes nothing, so two calls return equal lists. |
| DMModels.ListCellErrors | src/discharge/ui/page/test_series_editor.py:362-377 | The column loop lists the cell errors in column order. |
| DMModels.ListColumnErrors | src/discharge/ui/page/test_series_editor.py:363-377 | The row loop follows the empty and type branches for one column. |
| DMModels.ListDuplicates | src/discharge/ui/page/test_series_editor.py:379-393 | The dict loop and the key loop yield exactly the duplicate errors. |
| CustomDatetime.DateStr | src/custom_datetime.py:6-7 | `dd.mm.yyyy` is always ten characters long: every field of a valid date (years 1 to 9999) fits its zero-padded width |
| CustomDatetime.DateTimeStr | src/custom_datetime.py:11-12 | `dd.mm.yyyy hh:mm:ss` is always nineteen characters long |
| CustomDatetime.DateStrFields | src/custom_datetime.py:6-7 | `date.__str__` is 10 characters with dots at 2 and 5, and its digit fields read back as day, month and year. |
| CustomDatetime.DateTimeStrFields | src/custom_datetime.py:11-12 | `datetime.__str__` is 19 characters with ' ', ':' and ':' at 10, 13 and 16, and its time fields read back as hour, minute and second. |
| CustomDatetime.DateOfPrintsPrefix | src/custom_datetime.py:6-15 | `datetime.date()` keeps the day, and its string is the first 10 characters of the datetime's string. |
| CustomDatetime.DateWidths | src/custom_datetime.py:7 | Each zero-padded field has its full width for a valid date. |
| CustomDatetime.DaysInMonth | src/custom_datetime.py:5 | The calendar the date constructor checks: 28 to 31 days, and 29 only for February of a leap year. |
| DatetimeUtil.EncodeDate | src/datetimeutil.py:10-26 | fails exactly for an argument that is neither a date nor a wx date; a code's last six digits (hhmmss) are zero |
| DatetimeUtil.EncodeDatetime | src/datetimeutil.py:29-40 | with two-digit time fields, the code divided by 10^6 is the date's `YYYYMMDD` number and the remainder is `hhmmss` |
| DatetimeUtil.DecodeDate | src/datetimeutil.py:43-44 | a negative code never decodes to a date |
| DatetimeUtil.DecodeDatetime | src/datetimeutil.py:47-50 | a negative code never decodes to a datetime |
| DatetimeUtil.EncodeDateLayout | src/datetimeutil.py:15-26 | For a date or datetime, the code is Y·10^10 + M·10^8 + D·10^6, and its last six digits are zero. |
| DatetimeUtil.WxMonthShift | src/datetimeutil.py:11-14 | The wx branch adds 1 to the 0-based month, so a wx date encodes like the same calendar day. |
| DatetimeUtil.EncodeUnsupported | src/datetimeutil.py:24-25 | An unsupported argument raises instead of returning a code. |
| DatetimeUtil.EncodeDateIsMidnight | src/datetimeutil.py:10-40 | `encode_date` of a wx date equals `encode_datetime` of that date at 00:00:00. |
| DatetimeUtil.DateRoundTrip | src/datetimeutil.py:26-44 | For a 4-digit year, `decode_date(encode_date(d))` is d. |
| DatetimeUtil.DateTimeEncodesDate | src/datetimeutil.py:15-44 | A datetime encodes as its date, and decodes to that date. |
| DatetimeUtil.DatetimeRoundTrip | src/datetimeutil.py:29-49 | For a 4-digit year, `decode_datetime(encode_datetime(...))` recovers all six fields. |
| DatetimeUtil.DecodeText | src/datetimeutil.py:43-44 | `decode_date` builds the date from the three slices, or raises when the constructor refuses them. |
| DatetimeUtil.ShortYearMisread | src/datetimeutil.py:26-44 | A 3-digit year does not round-trip: 999-01-01 encodes as 9990101000000, which decodes as 9990-10-10. |
| DatetimeUtil.EncodedValue | src/datetimeutil.py:26 | The packed text's integer value is the weighted sum of its fields. |
| DatetimeUtil.PySlice | src/datetimeutil.py:44 | Python slicing clamps to the string. |
| Sanitize.SanitizeFilename | src/ui/supplied_data/download.py:28-29 | the result is no longer than the name, and neither end is a space or a dot |
| Sanitize.SanitizeClean | src/ui/supplied_data/download.py:28-29 | The output contains no forbidden character and neither starts nor ends with a space or a dot. |
| Sanitize.SanitizeShape | src/ui/supplied_data/download.py:28-29 | The output is an infix of the input with each forbidden character replaced one-for-one by "_". Only spaces and dots are cut from the ends. |
| Sanitize.SanitizeIdempotent | src/ui/supplied_data/download.py:28-29 | Sanitising a sanitised name returns it unchanged. |
| Sanitize.ReplaceForbidden | src/ui/supplied_data/download.py:29 | The substitution keeps the length. |

## Left out

- Rendering, wx chrome, menus, the status bar, painting, the label renderers and zoom
  sizing (`int(size * zoom)`) are left out. Auto-size is also left out. The wx grid is a
  class holding only the rows, columns, cell strings, cursor and selection that the
  editor reads.
- Clipboard I/O and the csv excel-tab dialect are left out. Copy yields its table and
  paste takes the parsed rows as input.
- The size-mismatch message box is an input: the button pressed. `Clipboard.MessageBoxResult`
  maps it to the `wx.OK` or `wx.CANCEL` value that `wx.MessageBox` returns.
- `wx.CommandProcessor` is modelled by explicit done/undone lists, with the usual
  behaviour assumed: Submit clears redo, and a refused `Do` is not recorded. Its
  internals are not visible.
- Selected rows are assumed strictly ascending, a property of the wx selection that
  the model keeps as a class invariant. `PyList.UnsortedDeleteCorrupts` shows what
  unsorted positions would do to `_cmd_delete_rows`.
- `_do_find` ignores `strict_mode`; the model stores the flag and compares with `==`,
  as the code does. `wx.Bell` is left out.
- `GridEditors.GridEditor.Validate` takes the model's error list as an argument. The
  error panel and `SaveEditControlValue` are left out.
- `can_save`, `read_only` toolbar enabling and `_controls_initialized` toolbar
  updates are left out: they are wx calls. The flag state itself is modelled.
- `CellTypes.TestRepr` models Python's `float()` grammar simplified to
  `[sign] digits [. digits]` or `[sign] . digits`, with surrounding whitespace (the
  `str.isspace` characters). Exponents, `inf`/`nan`, underscores and Unicode digits
  are left out.
- `CellTypes.TestRepr`: for a non-integer literal of magnitude 2^1024 or more, the
  Number type's `int(float(...))` raises `OverflowError`, which escapes `test_repr`.
  The model's test is a predicate and answers true there.
- `CellTypes.FromString`: a Float value keeps the accepted literal text. The double
  that `float()` stores and `str(float)` printing are left out, so `FloatRoundTrip` is
  about the literal, not the rounded number. The Number type does round through a
  double (`Doubles.TruncDouble`).
- `CellTypes.NumberRoundTrip` holds for magnitudes up to 2^53 only. Past that,
  doubles skip integers; `CellTypes.NumberRoundTripLimit` shows 2^53 + 1.
- `VecCellTypes.NumberVecRoundTrip` needs every item's magnitude to be at most 2^53,
  for the same reason.
- `CellTypes.NumberParses` states, for a truncation below 2^53 in magnitude, only that
  the result is the truncation or the next integer away from zero, not which one a
  given literal gets. From 2^1024 on it states the OverflowError. In between, the
  result is the rounding `Doubles.TruncDouble` computes, with no separate lemma.
- `Text.PyInt`: the limit of 4300 digits that newer Pythons put on `int()` of a
  string is left out.
- `Clipboard.SortBy` states that the result is ordered by the key and is a permutation.
  That `sorted` is stable (blocks with equal keys keep their order) holds of the
  definition but is not stated.
- Float precision and the String `multiline` flag only affect editors, which are left
  out.
- `FloatCellType`, like `NumberCellType`, is modelled on strings; Python's `None`
  argument to `from_string` is not a value a grid cell can hold.
- `HostModels.HostModel.GetValueAt` takes `(col, row)` as every caller does. The
  protocol's declared `(row, col)` order is not modelled.
- `HostModels.HostModel.RestoreRow`: `restore_row` is modelled as if the protocol
  declared it.
- `HostModels.HostModel.DeleteRow` and `HostModels.HostModel.GetRowState` require an
  index in range. The editor only passes indices of existing rows, so the Python
  `IndexError` never arises there.
- `DMModel.load`, `save` and `_prepare_o` are left out: they read and write the
  database. So are column captions and widths from the configuration provider. The
  loaded rows are the constructor's argument. The `_changed_columns` attribute is
  never read and is left out.
- `DMModels.DMModel.RestoreRow` requires a state that holds every field. States only
  come from `get_row_state` of rows the model holds, and those always do.
- `DMModels.DMModel.GetRowState` returns the row as a value. The aliasing between the
  captured state and a later `set_value_at` on the same Python object is not modelled.
  Nothing edits a deleted row before it is restored.
- `DMModels.DMModel.Validate` checks cells through `DMModels.Passes`, the predicate the
  method `VecCellTypes.VecTestRepr` is proved equal to. The error messages become the
  `ErrorKind` tags.
- `VecCellType`'s `min_count` and `max_count` are accepted but never stored or
  enforced, so the model's `VecType` holds only the item type.
- `ResultsTable.push_column` and `push_row` re-render the grid; the re-render is the
  editor's `Render`. The `celltype` argument is ignored, as in the code. The mutable
  default `cells=[]` of `push_row` is not modelled.
- The `str` branch of `encode_date` (dateutil parsing) is left out: it is foreign
  code. The error message of the unsupported-class branch is a tag.
- Negative years and hours, minutes or seconds of 100 or more are left out of the
  codec: the model uses natural numbers.
- `DatetimeUtil.DateRoundTrip` and `DatetimeUtil.DatetimeRoundTrip` need a 4-digit
  year. `DatetimeUtil.ShortYearMisread` shows the shorter case.
- `DownloadTask.run` and the rest of the download module are left out; they are file
  system and thread code.

## Findings

| source | as written | input that shows it | evidently intended | confidence | as-written member | corrected member |
|---|---|---|---|---|---|---|
| src/ui/grid/grid.py:986-992 | the size-mismatch answer of `wx.MessageBox` is compared with `wx.ID_CANCEL` (5101), but the message box returns `wx.OK` (4) or `wx.CANCEL` (16), so Cancel never cancels | a 2x2 clipboard table pasted onto a 1x1 selection, answered with Cancel: the table is pasted | Cancel aborts the paste (compare with `wx.CANCEL`, as the repository does elsewhere with `wx.OK` and `wx.YES`) | high, not executed | Clipboard.AnswerIgnored | Clipboard.IntendedCancels |
| src/ui/grid/grid.py:1300-1311 | `_do_find` asks `_find_have_next_cell` before comparing a cell, and that test is false on the bottom-right cell, so the last cell is never compared | a 1x1 grid whose only cell equals the query: nothing is found | every cell from the start position is compared, the last one included | medium, not executed | GridView.LastCellNeverFound | GridView.IntendedFindComplete |

`Clipboard.PastePlan` models the comparison as written and `Clipboard.CancelStillPastes`
exhibits the first row's input. `Clipboard.IntendedPastePlan` is the corrected decision.
`GridEditors.GridEditor.Paste` follows the code as written, since that is what the
editor does. Likewise `GridView.FindFirst` models the search as written, and
`GridView.OneCellGridNotFound` exhibits the second row's input. `GridView.IntendedFindFirst` is
the corrected scan. The editor's `Find` and `FindNext` follow the code as written.
