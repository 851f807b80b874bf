/** The clipboard shape rules of the grid editor: which cells a selection
    covers, what table a copy produces from the selected blocks, and what
    a paste does with a parsed clipboard table. The clipboard itself is an
    already-parsed table of strings. */
module Clipboard {
  import opened Outcomes
  import opened GridTable

  /** A selected rectangle, its corners inclusive. */
  datatype Block = Block(top: int, left: int, bottom: int, right: int)

  predicate Inside(b: Block, r: int, c: int)
  {
    b.top <= r <= b.bottom && b.left <= c <= b.right
  }

  /** The number of indices from a to b inclusive. */
  function Extent(a: int, b: int): nat
  {
    if b < a then 0 else b - a + 1
  }

  // ------------------------------------------------------- selection cells

  /** The cells of row r from column l to column h, left to right. */
  function RowSpan(r: int, l: int, h: int): (cells: seq<(int, int)>)
    ensures |cells| == Extent(l, h)
    ensures forall j :: 0 <= j < |cells| ==> cells[j] == (r, l + j)
  {
    seq(Extent(l, h), j requires 0 <= j < Extent(l, h) => (r, l + j))
  }

  /** The cells of the rows of b above row `upto`, row by row. */
  function BlockRowsCells(b: Block, upto: int): seq<(int, int)>
    decreases upto - b.top
  {
    if upto <= b.top then []
    else BlockRowsCells(b, upto - 1) + RowSpan(upto - 1, b.left, b.right)
  }

  function BlockCells(b: Block): seq<(int, int)>
  {
    BlockRowsCells(b, b.bottom + 1)
  }

  /** The cells of the blocks, block after block, each row by row. */
  function SelectionCells(blocks: seq<Block>): seq<(int, int)>
    decreases |blocks|
  {
    if blocks == [] then []
    else SelectionCells(blocks[..|blocks| - 1]) + BlockCells(blocks[|blocks| - 1])
  }

  /** The cells remove-values and cut clear: the selection, or the cursor
      cell when nothing is selected. */
  function TargetCells(blocks: seq<Block>, cursor: (int, int)): seq<(int, int)>
  {
    if blocks == [] then [cursor] else SelectionCells(blocks)
  }

  lemma {:induction false} InBlockRows(b: Block, upto: int, r: int, c: int)
    ensures (r, c) in BlockRowsCells(b, upto) <==> b.top <= r < upto && b.left <= c <= b.right
    decreases upto - b.top
  {
    if upto > b.top {
      InBlockRows(b, upto - 1, r, c);
      var span := RowSpan(upto - 1, b.left, b.right);
      if r == upto - 1 && b.left <= c <= b.right {
        assert span[c - b.left] == (r, c);
      }
    }
  }

  /** A cell is in the selection exactly when some block contains it. */
  lemma {:induction false} InSelection(blocks: seq<Block>, r: int, c: int)
    ensures (r, c) in SelectionCells(blocks) <==> exists k :: 0 <= k < |blocks| && Inside(blocks[k], r, c)
    decreases |blocks|
  {
    if blocks != [] {
      var n := |blocks| - 1;
      InSelection(blocks[..n], r, c);
      InBlockRows(blocks[n], blocks[n].bottom + 1, r, c);
      if exists k :: 0 <= k < |blocks| && Inside(blocks[k], r, c) {
        var k :| 0 <= k < |blocks| && Inside(blocks[k], r, c);
        if k < n {
          assert blocks[..n][k] == blocks[k];
        }
      }
      if exists k :: 0 <= k < n && Inside(blocks[..n][k], r, c) {
        var k :| 0 <= k < n && Inside(blocks[..n][k], r, c);
        assert blocks[k] == blocks[..n][k];
      }
    }
  }

  /** Gathers the cells of the selected blocks with the nested loops of the
      editor's remove-values, cut and paste commands. */
  method CollectCells(blocks: seq<Block>) returns (cells: seq<(int, int)>)
    ensures cells == SelectionCells(blocks)
  {
    cells := [];
    var k := 0;
    while k < |blocks|
      invariant 0 <= k <= |blocks|
      invariant cells == SelectionCells(blocks[..k])
    {
      cells := AppendBlockCells(cells, blocks[k]);
      assert blocks[..k + 1][..k] == blocks[..k];
      k := k + 1;
    }
    assert blocks[..|blocks|] == blocks;
  }

  /** The loop over the rows of one block. */
  method AppendBlockCells(cells0: seq<(int, int)>, b: Block) returns (cells: seq<(int, int)>)
    ensures cells == cells0 + BlockCells(b)
  {
    cells := cells0;
    var r := b.top;
    while r < b.bottom + 1
      invariant b.top <= r && (r <= b.bottom + 1 || r == b.top)
      invariant cells == cells0 + BlockRowsCells(b, r)
    {
      cells := AppendRowCells(cells, r, b.left, b.right);
      r := r + 1;
    }
  }

  /** The loop over the columns of one block row. */
  method AppendRowCells(cells0: seq<(int, int)>, r: int, l: int, h: int) returns (cells: seq<(int, int)>)
    ensures cells == cells0 + RowSpan(r, l, h)
  {
    cells := cells0;
    var c := l;
    while c < h + 1
      invariant l <= c && (c <= h + 1 || c == l)
      invariant cells == cells0 + RowSpan(r, l, c - 1)
    {
      assert RowSpan(r, l, c) == RowSpan(r, l, c - 1) + [(r, c)];
      cells := cells + [(r, c)];
      c := c + 1;
    }
    assert RowSpan(r, l, c - 1) == RowSpan(r, l, h);
  }

  // ------------------------------------------------------------------ copy

  predicate SameRows(a: Block, b: Block)
  {
    a.top == b.top && a.bottom == b.bottom
  }

  predicate SameCols(a: Block, b: Block)
  {
    a.left == b.left && a.right == b.right
  }

  /** Every consecutive pair of blocks shares its rows or its columns: the
      only condition copy checks. */
  predicate Aligned(blocks: seq<Block>)
  {
    forall i :: 0 <= i < |blocks| - 1 ==> SameRows(blocks[i], blocks[i + 1]) || SameCols(blocks[i], blocks[i + 1])
  }

  function Key(b: Block, byLeft: bool): int
  {
    if byLeft then b.left else b.top
  }

  predicate SortedBy(bs: seq<Block>, byLeft: bool)
  {
    forall i, j :: 0 <= i < j < |bs| ==> Key(bs[i], byLeft) <= Key(bs[j], byLeft)
  }

  /** b placed before the first element whose key is not smaller. */
  function InsertByKey(b: Block, bs: seq<Block>, byLeft: bool): (r: seq<Block>)
    ensures multiset(r) == multiset(bs) + multiset{b}
    ensures |r| == |bs| + 1
  {
    if bs == [] || Key(b, byLeft) <= Key(bs[0], byLeft) then [b] + bs
    else
      assert bs == [bs[0]] + bs[1..];
      [bs[0]] + InsertByKey(b, bs[1..], byLeft)
  }

  lemma {:induction false} InsertSorted(b: Block, bs: seq<Block>, byLeft: bool)
    requires SortedBy(bs, byLeft)
    ensures SortedBy(InsertByKey(b, bs, byLeft), byLeft)
    decreases |bs|
  {
    if bs != [] && Key(b, byLeft) > Key(bs[0], byLeft) {
      var rest := InsertByKey(b, bs[1..], byLeft);
      InsertSorted(b, bs[1..], byLeft);
      forall j | 0 <= j < |rest|
        ensures Key(bs[0], byLeft) <= Key(rest[j], byLeft)
      {
        assert rest[j] in multiset(rest);
        if rest[j] != b {
          assert rest[j] in multiset(bs[1..]);
          var i :| 0 <= i < |bs[1..]| && bs[1..][i] == rest[j];
          assert bs[i + 1] == rest[j];
        }
      }
    }
  }

  /** Python's stable `sorted` of the blocks on their left column (byLeft)
      or their top row. */
  function SortBy(bs: seq<Block>, byLeft: bool): (r: seq<Block>)
    ensures SortedBy(r, byLeft)
    ensures multiset(r) == multiset(bs)
    ensures |r| == |bs|
  {
    if bs == [] then []
    else
      assert bs == [bs[0]] + bs[1..];
      InsertSorted(bs[0], SortBy(bs[1..], byLeft), byLeft);
      InsertByKey(bs[0], SortBy(bs[1..], byLeft), byLeft)
  }

  /** What the view shows in row r from column l to column h. */
  function Span(t: Table, r: int, l: int, h: int): (row: Row)
    ensures |row| == Extent(l, h)
    ensures forall j :: 0 <= j < |row| ==> row[j] == ViewCell(t, r, l + j)
  {
    seq(Extent(l, h), j requires 0 <= j < Extent(l, h) => ViewCell(t, r, l + j))
  }

  /** Row r read across the blocks in order. */
  function Across(t: Table, bs: seq<Block>, r: int): Row
    decreases |bs|
  {
    if bs == [] then []
    else
      var n := |bs| - 1;
      Across(t, bs[..n], r) + Span(t, r, bs[n].left, bs[n].right)
  }

  /** Rows top..bottom read across the blocks: the side-by-side layout. */
  function SideBySide(t: Table, bs: seq<Block>, top: int, bottom: int): (table: Table)
    ensures |table| == Extent(top, bottom)
    ensures forall i :: 0 <= i < |table| ==> table[i] == Across(t, bs, top + i)
  {
    seq(Extent(top, bottom), i requires 0 <= i < Extent(top, bottom) => Across(t, bs, top + i))
  }

  function BlockTable(t: Table, b: Block): Table
  {
    SideBySide(t, [b], b.top, b.bottom)
  }

  /** The blocks' tables one under another: the stacked layout. */
  function Stacked(t: Table, bs: seq<Block>): Table
    decreases |bs|
  {
    if bs == [] then []
    else
      var n := |bs| - 1;
      Stacked(t, bs[..n]) + BlockTable(t, bs[n])
  }

  datatype CopyError = MixedLayout

  /** The table copy puts on the clipboard, from the grid contents t, the
      selected blocks and the cursor. */
  function CopyTable(t: Table, blocks: seq<Block>, cursor: (int, int)): Result<Table, CopyError>
  {
    if blocks == [] then Ok(BlockTable(t, Block(cursor.0, cursor.1, cursor.0, cursor.1)))
    else if !Aligned(blocks) then Err(MixedLayout)
    else if |blocks| == 1 then Ok(BlockTable(t, blocks[0]))
    else if SameRows(blocks[0], blocks[1]) then
      var bs := SortBy(blocks, true);
      Ok(SideBySide(t, bs, bs[0].top, bs[0].bottom))
    else if SameCols(blocks[0], blocks[1]) then Ok(Stacked(t, SortBy(blocks, false)))
    else Ok([])
  }

  /** Reads the table copy puts on the clipboard with the loops copy runs. */
  method ReadCopy(t: Table, blocks: seq<Block>, cursor: (int, int)) returns (r: Result<Table, CopyError>)
    ensures r == CopyTable(t, blocks, cursor)
  {
    var bs := blocks;
    if |bs| == 0 {
      bs := [Block(cursor.0, cursor.1, cursor.0, cursor.1)];
    } else {
      var i := 0;
      while i < |bs| - 1
        invariant 0 <= i <= |bs| - 1
        invariant Aligned(bs[..i + 1])
      {
        if !SameRows(bs[i], bs[i + 1]) && !SameCols(bs[i], bs[i + 1]) {
          assert !Aligned(bs);
          return Err(MixedLayout);
        }
        i := i + 1;
      }
      assert bs[..|bs|] == bs;
    }
    var table: Table := [];
    if |bs| == 1 {
      table := ReadRows(t, bs, bs[0].top, bs[0].bottom);
      assert [bs[0]] == bs;
    } else if SameRows(bs[0], bs[1]) {
      bs := SortBy(bs, true);
      table := ReadRows(t, bs, bs[0].top, bs[0].bottom);
    } else if SameCols(bs[0], bs[1]) {
      bs := SortBy(bs, false);
      var k := 0;
      while k < |bs|
        invariant 0 <= k <= |bs|
        invariant table == Stacked(t, bs[..k])
      {
        var part := ReadRows(t, [bs[k]], bs[k].top, bs[k].bottom);
        assert bs[..k + 1][..k] == bs[..k];
        table := table + part;
        k := k + 1;
      }
      assert bs[..|bs|] == bs;
    }
    return Ok(table);
  }

  /** Rows top..bottom read across the blocks, cell by cell. */
  method ReadRows(t: Table, bs: seq<Block>, top: int, bottom: int) returns (table: Table)
    ensures table == SideBySide(t, bs, top, bottom)
  {
    table := [];
    var r := top;
    while r < bottom + 1
      invariant top <= r && (r <= bottom + 1 || r == top)
      invariant table == SideBySide(t, bs, top, r - 1)
    {
      var row: Row := [];
      var k := 0;
      while k < |bs|
        invariant 0 <= k <= |bs|
        invariant row == Across(t, bs[..k], r)
      {
        var c := bs[k].left;
        while c < bs[k].right + 1
          invariant bs[k].left <= c && (c <= bs[k].right + 1 || c == bs[k].left)
          invariant row == Across(t, bs[..k], r) + Span(t, r, bs[k].left, c - 1)
        {
          assert Span(t, r, bs[k].left, c) == Span(t, r, bs[k].left, c - 1) + [ViewCell(t, r, c)];
          row := row + [ViewCell(t, r, c)];
          c := c + 1;
        }
        assert Span(t, r, bs[k].left, c - 1) == Span(t, r, bs[k].left, bs[k].right);
        assert bs[..k + 1][..k] == bs[..k];
        k := k + 1;
      }
      assert bs[..|bs|] == bs;
      assert SideBySide(t, bs, top, r) == SideBySide(t, bs, top, r - 1) + [row];
      table := table + [row];
      r := r + 1;
    }
    assert SideBySide(t, bs, top, r - 1) == SideBySide(t, bs, top, bottom);
  }

  /** The width of a block: the number of columns it spans. */
  function Width(b: Block): nat { Extent(b.left, b.right) }

  function TotalWidth(bs: seq<Block>): nat
    decreases |bs|
  {
    if bs == [] then 0 else TotalWidth(bs[..|bs| - 1]) + Width(bs[|bs| - 1])
  }

  function TotalHeight(bs: seq<Block>): nat
    decreases |bs|
  {
    if bs == [] then 0 else TotalHeight(bs[..|bs| - 1]) + Extent(bs[|bs| - 1].top, bs[|bs| - 1].bottom)
  }

  lemma {:induction false} AcrossLength(t: Table, bs: seq<Block>, r: int)
    ensures |Across(t, bs, r)| == TotalWidth(bs)
    decreases |bs|
  {
    if bs != [] {
      AcrossLength(t, bs[..|bs| - 1], r);
    }
  }

  lemma {:induction false} TotalWidthCons(b: Block, bs: seq<Block>)
    ensures TotalWidth([b] + bs) == Width(b) + TotalWidth(bs)
    decreases |bs|
  {
    if bs != [] {
      var n := |bs| - 1;
      assert ([b] + bs)[..|bs|] == [b] + bs[..n];
      TotalWidthCons(b, bs[..n]);
    }
  }

  lemma {:induction false} TotalWidthInsert(b: Block, bs: seq<Block>, byLeft: bool)
    ensures TotalWidth(InsertByKey(b, bs, byLeft)) == Width(b) + TotalWidth(bs)
    decreases |bs|
  {
    if bs == [] || Key(b, byLeft) <= Key(bs[0], byLeft) {
      TotalWidthCons(b, bs);
    } else {
      assert bs == [bs[0]] + bs[1..];
      TotalWidthInsert(b, bs[1..], byLeft);
      TotalWidthCons(bs[0], InsertByKey(b, bs[1..], byLeft));
      TotalWidthCons(bs[0], bs[1..]);
    }
  }

  lemma {:induction false} TotalWidthSorted(bs: seq<Block>, byLeft: bool)
    ensures TotalWidth(SortBy(bs, byLeft)) == TotalWidth(bs)
    decreases |bs|
  {
    if bs != [] {
      assert bs == [bs[0]] + bs[1..];
      TotalWidthSorted(bs[1..], byLeft);
      TotalWidthInsert(bs[0], SortBy(bs[1..], byLeft), byLeft);
      TotalWidthCons(bs[0], bs[1..]);
    }
  }

  lemma {:induction false} TotalHeightCons(b: Block, bs: seq<Block>)
    ensures TotalHeight([b] + bs) == Extent(b.top, b.bottom) + TotalHeight(bs)
    decreases |bs|
  {
    if bs != [] {
      var n := |bs| - 1;
      assert ([b] + bs)[..|bs|] == [b] + bs[..n];
      TotalHeightCons(b, bs[..n]);
    }
  }

  lemma {:induction false} TotalHeightInsert(b: Block, bs: seq<Block>, byLeft: bool)
    ensures TotalHeight(InsertByKey(b, bs, byLeft)) == Extent(b.top, b.bottom) + TotalHeight(bs)
    decreases |bs|
  {
    if bs == [] || Key(b, byLeft) <= Key(bs[0], byLeft) {
      TotalHeightCons(b, bs);
    } else {
      assert bs == [bs[0]] + bs[1..];
      TotalHeightInsert(b, bs[1..], byLeft);
      TotalHeightCons(bs[0], InsertByKey(b, bs[1..], byLeft));
      TotalHeightCons(bs[0], bs[1..]);
    }
  }

  lemma {:induction false} TotalHeightSorted(bs: seq<Block>, byLeft: bool)
    ensures TotalHeight(SortBy(bs, byLeft)) == TotalHeight(bs)
    decreases |bs|
  {
    if bs != [] {
      assert bs == [bs[0]] + bs[1..];
      TotalHeightSorted(bs[1..], byLeft);
      TotalHeightInsert(bs[0], SortBy(bs[1..], byLeft), byLeft);
      TotalHeightCons(bs[0], bs[1..]);
    }
  }

  lemma {:induction false} StackedLength(t: Table, bs: seq<Block>)
    ensures |Stacked(t, bs)| == TotalHeight(bs)
    decreases |bs|
  {
    if bs != [] {
      StackedLength(t, bs[..|bs| - 1]);
    }
  }

  /** With nothing selected copy takes the cursor cell alone. */
  lemma CopyCursorCell(t: Table, cursor: (int, int))
    ensures CopyTable(t, [], cursor) == Ok([[ViewCell(t, cursor.0, cursor.1)]])
  {
    var b := Block(cursor.0, cursor.1, cursor.0, cursor.1);
    var table := BlockTable(t, b);
    assert [b][..0] == [];
    assert Across(t, [b], cursor.0) == [ViewCell(t, cursor.0, cursor.1)];
    assert table == [Across(t, [b], cursor.0)];
  }

  /** A selection is refused exactly when some consecutive pair of blocks
      shares neither its rows nor its columns. */
  lemma CopyRefusesIff(t: Table, blocks: seq<Block>, cursor: (int, int))
    requires blocks != []
    ensures CopyTable(t, blocks, cursor).Err? <==>
      exists i :: 0 <= i < |blocks| - 1 && !SameRows(blocks[i], blocks[i + 1]) && !SameCols(blocks[i], blocks[i + 1])
  {
  }

  /** A single block copies as its own rectangle of view cells: row i is
      what the view shows in the block's row top + i. */
  lemma BlockTableRow(t: Table, b: Block, i: int)
    requires 0 <= i < Extent(b.top, b.bottom)
    ensures |BlockTable(t, b)| == Extent(b.top, b.bottom)
    ensures BlockTable(t, b)[i] == Span(t, b.top + i, b.left, b.right)
  {
    assert [b][..0] == [];
    assert BlockTable(t, b)[i] == Across(t, [b], b.top + i);
    assert Across(t, [b], b.top + i) == Across(t, [], b.top + i) + Span(t, b.top + i, b.left, b.right);
  }

  /** Blocks sharing their rows copy side by side: one row per row of the
      first block in left-column order, each as wide as all blocks
      together. */
  lemma CopySideBySideShape(t: Table, blocks: seq<Block>, cursor: (int, int), i: int)
    requires |blocks| >= 2 && Aligned(blocks) && SameRows(blocks[0], blocks[1])
    requires 0 <= i < |CopyTable(t, blocks, cursor).value|
    ensures |CopyTable(t, blocks, cursor).value[i]| == TotalWidth(blocks)
  {
    var bs := SortBy(blocks, true);
    AcrossLength(t, bs, bs[0].top + i);
    TotalWidthSorted(blocks, true);
  }

  /** Blocks sharing their columns copy stacked: as many rows as all blocks
      together. */
  lemma CopyStackedShape(t: Table, blocks: seq<Block>, cursor: (int, int))
    requires |blocks| >= 2 && Aligned(blocks) && !SameRows(blocks[0], blocks[1])
    ensures CopyTable(t, blocks, cursor).Ok?
    ensures |CopyTable(t, blocks, cursor).value| == TotalHeight(blocks)
  {
    StackedLength(t, SortBy(blocks, false));
    TotalHeightSorted(blocks, false);
  }

  /** The blocks of a mixed layout: one cell, the cell to its right, and
      the cell under that one. */
  function MixedBlocks(r: int, c: int): seq<Block>
  {
    [Block(r, c, r, c), Block(r, c + 1, r, c + 1), Block(r + 1, c + 1, r + 1, c + 1)]
  }

  /** The consecutive-pair check lets a mixed layout through: two blocks
      side by side followed by one under the second are copied as the rows
      of the first block only, so the third block's own cell is never read
      and the cell above it is copied twice. */
  lemma MixedLayoutCopied(t: Table, r: int, c: int, cursor: (int, int))
    ensures Aligned(MixedBlocks(r, c))
    ensures CopyTable(t, MixedBlocks(r, c), cursor) ==
      Ok([[ViewCell(t, r, c), ViewCell(t, r, c + 1), ViewCell(t, r, c + 1)]])
  {
    MixedAligned(r, c);
    MixedCopyIsSideBySide(t, r, c, cursor);
    MixedTable(t, r, c);
  }

  lemma MixedAligned(r: int, c: int)
    ensures Aligned(MixedBlocks(r, c))
  {
    var blocks := MixedBlocks(r, c);
    assert SameRows(blocks[0], blocks[1]) && SameCols(blocks[1], blocks[2]);
  }

  lemma MixedCopyIsSideBySide(t: Table, r: int, c: int, cursor: (int, int))
    requires Aligned(MixedBlocks(r, c))
    ensures CopyTable(t, MixedBlocks(r, c), cursor) == Ok(SideBySide(t, MixedBlocks(r, c), r, r))
  {
    MixedSorted(r, c);
    SideBySideCopy(t, MixedBlocks(r, c), cursor);
  }

  lemma MixedTable(t: Table, r: int, c: int)
    ensures SideBySide(t, MixedBlocks(r, c), r, r) == [[ViewCell(t, r, c), ViewCell(t, r, c + 1), ViewCell(t, r, c + 1)]]
  {
    var blocks := MixedBlocks(r, c);
    MixedRow(t, r, c);
    var table := SideBySide(t, blocks, r, r);
    assert |table| == 1 && table[0] == Across(t, blocks, r);
  }

  lemma SideBySideCopy(t: Table, blocks: seq<Block>, cursor: (int, int))
    requires |blocks| >= 2 && Aligned(blocks) && SameRows(blocks[0], blocks[1])
    ensures var bs := SortBy(blocks, true);
      CopyTable(t, blocks, cursor) == Ok(SideBySide(t, bs, bs[0].top, bs[0].bottom))
  {
  }

  lemma MixedSorted(r: int, c: int)
    ensures SortBy(MixedBlocks(r, c), true) == MixedBlocks(r, c)
  {
    var blocks := MixedBlocks(r, c);
    assert blocks[1..][1..] == [blocks[2]];
    assert SortBy([blocks[2]], true) == [blocks[2]];
    assert SortBy(blocks[1..], true) == InsertByKey(blocks[1], [blocks[2]], true);
  }

  lemma MixedRow(t: Table, r: int, c: int)
    ensures Across(t, MixedBlocks(r, c), r) == [ViewCell(t, r, c), ViewCell(t, r, c + 1), ViewCell(t, r, c + 1)]
  {
    var blocks := MixedBlocks(r, c);
    assert blocks[..2][..1] == [blocks[0]] && [blocks[0]][..0] == [];
    assert blocks[..2] == [blocks[0], blocks[1]];
    assert Span(t, r, c, c) == [ViewCell(t, r, c)];
    assert Span(t, r, c + 1, c + 1) == [ViewCell(t, r, c + 1)];
    assert Across(t, [blocks[0]], r) == [ViewCell(t, r, c)];
    assert Across(t, blocks[..2], r) == [ViewCell(t, r, c), ViewCell(t, r, c + 1)];
  }

  /** Pasting a copied block back where it came from leaves the grid as it
      was. */
  lemma CopyPasteInPlace(t: Table, b: Block)
    requires 0 <= b.top && 0 <= b.left
    ensures WriteAll(t, PasteWrites(BlockTable(t, b), b.top, b.left)) == t
  {
    BlockTableShown(t, b);
    PasteShownValues(t, BlockTable(t, b), b.top, b.left);
  }

  lemma BlockTableShown(t: Table, b: Block)
    ensures var table := BlockTable(t, b);
      forall i, j :: 0 <= i < |table| && 0 <= j < |table[i]| ==> table[i][j] == ViewCell(t, b.top + i, b.left + j)
  {
    var table := BlockTable(t, b);
    forall i, j | 0 <= i < |table| && 0 <= j < |table[i]|
      ensures table[i][j] == ViewCell(t, b.top + i, b.left + j)
    {
      BlockTableRow(t, b, i);
      var row := Span(t, b.top + i, b.left, b.right);
      assert table[i] == row && row[j] == ViewCell(t, b.top + i, b.left + j);
    }
  }

  /** Pasting what the view already shows changes nothing. */
  lemma PasteShownValues(t: Table, table: Table, r0: int, c0: int)
    requires 0 <= r0 && 0 <= c0
    requires forall i, j :: 0 <= i < |table| && 0 <= j < |table[i]| ==> table[i][j] == ViewCell(t, r0 + i, c0 + j)
    ensures WriteAll(t, PasteWrites(table, r0, c0)) == t
  {
    var u := WriteAll(t, PasteWrites(table, r0, c0));
    forall r, c | 0 <= r < |u| && 0 <= c < |u[r]|
      ensures u[r][c] == t[r][c]
    {
      PasteEffect(t, table, r0, c0, r, c);
    }
    TableExt(u, t);
  }

  // ----------------------------------------------------------------- paste

  /** The rows of a parsed clipboard text that hold at least one field. */
  function NonEmptyRows(clip: Table): (table: Table)
    ensures |table| <= |clip|
    decreases |clip|
  {
    if clip == [] then []
    else
      var n := |clip| - 1;
      var front := NonEmptyRows(clip[..n]);
      if |clip[n]| > 0 then front + [clip[n]] else front
  }

  /** The rows kept are non-empty rows of the clipboard, and every
      non-empty clipboard row is kept. */
  lemma {:induction false} NonEmptyRowsKept(clip: Table)
    ensures forall i :: 0 <= i < |NonEmptyRows(clip)| ==> |NonEmptyRows(clip)[i]| > 0 && NonEmptyRows(clip)[i] in clip
    ensures forall row :: row in clip && |row| > 0 ==> row in NonEmptyRows(clip)
    decreases |clip|
  {
    if clip != [] {
      var n := |clip| - 1;
      var pre := clip[..n];
      var front := NonEmptyRows(pre);
      NonEmptyRowsKept(pre);
      var t := NonEmptyRows(clip);
      assert t == if |clip[n]| > 0 then front + [clip[n]] else front;
      forall i | 0 <= i < |t|
        ensures |t[i]| > 0 && t[i] in clip
      {
        if i < |front| {
          assert t[i] == front[i];
          var j :| 0 <= j < |pre| && pre[j] == front[i];
          assert clip[j] == pre[j];
        } else {
          assert t[i] == clip[n];
        }
      }
      forall row | row in clip && |row| > 0
        ensures row in t
      {
        var k :| 0 <= k < |clip| && clip[k] == row;
        if k < n {
          assert pre[k] == row;
        } else {
          assert t[|t| - 1] == row;
        }
      }
    }
  }

  /** Keeps the non-empty rows in the order the reader yields them. */
  method DropEmptyRows(clip: Table) returns (table: Table)
    ensures table == NonEmptyRows(clip)
  {
    table := [];
    var i := 0;
    while i < |clip|
      invariant 0 <= i <= |clip|
      invariant table == NonEmptyRows(clip[..i])
    {
      assert clip[..i + 1][..i] == clip[..i];
      if |clip[i]| > 0 {
        table := table + [clip[i]];
      }
      i := i + 1;
    }
    assert clip[..|clip|] == clip;
  }

  /** What a paste does with the clipboard table. */
  datatype PasteAction =
    | Ignore                              // no non-empty row: nothing happens
    | SetAll(cells: seq<(int, int)>, value: string)  // one set-value command
    | MultipleSelections                  // raises: a table over several blocks
    | Cancelled                           // the size-mismatch question was declined
    | NotEnoughColumns                    // raises before any command
    | Place(row: int, col: int, append: nat, table: Table)  // append rows if any, then paste

  function Abs(x: int): nat { if x < 0 then -x else x }

  function Normalize(i: int): int { if i == -1 then 0 else i }

  /** The buttons of the size-mismatch message box. */
  datatype Answer = OkButton | CancelButton

  /** wx.OK and wx.CANCEL are the style flags wx.MessageBox returns for its
      buttons; wx.ID_CANCEL is the identifier ShowModal returns for a
      dialog's cancel button. */
  const WxOk: int := 4
  const WxCancel: int := 16
  const WxIdCancel: int := 5101

  /** What wx.MessageBox returns when the given button is pressed. */
  function MessageBoxResult(a: Answer): int
  {
    match a
    case OkButton => WxOk
    case CancelButton => WxCancel
  }

  /** The single selected block and the table differ in size, for a table of
      more than one cell: the case in which the question is asked. */
  predicate SizeMismatch(clip: Table, blocks: seq<Block>)
  {
    var table := NonEmptyRows(clip);
    table != [] && !(|table| == 1 && |table[0]| == 1) && |blocks| == 1 &&
    (Abs(blocks[0].right - blocks[0].left) + 1 != |table[0]| ||
     Abs(blocks[0].top - blocks[0].bottom) + 1 != |table|)
  }

  /** The paste decision from the clipboard rows, the selected blocks, the
      cursor, the grid size and whether the mismatch question was declined. */
  function PasteDecision(clip: Table, blocks: seq<Block>, cursor: (int, int), nrows: int, ncols: int,
                         declined: bool): PasteAction
  {
    var cr := Normalize(cursor.0);
    var cc := Normalize(cursor.1);
    var table := NonEmptyRows(clip);
    if table == [] then Ignore
    else if |table| == 1 && |table[0]| == 1 then
      SetAll(if blocks == [] then [(cr, cc)] else SelectionCells(blocks), table[0][0])
    else if |blocks| > 1 then MultipleSelections
    else if |blocks| == 1 && declined &&
            (Abs(blocks[0].right - blocks[0].left) + 1 != |table[0]| ||
             Abs(blocks[0].top - blocks[0].bottom) + 1 != |table|) then Cancelled
    else
      var r0 := if |blocks| == 1 then blocks[0].top else cr;
      var c0 := if |blocks| == 1 then blocks[0].left else cc;
      if |table[0]| > ncols - c0 then NotEnoughColumns
      else
        var deficit := |table| - (nrows - r0);
        Place(r0, c0, if deficit > 0 then deficit else 0, table)
  }

  /** paste as written: ret is what the message box returned, and the paste
      is cancelled only when it equals wx.ID_CANCEL. */
  function PastePlan(clip: Table, blocks: seq<Block>, cursor: (int, int), nrows: int, ncols: int,
                     ret: int): PasteAction
  {
    PasteDecision(clip, blocks, cursor, nrows, ncols, ret == WxIdCancel)
  }

  /** paste as evidently intended: the Cancel button (wx.CANCEL) cancels. */
  function IntendedPastePlan(clip: Table, blocks: seq<Block>, cursor: (int, int), nrows: int, ncols: int,
                             ret: int): PasteAction
  {
    PasteDecision(clip, blocks, cursor, nrows, ncols, ret == WxCancel)
  }

  /** As written, no button of the message box cancels: Cancel pastes
      exactly as OK does. */
  lemma AnswerIgnored(clip: Table, blocks: seq<Block>, cursor: (int, int), nrows: int, ncols: int, a: Answer)
    ensures PastePlan(clip, blocks, cursor, nrows, ncols, MessageBoxResult(a)) ==
            PastePlan(clip, blocks, cursor, nrows, ncols, MessageBoxResult(OkButton))
    ensures !PastePlan(clip, blocks, cursor, nrows, ncols, MessageBoxResult(a)).Cancelled?
  {
    assert MessageBoxResult(a) != WxIdCancel;
    NeverDeclined(clip, blocks, cursor, nrows, ncols);
  }

  lemma NeverDeclined(clip: Table, blocks: seq<Block>, cursor: (int, int), nrows: int, ncols: int)
    ensures !PasteDecision(clip, blocks, cursor, nrows, ncols, false).Cancelled?
  {
  }

  /** A 2x2 table pasted onto a 1x1 selection, answered with Cancel: the
      code as written pastes it, the intended code cancels. */
  lemma CancelStillPastes()
    ensures PastePlan([["a", "b"], ["c", "d"]], [Block(0, 0, 0, 0)], (0, 0), 2, 2, MessageBoxResult(CancelButton)) ==
            Place(0, 0, 0, [["a", "b"], ["c", "d"]])
    ensures IntendedPastePlan([["a", "b"], ["c", "d"]], [Block(0, 0, 0, 0)], (0, 0), 2, 2, MessageBoxResult(CancelButton)) ==
            Cancelled
  {
    var clip: Table := [["a", "b"], ["c", "d"]];
    assert NonEmptyRows(clip[..1]) == [["a", "b"]] by {
      assert clip[..1][..0] == [];
    }
    assert clip[..2][..1] == clip[..1];
    assert clip[..2] == clip;
  }

  /** The intended plan cancels exactly when the question is asked and
      answered with Cancel; answered with OK, or not asked, it is the plan
      as written. */
  lemma IntendedCancels(clip: Table, blocks: seq<Block>, cursor: (int, int), nrows: int, ncols: int, a: Answer)
    ensures IntendedPastePlan(clip, blocks, cursor, nrows, ncols, MessageBoxResult(a)) == Cancelled <==>
            a == CancelButton && SizeMismatch(clip, blocks)
    ensures a == OkButton || !SizeMismatch(clip, blocks) ==>
            IntendedPastePlan(clip, blocks, cursor, nrows, ncols, MessageBoxResult(a)) ==
            PastePlan(clip, blocks, cursor, nrows, ncols, MessageBoxResult(a))
  {
    NeverDeclined(clip, blocks, cursor, nrows, ncols);
  }

  /** paste's decision from the selection, the cursor and the rows read
    from the clipboard, taken before any command is submitted. */
  method PlanPaste(clip: Table, blocks: seq<Block>, cursor: (int, int), nrows: int, ncols: int, ret: int)
    returns (action: PasteAction)
    ensures action == PastePlan(clip, blocks, cursor, nrows, ncols, ret)
  {
    var cursorRow, cursorCol := cursor.0, cursor.1;
    if cursorRow == -1 {
      cursorRow := 0;
    }
    if cursorCol == -1 {
      cursorCol := 0;
    }
    assert cursorRow == Normalize(cursor.0) && cursorCol == Normalize(cursor.1);
    var table := DropEmptyRows(clip);
    if |table| == 0 {
      return Ignore;
    }
    if |table| == 1 && |table[0]| == 1 {
      var cells: seq<(int, int)>;
      if |blocks| > 0 {
        cells := CollectCells(blocks);
      } else {
        cells := [(cursorRow, cursorCol)];
      }
      return SetAll(cells, table[0][0]);
    }
    if |blocks| > 1 {
      return MultipleSelections;
    }
    var startRow, startCol;
    if |blocks| == 1 {
      startRow, startCol := blocks[0].top, blocks[0].left;
      if Abs(blocks[0].right - blocks[0].left) + 1 != |table[0]| || Abs(blocks[0].top - blocks[0].bottom) + 1 != |table| {
        if ret == WxIdCancel {
          return Cancelled;
        }
      }
    } else {
      startRow, startCol := cursorRow, cursorCol;
    }
    if |table[0]| > ncols - startCol {
      return NotEnoughColumns;
    }
    var rowsToAppend := |table| - (nrows - startRow);
    action := Place(startRow, startCol, if rowsToAppend > 0 then rowsToAppend else 0, table);
  }

  /** A clipboard without a non-empty row does nothing. */
  lemma PasteEmptyIgnored(clip: Table, blocks: seq<Block>, cursor: (int, int), nrows: int, ncols: int,
                          ret: int)
    requires forall i :: 0 <= i < |clip| ==> clip[i] == []
    ensures PastePlan(clip, blocks, cursor, nrows, ncols, ret) == Ignore
  {
    NonEmptyRowsKept(clip);
  }

  /** A single value goes to every cell of every selected block, or to the
      cursor cell (a missing cursor read as 0) when nothing is selected. */
  lemma PasteOneValue(clip: Table, blocks: seq<Block>, cursor: (int, int), nrows: int, ncols: int,
                      ret: int, v: string, r: int, c: int)
    requires NonEmptyRows(clip) == [[v]]
    requires blocks != [] ==> exists k :: 0 <= k < |blocks| && Inside(blocks[k], r, c)
    requires blocks == [] ==> (r, c) == (Normalize(cursor.0), Normalize(cursor.1))
    ensures PastePlan(clip, blocks, cursor, nrows, ncols, ret).SetAll?
    ensures PastePlan(clip, blocks, cursor, nrows, ncols, ret).value == v
    ensures (r, c) in PastePlan(clip, blocks, cursor, nrows, ncols, ret).cells
  {
    InSelection(blocks, r, c);
  }

  /** A table of more than one cell refuses several selected blocks. */
  lemma PasteTableNeedsOneBlock(clip: Table, blocks: seq<Block>, cursor: (int, int), nrows: int, ncols: int,
                                ret: int)
    requires NonEmptyRows(clip) != [] && |NonEmptyRows(clip)| + |NonEmptyRows(clip)[0]| > 2
    requires |blocks| > 1
    ensures PastePlan(clip, blocks, cursor, nrows, ncols, ret) == MultipleSelections
  {
  }

  /** A placed table starts inside the grid, its first row fits in the
      columns from the start column, and the rows appended first are
      exactly the ones missing below the start row. */
  lemma PastePlaceFits(clip: Table, blocks: seq<Block>, cursor: (int, int), nrows: int, ncols: int,
                       ret: int)
    requires cursor.0 >= -1 && cursor.1 >= -1
    requires forall k :: 0 <= k < |blocks| ==> blocks[k].top >= 0 && blocks[k].left >= 0
    requires PastePlan(clip, blocks, cursor, nrows, ncols, ret).Place?
    ensures var p := PastePlan(clip, blocks, cursor, nrows, ncols, ret);
      p.row >= 0 && p.col >= 0 && p.table == NonEmptyRows(clip) &&
      p.col + |p.table[0]| <= ncols &&
      p.row + |p.table| <= nrows + p.append &&
      (p.append > 0 ==> p.row + |p.table| == nrows + p.append)
  {
  }

  /** The width check looks at the first row only: a longer later row is
      placed even though it runs past the last column. */
  lemma PasteRaggedTablePlaced()
    ensures PastePlan([["a"], ["b", "c"]], [], (0, 0), 2, 1, WxOk) == Place(0, 0, 0, [["a"], ["b", "c"]])
  {
    RaggedRowsKept();
  }

  lemma RaggedRowsKept()
    ensures NonEmptyRows([["a"], ["b", "c"]]) == [["a"], ["b", "c"]]
  {
    var clip: Table := [["a"], ["b", "c"]];
    assert clip[..1] == [["a"]];
    assert NonEmptyRows(clip[..1]) == [["a"]] by {
      assert clip[..1][..0] == [];
    }
  }
}
