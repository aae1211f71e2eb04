// Column widths and row heights across row and column edits: the copy loops of addRow,
// deleteRow, addColumn and deleteColumn in src/store/spreadsheetStore.ts.

module Metadata {
  import opened Types
  import opened Text
  import opened CellUtils
  import opened Sheet

  /** Which of the two dictionaries a loop walks: heights are keyed by `row.toString()`,
      widths by the letter `String.fromCharCode(65 + col)`. */
  datatype Axis = Rows | Columns

  function AxisKey(axis: Axis, i: int): string {
    match axis
    case Rows => HeightKey(i)
    case Columns => WidthKey(i)
  }

  /** `m[dst] = m[src]`. Assigning a missing entry stores `undefined`, which every reader
      treats like a missing key, so the model removes `dst` instead. */
  function CopyKey(m: map<string, int>, dst: string, src: string): (r: map<string, int>)
    ensures src in m <==> dst in r
    ensures src in m ==> r[dst] == m[src]
    ensures forall k :: k != dst ==> (k in r <==> k in m)
    ensures forall k :: k != dst && k in r ==> r[k] == m[k]
  {
    if src in m then m[dst := m[src]] else m - {dst}
  }

  /** The downward loop `for (i = top; i > r; i--) m[key(i)] = m[key(i - 1)]`, stopped once
      the loop variable has reached `r`. */
  function DownTo(m: map<string, int>, axis: Axis, top: int, r: int): map<string, int>
    decreases top - r
  {
    if r >= top then m else CopyKey(DownTo(m, axis, top, r + 1), AxisKey(axis, r + 1), AxisKey(axis, r))
  }

  /** The upward loop `for (i = lo; i < r; i++) m[key(i)] = m[key(i + 1)]`, stopped once the
      loop variable has reached `r`. */
  function UpFrom(m: map<string, int>, axis: Axis, lo: int, r: int): map<string, int>
    decreases r - lo
  {
    if r <= lo then m else CopyKey(UpFrom(m, axis, lo, r - 1), AxisKey(axis, r - 1), AxisKey(axis, r))
  }

  /** Entry `ka` of `a` is entry `kb` of `b`: both missing, or both present and equal. */
  predicate Agree(a: map<string, int>, ka: string, b: map<string, int>, kb: string) {
    (ka in a <==> kb in b) && (ka in a ==> a[ka] == b[kb])
  }

  /** No two indices of [lo, hi] share a key. */
  predicate KeyInjective(axis: Axis, lo: int, hi: int) {
    forall i, j :: lo <= i <= hi && lo <= j <= hi && AxisKey(axis, i) == AxisKey(axis, j) ==> i == j
  }

  /** `k` is not the key of an index in (lo, hi]. */
  predicate Outside(axis: Axis, k: string, lo: int, hi: int) {
    forall i :: lo < i <= hi ==> AxisKey(axis, i) != k
  }

  lemma RowKeysInjective(lo: int, hi: int)
    ensures KeyInjective(Rows, lo, hi)
  {
    HeightKeyInjective();
  }

  /** Letters are distinct up to the first UTF-16 surrogate. */
  lemma ColumnKeysInjective(lo: int, hi: int)
    requires -65 <= lo && hi < 0xD800 - 65
    ensures KeyInjective(Columns, lo, hi)
  {
    forall i, j | lo <= i <= hi && lo <= j <= hi && AxisKey(Columns, i) == AxisKey(Columns, j)
      ensures i == j
    {
      assert CharCode(65 + i) == AxisKey(Columns, i)[0];
      assert CharCode(65 + j) == AxisKey(Columns, j)[0];
    }
  }

  /** The downward loop leaves alone every key it does not write. */
  lemma {:induction false} DownToFrame(m: map<string, int>, axis: Axis, top: int, r: int, k: string)
    requires Outside(axis, k, r, top)
    ensures Agree(DownTo(m, axis, top, r), k, m, k)
    decreases top - r
  {
    if r < top {
      assert AxisKey(axis, r + 1) != k;
      DownToFrame(m, axis, top, r + 1, k);
    }
  }

  /** The downward loop moves the entry of index `i - 1` to index `i`, for every `i` of
      (r, top]: it reads each index before it writes it, because it walks from the top. */
  lemma {:induction false} DownToShift(m: map<string, int>, axis: Axis, top: int, r: int, i: int)
    requires r < i <= top && KeyInjective(axis, r, top)
    ensures Agree(DownTo(m, axis, top, r), AxisKey(axis, i), m, AxisKey(axis, i - 1))
    decreases top - r
  {
    if i == r + 1 {
      assert Outside(axis, AxisKey(axis, r), r + 1, top);
      DownToFrame(m, axis, top, r + 1, AxisKey(axis, r));
    } else {
      assert AxisKey(axis, i) != AxisKey(axis, r + 1);
      DownToShift(m, axis, top, r + 1, i);
    }
  }

  /** The upward loop leaves alone every key it does not write. */
  lemma {:induction false} UpFromFrame(m: map<string, int>, axis: Axis, lo: int, r: int, k: string)
    requires Outside(axis, k, lo - 1, r - 1)
    ensures Agree(UpFrom(m, axis, lo, r), k, m, k)
    decreases r - lo
  {
    if lo < r {
      assert AxisKey(axis, r - 1) != k;
      UpFromFrame(m, axis, lo, r - 1, k);
    }
  }

  /** The upward loop moves the entry of index `i + 1` to index `i`, for every `i` of
      [lo, r). */
  lemma {:induction false} UpFromShift(m: map<string, int>, axis: Axis, lo: int, r: int, i: int)
    requires lo <= i < r && KeyInjective(axis, lo, r)
    ensures Agree(UpFrom(m, axis, lo, r), AxisKey(axis, i), m, AxisKey(axis, i + 1))
    decreases r - lo
  {
    if i == r - 1 {
      assert Outside(axis, AxisKey(axis, r), lo - 1, r - 2);
      UpFromFrame(m, axis, lo, r - 1, AxisKey(axis, r));
    } else {
      assert AxisKey(axis, i) != AxisKey(axis, r - 1);
      UpFromShift(m, axis, lo, r - 1, i);
    }
  }

  /** The loop behind `DownTo`, as the store runs it. */
  method ShiftDown(m: map<string, int>, axis: Axis, top: int, lo: int) returns (r: map<string, int>)
    ensures r == DownTo(m, axis, top, lo)
  {
    r := m;
    var i := top;
    while i > lo
      invariant i >= lo || i == top
      invariant r == DownTo(m, axis, top, i)
      decreases i - lo
    {
      r := CopyKey(r, AxisKey(axis, i), AxisKey(axis, i - 1));
      i := i - 1;
    }
  }

  /** The loop behind `UpFrom`, as the store runs it. */
  method ShiftUp(m: map<string, int>, axis: Axis, lo: int, top: int) returns (r: map<string, int>)
    ensures r == UpFrom(m, axis, lo, top)
  {
    r := m;
    var i := lo;
    while i < top
      invariant i <= top || i == lo
      invariant r == UpFrom(m, axis, lo, i)
      decreases top - i
    {
      r := CopyKey(r, AxisKey(axis, i), AxisKey(axis, i + 1));
      i := i + 1;
    }
  }

  // ------------------------------------------------------------ the four edits

  /** `Opened`, as the store runs it: the loop, then the new slot's default. */
  method OpenSlot(m: map<string, int>, axis: Axis, top: int, lo: int, default: int) returns (r: map<string, int>)
    ensures r == Opened(m, axis, top, lo, default)
  {
    r := ShiftDown(m, axis, top, lo);
    r := r[AxisKey(axis, lo + 1) := default];
  }

  /** `Closed`, as the store runs it: the loop, then the `delete` of the last entry. */
  method CloseSlot(m: map<string, int>, axis: Axis, lo: int, top: int, last: int) returns (r: map<string, int>)
    ensures r == Closed(m, axis, lo, top, last)
  {
    r := ShiftUp(m, axis, lo, top);
    r := r - {AxisKey(axis, last)};
  }

  /** Open a slot: shift every entry above `lo` from `top` down, then give index `lo + 1` the
      default. */
  function Opened(m: map<string, int>, axis: Axis, top: int, lo: int, default: int): map<string, int> {
    DownTo(m, axis, top, lo)[AxisKey(axis, lo + 1) := default]
  }

  /** Close a slot: shift every entry of [lo + 1, top] down, then delete the entry of `last`. */
  function Closed(m: map<string, int>, axis: Axis, lo: int, top: int, last: int): map<string, int> {
    UpFrom(m, axis, lo, top) - {AxisKey(axis, last)}
  }

  /** Heights after `addRow(afterRow)` as written: rows above `afterRow` move up and row
      `afterRow + 1` gets the default. */
  function AddRowHeightsAsWritten(h: map<string, int>, rowCount: int, afterRow: int): map<string, int> {
    Opened(h, Rows, rowCount, afterRow, DefaultRowHeight)
  }

  /** Heights after `deleteRow(rowIndex)` as written: rows from `rowIndex + 2` move down, and
      the key of the last row is deleted. */
  function DeleteRowHeightsAsWritten(h: map<string, int>, rowCount: int, rowIndex: int): map<string, int> {
    Closed(h, Rows, rowIndex + 1, rowCount, rowCount - 1)
  }

  /** Widths after `addColumn(afterColumn)` as written: the loop starts at the last column. */
  function AddColumnWidthsAsWritten(w: map<string, int>, columnCount: int, afterColumn: int): map<string, int> {
    Opened(w, Columns, columnCount - 1, afterColumn, DefaultColumnWidth)
  }

  /** Heights for `addRow(afterRow)` that follow the cells: the cells of rows from `afterRow`
      on move, so the new row is `afterRow`. */
  function AddRowHeights(h: map<string, int>, rowCount: int, afterRow: int): map<string, int> {
    Opened(h, Rows, rowCount, afterRow - 1, DefaultRowHeight)
  }

  /** Heights for `deleteRow(rowIndex)` that follow the cells: the cells of row `rowIndex` go. */
  function DeleteRowHeights(h: map<string, int>, rowCount: int, rowIndex: int): map<string, int> {
    Closed(h, Rows, rowIndex, rowCount, rowCount - 1)
  }

  /** Widths for `addColumn(afterColumn)` that follow the cells: the loop starts one past the
      last column, so the last column's width moves too. */
  function AddColumnWidths(w: map<string, int>, columnCount: int, afterColumn: int): map<string, int> {
    Opened(w, Columns, columnCount, afterColumn, DefaultColumnWidth)
  }

  /** Widths after `deleteColumn(columnIndex)`, as written. */
  function DeleteColumnWidths(w: map<string, int>, columnCount: int, columnIndex: int): map<string, int> {
    Closed(w, Columns, columnIndex, columnCount - 1, columnCount - 1)
  }

  /** The row a cell of row `i` moves to under a row edit, if it stays. */
  function NewRow(op: Shift, i: nat): Option<int>
    requires op.InsertRow? || op.DeleteRow?
  {
    match Shifted(op, i, 0)
    case None => None
    case Some(c) => Some(c.row)
  }

  /** The column a cell of column `j` moves to under a column edit, if it stays. */
  function NewColumn(op: Shift, j: nat): Option<int>
    requires op.InsertColumn? || op.DeleteColumn?
  {
    match Shifted(op, 0, j)
    case None => None
    case Some(c) => Some(c.col)
  }

  // ------------------------------------------------------------ metadata follows the cells

  /** With the corrected `addRow`, every row keeps its height where its cells go, no cell
      lands in the new row, and the new row has the default height. */
  lemma AddRowHeightsFollowCells(h: map<string, int>, rowCount: nat, afterRow: int)
    ensures forall i: nat :: i < rowCount ==>
      Agree(AddRowHeights(h, rowCount, afterRow), HeightKey(NewRow(InsertRow(afterRow), i).value), h, HeightKey(i))
    ensures afterRow >= 0 ==> forall i: nat :: NewRow(InsertRow(afterRow), i) != Some(afterRow)
    ensures AddRowHeights(h, rowCount, afterRow)[HeightKey(afterRow)] == DefaultRowHeight
  {
    RowKeysInjective(afterRow - 1, rowCount);
    HeightKeyInjective();
    forall i: nat | i < rowCount
      ensures Agree(AddRowHeights(h, rowCount, afterRow), HeightKey(NewRow(InsertRow(afterRow), i).value), h, HeightKey(i))
    {
      if i >= afterRow {
        DownToShift(h, Rows, rowCount, afterRow - 1, i + 1);
        assert HeightKey(i + 1) != HeightKey(afterRow);
      } else {
        assert Outside(Rows, HeightKey(i), afterRow - 1, rowCount);
        DownToFrame(h, Rows, rowCount, afterRow - 1, HeightKey(i));
        assert HeightKey(i) != HeightKey(afterRow);
      }
    }
  }

  /** With the corrected `deleteRow`, every row that stays keeps its height where its cells
      go, and the key of the last row is gone. */
  lemma DeleteRowHeightsFollowCells(h: map<string, int>, rowCount: nat, rowIndex: nat)
    requires rowIndex < rowCount
    ensures forall i: nat :: i < rowCount && i != rowIndex ==>
      Agree(DeleteRowHeights(h, rowCount, rowIndex), HeightKey(NewRow(DeleteRow(rowIndex), i).value), h, HeightKey(i))
    ensures NewRow(DeleteRow(rowIndex), rowIndex).None?
    ensures HeightKey(rowCount - 1) !in DeleteRowHeights(h, rowCount, rowIndex)
  {
    RowKeysInjective(rowIndex, rowCount);
    HeightKeyInjective();
    forall i: nat | i < rowCount && i != rowIndex
      ensures Agree(DeleteRowHeights(h, rowCount, rowIndex), HeightKey(NewRow(DeleteRow(rowIndex), i).value), h, HeightKey(i))
    {
      if i > rowIndex {
        UpFromShift(h, Rows, rowIndex, rowCount, i - 1);
        assert HeightKey(i - 1) != HeightKey(rowCount - 1);
      } else {
        assert Outside(Rows, HeightKey(i), rowIndex - 1, rowCount - 1);
        UpFromFrame(h, Rows, rowIndex, rowCount, HeightKey(i));
        assert HeightKey(i) != HeightKey(rowCount - 1);
      }
    }
  }

  /** With the corrected `addColumn`, every column keeps its width where its cells go, and
      the new column has the default width. */
  lemma AddColumnWidthsFollowCells(w: map<string, int>, columnCount: nat, afterColumn: int)
    requires -1 <= afterColumn < columnCount <= 26
    ensures forall j: nat :: j < columnCount ==>
      Agree(AddColumnWidths(w, columnCount, afterColumn), WidthKey(NewColumn(InsertColumn(afterColumn), j).value), w, WidthKey(j))
    ensures AddColumnWidths(w, columnCount, afterColumn)[WidthKey(afterColumn + 1)] == DefaultColumnWidth
  {
    forall j: nat | j < columnCount
      ensures Agree(AddColumnWidths(w, columnCount, afterColumn), WidthKey(NewColumn(InsertColumn(afterColumn), j).value), w, WidthKey(j))
    {
      AddColumnWidthAt(w, columnCount, afterColumn, j);
    }
  }

  lemma AddColumnWidthAt(w: map<string, int>, columnCount: nat, afterColumn: int, j: nat)
    requires -1 <= afterColumn < columnCount <= 26 && j < columnCount
    ensures Agree(AddColumnWidths(w, columnCount, afterColumn), WidthKey(NewColumn(InsertColumn(afterColumn), j).value), w, WidthKey(j))
  {
    if j > afterColumn {
      ColumnKeysInjective(afterColumn, columnCount);
      DownToShift(w, Columns, columnCount, afterColumn, j + 1);
      assert AxisKey(Columns, j + 1) != AxisKey(Columns, afterColumn + 1);
    } else {
      ColumnKeysInjective(j, columnCount);
      assert Outside(Columns, WidthKey(j), afterColumn, columnCount);
      DownToFrame(w, Columns, columnCount, afterColumn, WidthKey(j));
      assert AxisKey(Columns, j) != AxisKey(Columns, afterColumn + 1);
    }
  }

  lemma DeleteColumnWidthAt(w: map<string, int>, columnCount: nat, columnIndex: nat, j: nat)
    requires columnIndex < columnCount <= 26 && j < columnCount && j != columnIndex
    ensures Agree(DeleteColumnWidths(w, columnCount, columnIndex), WidthKey(NewColumn(DeleteColumn(columnIndex), j).value), w, WidthKey(j))
  {
    if j > columnIndex {
      ColumnKeysInjective(columnIndex, columnCount - 1);
      UpFromShift(w, Columns, columnIndex, columnCount - 1, j - 1);
      assert WidthKey(j - 1)[0] != WidthKey(columnCount - 1)[0];
    } else {
      ColumnKeysInjective(j, columnCount);
      assert Outside(Columns, WidthKey(j), columnIndex - 1, columnCount - 2);
      UpFromFrame(w, Columns, columnIndex, columnCount - 1, WidthKey(j));
      assert WidthKey(j)[0] != WidthKey(columnCount - 1)[0];
    }
  }

  /** `deleteColumn` keeps every remaining column's width where its cells go, and the key of
      the last column is gone. */
  lemma DeleteColumnWidthsFollowCells(w: map<string, int>, columnCount: nat, columnIndex: nat)
    requires columnIndex < columnCount <= 26
    ensures forall j: nat :: j < columnCount && j != columnIndex ==>
      Agree(DeleteColumnWidths(w, columnCount, columnIndex), WidthKey(NewColumn(DeleteColumn(columnIndex), j).value), w, WidthKey(j))
    ensures NewColumn(DeleteColumn(columnIndex), columnIndex).None?
    ensures WidthKey(columnCount - 1) !in DeleteColumnWidths(w, columnCount, columnIndex)
  {
    forall j: nat | j < columnCount && j != columnIndex
      ensures Agree(DeleteColumnWidths(w, columnCount, columnIndex), WidthKey(NewColumn(DeleteColumn(columnIndex), j).value), w, WidthKey(j))
    {
      DeleteColumnWidthAt(w, columnCount, columnIndex, j);
    }
  }

  // ------------------------------------------------------------ the code as written

  /** As written, `addRow(afterRow)` moves the cells of row `afterRow` one row on but gives
      the row they move to the default height, and leaves their old height on the row they
      left. */
  lemma AddRowHeightsMisaligned(h: map<string, int>, rowCount: nat, afterRow: nat)
    requires afterRow < rowCount
    ensures NewRow(InsertRow(afterRow), afterRow) == Some(afterRow + 1)
    ensures AddRowHeightsAsWritten(h, rowCount, afterRow)[HeightKey(afterRow + 1)] == DefaultRowHeight
    ensures Agree(AddRowHeightsAsWritten(h, rowCount, afterRow), HeightKey(afterRow), h, HeightKey(afterRow))
  {
    HeightKeyInjective();
    assert Outside(Rows, HeightKey(afterRow), afterRow, rowCount);
    DownToFrame(h, Rows, rowCount, afterRow, HeightKey(afterRow));
    assert HeightKey(afterRow) != HeightKey(afterRow + 1);
  }

  /** As written, `deleteRow(rowIndex)` removes the cells of row `rowIndex` but the height of
      row `rowIndex + 1`: the cells that move into row `rowIndex` find the deleted row's
      height there. */
  lemma DeleteRowHeightsMisaligned(h: map<string, int>, rowCount: nat, rowIndex: nat)
    requires rowIndex + 1 < rowCount
    ensures NewRow(DeleteRow(rowIndex), rowIndex + 1) == Some(rowIndex)
    ensures Agree(DeleteRowHeightsAsWritten(h, rowCount, rowIndex), HeightKey(rowIndex), h, HeightKey(rowIndex))
  {
    HeightKeyInjective();
    assert Outside(Rows, HeightKey(rowIndex), rowIndex, rowCount - 1);
    UpFromFrame(h, Rows, rowIndex + 1, rowCount, HeightKey(rowIndex));
    assert HeightKey(rowIndex) != HeightKey(rowCount - 1);
  }

  /** As written, `addColumn` never copies the last column's width: the cells of the last
      column move one column on, and the width there is whatever that key held before. */
  lemma AddColumnLosesLastWidth(w: map<string, int>, columnCount: nat, afterColumn: int)
    requires -1 <= afterColumn < columnCount - 1 && columnCount <= 26
    ensures NewColumn(InsertColumn(afterColumn), columnCount - 1) == Some(columnCount)
    ensures Agree(AddColumnWidthsAsWritten(w, columnCount, afterColumn), WidthKey(columnCount), w, WidthKey(columnCount))
  {
    ColumnKeysInjective(afterColumn, columnCount);
    assert Outside(Columns, WidthKey(columnCount), afterColumn, columnCount - 1);
    DownToFrame(w, Columns, columnCount - 1, afterColumn, WidthKey(columnCount));
    assert AxisKey(Columns, columnCount) != AxisKey(Columns, afterColumn + 1);
  }
}
