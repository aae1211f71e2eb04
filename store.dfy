// The spreadsheet store of src/store/spreadsheetStore.ts: one object holding the sheet, whose
// actions update its fields. Every action runs inside an immer producer, so an action that
// throws leaves the state as it was.

module Store {
  import opened Types
  import opened CellUtils
  import opened FormulaEval
  import opened Cascade
  import opened Sheet
  import opened Metadata
  import RangeOps
  import opened FormulaArgs

  /** The name `applySum`, `applyAverage`, ... write in front of the parentheses. */
  function NameOf(f: Builtin): (name: string)
    ensures BuiltinOf(name) == Some(f) && IsName(name)
  {
    BuiltinNames();
    match f
    case SumFn => "SUM"
    case AverageFn => "AVERAGE"
    case MaxFn => "MAX"
    case MinFn => "MIN"
    case CountFn => "COUNT"
    case TrimFn => "TRIM"
    case UpperFn => "UPPER"
    case LowerFn => "LOWER"
  }

  /** The formula an apply action writes displays that function on the split argument text,
      evaluated in the grid where the cell already holds the formula and its old value. */
  lemma ApplyWritten(cells: Grid, id: string, f: Builtin, arg: string)
    requires SingleLine(arg)
    ensures var w := FormulaWritten(cells, id, CallText(NameOf(f), arg), StoreEval);
      var c := CellAt(cells, id).(formula := Some(CallText(NameOf(f), arg)), kind := FormulaCell);
      w[id].displayValue == Some(ApplyBuiltin(f, SplitArguments(arg), cells[id := c]))
  {
    var c := CellAt(cells, id).(formula := Some(CallText(NameOf(f), arg)), kind := FormulaCell);
    BuiltinFormula(NameOf(f), f, arg, cells[id := c], id, EvalDepth);
  }

  // ---------------------------------------------------------------- ids stay keys

  /** The four cell writes keep every cell under its own id. */
  lemma ValueKeepsIds(cells: Grid, id: string, v: CellValue, eval: Evaluator)
    requires KeysMatchIds(cells)
    ensures KeysMatchIds(ValueWritten(cells, id, v, eval))
  {
    ValueWrittenFrame(cells, id, v, eval);
  }

  lemma FormulaKeepsIds(cells: Grid, id: string, formula: string, eval: Evaluator)
    requires KeysMatchIds(cells)
    ensures KeysMatchIds(FormulaWritten(cells, id, formula, eval))
  {
    assert FormulaWritten(cells, id, formula, eval)[id].id == CellAt(cells, id).id;
  }

  lemma FormatAndTypeKeepIds(cells: Grid, id: string, p: CellFormat, t: CellType)
    requires KeysMatchIds(cells)
    ensures KeysMatchIds(FormatWritten(cells, id, p)) && KeysMatchIds(TypeWritten(cells, id, t))
  {
  }

  /** So does the cascade, which changes display values only. */
  lemma CascadeKeepsIds(cells: Grid, id: string, eval: Evaluator)
    requires KeysMatchIds(cells) && Cascaded(cells, id, eval).Some?
    ensures KeysMatchIds(Cascaded(cells, id, eval).value)
  {
    RefreshKeeps(cells, Reach(cells, id, CascadeDepth + 1), eval);
  }

  /** And so do find-and-replace, which changes values only, and removing duplicates, which
      blanks cells under their own ids. */
  lemma RangeOpsKeepIds(range: seq<string>, find: string, rep: string, cells: Grid)
    requires KeysMatchIds(cells)
    ensures KeysMatchIds(RangeOps.FindAndReplace(range, find, rep, cells))
    ensures KeysMatchIds(RangeOps.RemoveDuplicates(range, cells, false))
  {
    var s := RangeOps.ClearedIds(range, cells, false);
    forall k | k in RangeOps.Overlay(cells, s) ensures RangeOps.Overlay(cells, s)[k].id == k {
      if k in s {
        assert RangeOps.Blanked(cells, k).id == k;
      }
    }
  }

  /** The part of `setCellValue` before the cascade: create the cell when missing, store the
      value and classify it, evaluating a formula in the grid that holds it. */
  method WriteValue(cells: Grid, cellId: string, value: CellValue) returns (updated: Grid)
    ensures updated == ValueWritten(cells, cellId, value, StoreEval)
  {
    var c := CellAt(cells, cellId).(value := value);
    if IsFormulaText(value) {
      var f := c.(kind := FormulaCell, formula := Some(value.s));
      var result := EvaluateFormula(value.s, cells[cellId := f], cellId, EvalDepth);
      updated := cells[cellId := f.(displayValue := Some(result))];
    } else if IsNumeric(value) {
      updated := cells[cellId := c.(kind := NumberCell, displayValue := Some(value))];
    } else {
      updated := cells[cellId := c.(kind := TextCell, displayValue := Some(value))];
    }
  }

  /** The part of `setCellFormula` before the cascade. */
  method WriteFormula(cells: Grid, cellId: string, formula: string) returns (updated: Grid)
    ensures updated == FormulaWritten(cells, cellId, formula, StoreEval)
  {
    var c := CellAt(cells, cellId).(formula := Some(formula), kind := FormulaCell);
    var result := EvaluateFormula(formula, cells[cellId := c], cellId, EvalDepth);
    updated := cells[cellId := c.(value := Text(formula), displayValue := Some(result))];
  }

  // ---------------------------------------------------------------- the store

  class Spreadsheet {
    var cells: Grid
    var columnWidths: map<string, int>
    var rowHeights: map<string, int>
    var selectedCell: Option<string>
    var selectedRange: Option<seq<string>>
    var columnCount: int
    var rowCount: int

    /** The `SpreadsheetData` part of the store. */
    function Data(): SpreadsheetData
      reads this
    {
      SpreadsheetData(cells, columnWidths, rowHeights, selectedCell, selectedRange, columnCount, rowCount)
    }

    /** Every cell is stored under its own id. */
    ghost predicate Valid()
      reads this
    {
      KeysMatchIds(cells)
    }

    /** The store starts from `initializeSpreadsheet()`. */
    constructor()
      ensures Data() == Initial() && Valid()
    {
      var d := InitializeSpreadsheet();
      cells, columnWidths, rowHeights := d.cells, d.columnWidths, d.rowHeights;
      selectedCell, selectedRange := d.selectedCell, d.selectedRange;
      columnCount, rowCount := d.columnCount, d.rowCount;
    }

    // -------------------------------------------------------------- writing cells

    /** `setCellValue(cellId, value)`. `ok` is false when the cascade overflows the stack;
        the action then throws and nothing changes. */
    method SetCellValue(cellId: string, value: CellValue) returns (ok: bool)
      modifies this`cells
      ensures ok <==> SetValue(old(cells), cellId, value, StoreEval).Some?
      ensures cells == if ok then SetValue(old(cells), cellId, value, StoreEval).value else old(cells)
      ensures old(Valid()) ==> Valid()
    {
      ghost var valid := Valid();
      var updated := WriteValue(cells, cellId, value);
      ok := Commit(updated, cellId);
      if valid {
        ValueKeepsIds(old(cells), cellId, value, StoreEval);
        if ok {
          CascadeKeepsIds(updated, cellId, StoreEval);
        }
      }
    }

    /** `setCellFormula(cellId, formula)`: the formula is evaluated before the value is set. */
    method SetCellFormula(cellId: string, formula: string) returns (ok: bool)
      modifies this`cells
      ensures ok <==> SetFormula(old(cells), cellId, formula, StoreEval).Some?
      ensures cells == if ok then SetFormula(old(cells), cellId, formula, StoreEval).value else old(cells)
      ensures old(Valid()) ==> Valid()
    {
      ghost var valid := Valid();
      var updated := WriteFormula(cells, cellId, formula);
      ok := Commit(updated, cellId);
      if valid {
        FormulaKeepsIds(old(cells), cellId, formula, StoreEval);
        if ok {
          CascadeKeepsIds(updated, cellId, StoreEval);
        }
      }
    }

    /** `updateDependentCells(state.cells, cellId)` at the end of the two writes: the cascade
        either finishes, and the producer commits the written grid, or overflows the stack. */
    method Commit(updated: Grid, cellId: string) returns (ok: bool)
      modifies this`cells
      ensures ok <==> Cascaded(updated, cellId, StoreEval).Some?
      ensures cells == if ok then Cascaded(updated, cellId, StoreEval).value else old(cells)
    {
      StoreEvalBlind();
      RefreshNone(updated, StoreEval);
      var out;
      out, ok := UpdateDependentCells(updated, cellId, CascadeDepth, StoreEval, updated, {});
      if ok {
        cells := out;
      }
    }

    /** `setCellFormat(cellId, format)`. */
    method SetCellFormat(cellId: string, format: CellFormat)
      modifies this`cells
      ensures cells == FormatWritten(old(cells), cellId, format)
      ensures old(Valid()) ==> Valid()
    {
      var c := if cellId in cells then cells[cellId] else CreateEmptyCell(cellId);
      if Valid() {
        FormatAndTypeKeepIds(cells, cellId, format, TextCell);
      }
      cells := cells[cellId := c.(format := MergeFormat(c.format, format))];
    }

    /** `setCellType(cellId, type)`. */
    method SetCellType(cellId: string, kind: CellType)
      modifies this`cells
      ensures cells == TypeWritten(old(cells), cellId, kind)
      ensures old(Valid()) ==> Valid()
    {
      var c := if cellId in cells then cells[cellId] else CreateEmptyCell(cellId);
      if Valid() {
        FormatAndTypeKeepIds(cells, cellId, NoFormat, kind);
      }
      cells := cells[cellId := c.(kind := kind)];
    }

    // -------------------------------------------------------------- selection

    /** `selectCell(cellId)`: a single selected cell and no range. */
    method SelectCell(cellId: string)
      modifies this`selectedCell, this`selectedRange
      ensures selectedCell == Some(cellId) && selectedRange == None
    {
      selectedCell, selectedRange := Some(cellId), None;
    }

    /** `selectRange(startCellId, endCellId)`. When a corner is not a cell id, `getCellRange`
        throws, `ok` is false, and the selection stays as it was. */
    method SelectRange(startCellId: string, endCellId: string) returns (ok: bool)
      modifies this`selectedCell, this`selectedRange
      ensures ok <==> CellRange(startCellId, endCellId).Ok?
      ensures ok ==> selectedCell == Some(startCellId) && selectedRange == Some(CellRange(startCellId, endCellId).value)
      ensures !ok ==> selectedCell == old(selectedCell) && selectedRange == old(selectedRange)
    {
      var r := GetCellRange(startCellId, endCellId);
      ok := r.Ok?;
      if ok {
        selectedCell, selectedRange := Some(startCellId), Some(r.value);
      }
    }

    /** `clearSelection()`. */
    method ClearSelection()
      modifies this`selectedCell, this`selectedRange
      ensures selectedCell == None && selectedRange == None
    {
      selectedCell, selectedRange := None, None;
    }

    // -------------------------------------------------------------- rows and columns

    /** `addRow(afterRow)`: the cells of rows from `afterRow` on move one row on. The heights
        run the loop as written: the heights above `afterRow` move one row on and row
        `afterRow + 1` gets the default height, one row past the cells' new empty row. */
    method AddRow(afterRow: int)
      modifies this`cells, this`rowHeights, this`rowCount
      ensures Rekeyed(old(cells), InsertRow(afterRow), cells)
      ensures rowHeights == AddRowHeightsAsWritten(old(rowHeights), old(rowCount), afterRow)
      ensures rowCount == old(rowCount) + 1
      ensures old(Valid()) ==> Valid()
    {
      var newCells := RekeyCells(cells, InsertRow(afterRow));
      rowHeights := OpenSlot(rowHeights, Rows, rowCount, afterRow, DefaultRowHeight);
      RekeyedKeepsIds(cells, InsertRow(afterRow), newCells);
      cells := newCells;
      rowCount := rowCount + 1;
    }

    /** `deleteRow(rowIndex)`: the cells of row `rowIndex` go and the rows below move one
        row back. The heights run the loop as written: from `rowIndex + 1`, so the height of
        row `rowIndex + 1`, not of `rowIndex`, is the one overwritten. */
    method DeleteRow(rowIndex: int)
      modifies this`cells, this`rowHeights, this`rowCount
      ensures Rekeyed(old(cells), Shift.DeleteRow(rowIndex), cells)
      ensures rowHeights == DeleteRowHeightsAsWritten(old(rowHeights), old(rowCount), rowIndex)
      ensures rowCount == old(rowCount) - 1
      ensures old(Valid()) ==> Valid()
    {
      var newCells := RekeyCells(cells, Shift.DeleteRow(rowIndex));
      rowHeights := CloseSlot(rowHeights, Rows, rowIndex + 1, rowCount, rowCount - 1);
      RekeyedKeepsIds(cells, Shift.DeleteRow(rowIndex), newCells);
      cells := newCells;
      rowCount := rowCount - 1;
    }

    /** `addColumn(afterColumn)`: the cells of columns after `afterColumn` move one column on
        and the new column gets the default width. The widths run the loop as written, from
        the last column, so the last column's width is not carried along. */
    method AddColumn(afterColumn: int)
      modifies this`cells, this`columnWidths, this`columnCount
      ensures Rekeyed(old(cells), InsertColumn(afterColumn), cells)
      ensures columnWidths == AddColumnWidthsAsWritten(old(columnWidths), old(columnCount), afterColumn)
      ensures columnCount == old(columnCount) + 1
      ensures old(Valid()) ==> Valid()
    {
      var newCells := RekeyCells(cells, InsertColumn(afterColumn));
      columnWidths := OpenSlot(columnWidths, Columns, columnCount - 1, afterColumn, DefaultColumnWidth);
      RekeyedKeepsIds(cells, InsertColumn(afterColumn), newCells);
      cells := newCells;
      columnCount := columnCount + 1;
    }

    /** `deleteColumn(columnIndex)`: the cells of column `columnIndex` go, the columns after it
        move one column back, and so do their widths. */
    method DeleteColumn(columnIndex: int)
      modifies this`cells, this`columnWidths, this`columnCount
      ensures Rekeyed(old(cells), Shift.DeleteColumn(columnIndex), cells)
      ensures columnWidths == DeleteColumnWidths(old(columnWidths), old(columnCount), columnIndex)
      ensures columnCount == old(columnCount) - 1
      ensures old(Valid()) ==> Valid()
    {
      var newCells := RekeyCells(cells, Shift.DeleteColumn(columnIndex));
      columnWidths := CloseSlot(columnWidths, Columns, columnIndex, columnCount - 1, columnCount - 1);
      RekeyedKeepsIds(cells, Shift.DeleteColumn(columnIndex), newCells);
      cells := newCells;
      columnCount := columnCount - 1;
    }

    /** `resizeColumn(columnIndex, width)`. */
    method ResizeColumn(columnIndex: int, width: int)
      modifies this`columnWidths
      ensures columnWidths == old(columnWidths)[WidthKey(columnIndex) := width]
    {
      columnWidths := columnWidths[WidthKey(columnIndex) := width];
    }

    /** `resizeRow(rowIndex, height)`. */
    method ResizeRow(rowIndex: int, height: int)
      modifies this`rowHeights
      ensures rowHeights == old(rowHeights)[HeightKey(rowIndex) := height]
    {
      rowHeights := rowHeights[HeightKey(rowIndex) := height];
    }

    // -------------------------------------------------------------- the apply actions

    /** `applySum(range)`, ..., `applyLower(cellId)`: write `=NAME(arg)` into the selected
        cell with `setCellFormula`. The guard `!selectedCell` also holds for the empty id,
        which is falsy, so without a selected cell or with "" selected nothing happens. */
    method ApplyFunction(f: Builtin, arg: string) returns (ok: bool)
      modifies this`cells
      ensures old(selectedCell).None? || old(selectedCell) == Some("") ==> ok && cells == old(cells)
      ensures old(selectedCell).Some? && old(selectedCell).value != "" ==>
        var formula := CallText(NameOf(f), arg);
        && (ok <==> SetFormula(old(cells), old(selectedCell).value, formula, StoreEval).Some?)
        && cells == if ok then SetFormula(old(cells), old(selectedCell).value, formula, StoreEval).value else old(cells)
      ensures old(Valid()) ==> Valid()
    {
      if selectedCell.None? || selectedCell.value == "" {
        return true;
      }
      ok := SetCellFormula(selectedCell.value, CallText(NameOf(f), arg));
    }

    /** `applyFindAndReplace(findText, replaceText)` over the selected range, if any. */
    method ApplyFindAndReplace(findText: string, replaceText: string)
      modifies this`cells
      ensures cells == if old(selectedRange).Some?
        then RangeOps.FindAndReplace(old(selectedRange).value, findText, replaceText, old(cells))
        else old(cells)
      ensures old(Valid()) ==> Valid()
    {
      if selectedRange.Some? {
        if Valid() {
          RangeOpsKeepIds(selectedRange.value, findText, replaceText, cells);
        }
        cells := RangeOps.FindAndReplaceCells(selectedRange.value, findText, replaceText, cells);
      }
    }

    /** `applyRemoveDuplicates()` over the selected range, if any. */
    method ApplyRemoveDuplicates()
      modifies this`cells
      ensures cells == if old(selectedRange).Some?
        then RangeOps.RemoveDuplicates(old(selectedRange).value, old(cells), false)
        else old(cells)
      ensures old(Valid()) ==> Valid()
    {
      if selectedRange.Some? {
        if Valid() {
          RangeOpsKeepIds(selectedRange.value, "", "", cells);
        }
        cells := RangeOps.RemoveDuplicateRows(selectedRange.value, cells, false);
      }
    }

    // -------------------------------------------------------------- whole sheet

    /** `clearSpreadsheet()`: back to the initial sheet. */
    method ClearSpreadsheet()
      modifies this
      ensures Data() == Initial() && Valid()
    {
      var d := InitializeSpreadsheet();
      cells, columnWidths, rowHeights := d.cells, d.columnWidths, d.rowHeights;
      selectedCell, selectedRange := d.selectedCell, d.selectedRange;
      columnCount, rowCount := d.columnCount, d.rowCount;
    }

    /** `loadSpreadsheet(data)`: the sheet is replaced by the given data, as it is. */
    method LoadSpreadsheet(data: SpreadsheetData)
      modifies this
      ensures Data() == data
    {
      cells, columnWidths, rowHeights := data.cells, data.columnWidths, data.rowHeights;
      selectedCell, selectedRange := data.selectedCell, data.selectedRange;
      columnCount, rowCount := data.columnCount, data.rowCount;
    }
  }
}
