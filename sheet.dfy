/** The spreadsheet store's state changes as functions on values: the initial sheet, writing a
    value, a formula, a format or a type into a cell, re-keying cells when rows and columns are
    inserted or deleted, and shifting the width and height tables. The class in `Store` performs
    these changes in place and is proved to agree with them. */
module Sheet {

  import opened Types
  import opened Text
  import opened CellUtils
  import opened FormulaEval
  import opened Cascade

  // ---------------------------------------------------------------- the initial sheet

  const DefaultColumnWidth: int := 100
  const DefaultRowHeight: int := 25
  const DefaultColumnCount: int := 26
  const DefaultRowCount: int := 100

  /** `String.fromCharCode(65 + col)`: the width key of a column. */
  function WidthKey(col: int): string {
    [CharCode(65 + col)]
  }

  /** `row.toString()`: the height key of a row. */
  function HeightKey(row: int): string {
    IntToString(row)
  }

  lemma WidthKeyLetter(col: int)
    requires 0 <= col < 26
    ensures WidthKey(col) == [Letter(col)] == ColumnName(col)
  {
  }

  lemma HeightKeyInjective()
    ensures forall i, j :: HeightKey(i) == HeightKey(j) ==> i == j
  {
    forall i, j | HeightKey(i) == HeightKey(j) ensures i == j {
      IntToStringInjective(i, j);
    }
  }

  /** The widths of the first n columns, all the default. */
  function Widths(n: int): map<string, int>
    requires n <= 26
  {
    map col | 0 <= col < n :: WidthKey(col) := DefaultColumnWidth
  }

  /** The heights of the first n rows, all the default. */
  function Heights(n: int): map<string, int> {
    HeightKeyInjective();
    map row | 0 <= row < n :: HeightKey(row) := DefaultRowHeight
  }

  /** `initializeSpreadsheet()`. */
  function Initial(): SpreadsheetData {
    SpreadsheetData(map[], Widths(DefaultColumnCount), Heights(DefaultRowCount), None, None,
                    DefaultColumnCount, DefaultRowCount)
  }

  lemma WidthsStep(n: int)
    requires 0 <= n < 26
    ensures Widths(n)[WidthKey(n) := DefaultColumnWidth] == Widths(n + 1)
  {
    assert forall col :: 0 <= col < n ==> WidthKey(col) != WidthKey(n);
  }

  lemma HeightsStep(n: int)
    requires 0 <= n
    ensures Heights(n)[HeightKey(n) := DefaultRowHeight] == Heights(n + 1)
  {
    HeightKeyInjective();
  }

  /** The two loops of `initializeSpreadsheet`. */
  method InitializeSpreadsheet() returns (data: SpreadsheetData)
    ensures data == Initial()
  {
    var columnWidths: map<string, int> := map[];
    var col := 0;
    while col < DefaultColumnCount
      invariant 0 <= col <= DefaultColumnCount && columnWidths == Widths(col)
    {
      WidthsStep(col);
      columnWidths := columnWidths[WidthKey(col) := DefaultColumnWidth];
      col := col + 1;
    }
    var rowHeights: map<string, int> := map[];
    var row := 0;
    while row < DefaultRowCount
      invariant 0 <= row <= DefaultRowCount && rowHeights == Heights(row)
    {
      HeightsStep(row);
      rowHeights := rowHeights[HeightKey(row) := DefaultRowHeight];
      row := row + 1;
    }
    data := SpreadsheetData(map[], columnWidths, rowHeights, None, None, DefaultColumnCount, DefaultRowCount);
  }

  /** The names of the first n columns. */
  function ColumnNames(n: int): set<string> {
    set col | 0 <= col < n :: ColumnName(col)
  }

  /** The decimal numbers 0..n-1. */
  function RowNames(n: int): set<string> {
    set row | 0 <= row < n :: NatToString(row)
  }

  /** The first n columns each have the default width, and no other key has one. */
  lemma WidthsShape(n: int)
    requires n <= 26
    ensures Widths(n).Keys == ColumnNames(n)
    ensures forall col :: 0 <= col < n ==> Widths(n)[ColumnName(col)] == DefaultColumnWidth
    ensures forall k :: k in Widths(n) ==> |k| == 1
  {
    var w := Widths(n);
    var names := ColumnNames(n);
    forall k | k in w ensures k in names && |k| == 1 {
      var col :| 0 <= col < n && WidthKey(col) == k;
      WidthKeyLetter(col);
    }
    forall k | k in names ensures k in w {
      var col :| 0 <= col < n && ColumnName(col) == k;
      WidthKeyLetter(col);
      assert WidthKey(col) in w;
    }
    assert w.Keys == names;
    forall col | 0 <= col < n ensures w[ColumnName(col)] == DefaultColumnWidth {
      WidthKeyLetter(col);
      assert WidthKey(col) in w;
    }
  }

  /** The first n rows each have the default height, and no other key has one. */
  lemma HeightsShape(n: int)
    ensures Heights(n).Keys == RowNames(n)
    ensures forall row :: 0 <= row < n ==> Heights(n)[NatToString(row)] == DefaultRowHeight
  {
    var h := Heights(n);
    var names := RowNames(n);
    forall k | k in h ensures k in names {
      var row :| 0 <= row < n && HeightKey(row) == k;
    }
    forall k | k in names ensures k in h {
      var row :| 0 <= row < n && NatToString(row) == k;
      assert HeightKey(row) in h;
    }
    assert h.Keys == names;
    forall row | 0 <= row < n ensures h[NatToString(row)] == DefaultRowHeight {
      assert HeightKey(row) in h;
    }
  }

  /** The initial sheet has no cells and no selection, 26 columns and 100 rows, width 100 for
      each of the columns "A".."Z" and no other, and height 25 for each of the rows "0".."99"
      and no other. */
  lemma InitialShape()
    ensures Initial().cells == map[] && Initial().selectedCell == None && Initial().selectedRange == None
    ensures Initial().columnCount == 26 && Initial().rowCount == 100
    ensures Initial().columnWidths.Keys == ColumnNames(26)
    ensures forall col :: 0 <= col < 26 ==> Initial().columnWidths[ColumnName(col)] == 100
    ensures "A" in Initial().columnWidths && "Z" in Initial().columnWidths && "AA" !in Initial().columnWidths
    ensures Initial().rowHeights.Keys == RowNames(100)
    ensures forall row :: 0 <= row < 100 ==> Initial().rowHeights[NatToString(row)] == 25
  {
    WidthsShape(26);
    HeightsShape(100);
    assert ColumnName(0) == "A" && ColumnName(25) == "Z";
  }

  // ---------------------------------------------------------------- evaluation in the store

  /** How deep the store's formula evaluation may nest before the stack overflows. */
  const EvalDepth: nat := 1000

  /** `evaluateFormula(formula, cells, id)` as the store calls it. */
  function StoreEval(formula: string, cells: Grid, id: string): CellValue {
    Evaluate(formula, cells, id, EvalDepth)
  }

  /** The store's evaluator never reads a display value, which is what the cascade needs. */
  lemma StoreEvalBlind()
    ensures DisplayBlind(StoreEval)
  {
    forall f, a, b, id | SameContent(a, b) ensures StoreEval(f, a, id) == StoreEval(f, b, id) {
      EvaluateSame(f, a, b, id, EvalDepth);
    }
  }

  // ---------------------------------------------------------------- writing a cell

  /** The cell under id, or the empty cell `createEmptyCell(id)` when there is none. */
  function CellAt(cells: Grid, id: string): Cell {
    if id in cells then cells[id] else CreateEmptyCell(id)
  }

  /** `typeof value === 'string' && value.startsWith('=')`. */
  predicate IsFormulaText(v: CellValue) {
    v.Text? && |v.s| > 0 && v.s[0] == '='
  }

  /** The grid after `setCellValue` has classified the value, before the cascade. A formula is
      evaluated in the grid that already holds the new value, type and formula. */
  function ValueWritten(cells: Grid, id: string, v: CellValue, eval: Evaluator): Grid {
    var c := CellAt(cells, id).(value := v);
    if IsFormulaText(v) then
      var f := c.(kind := FormulaCell, formula := Some(v.s));
      cells[id := f.(displayValue := Some(eval(v.s, cells[id := f], id)))]
    else if IsNumeric(v) then cells[id := c.(kind := NumberCell, displayValue := Some(v))]
    else cells[id := c.(kind := TextCell, displayValue := Some(v))]
  }

  /** The grid after `setCellFormula` has written the formula, before the cascade. The formula
      is evaluated after the type and formula are set but before the value is. */
  function FormulaWritten(cells: Grid, id: string, formula: string, eval: Evaluator): Grid {
    var f := CellAt(cells, id).(formula := Some(formula), kind := FormulaCell);
    cells[id := f.(value := Text(formula), displayValue := Some(eval(formula, cells[id := f], id)))]
  }

  /** What `setCellValue` commits: None when the cascade overflows the stack. */
  ghost function SetValue(cells: Grid, id: string, v: CellValue, eval: Evaluator): Option<Grid> {
    Cascaded(ValueWritten(cells, id, v, eval), id, eval)
  }

  /** What `setCellFormula` commits: None when the cascade overflows the stack. */
  ghost function SetFormula(cells: Grid, id: string, formula: string, eval: Evaluator): Option<Grid> {
    Cascaded(FormulaWritten(cells, id, formula, eval), id, eval)
  }

  /** `setCellValue` changes the one cell, creating it when missing; it keeps the cell's id and
      format and stores the value. */
  lemma ValueWrittenFrame(cells: Grid, id: string, v: CellValue, eval: Evaluator)
    ensures var w := ValueWritten(cells, id, v, eval);
      && w.Keys == cells.Keys + {id}
      && (forall k :: k in cells && k != id ==> w[k] == cells[k])
      && w[id].id == CellAt(cells, id).id && w[id].format == CellAt(cells, id).format
      && w[id].value == v
  {
  }

  /** A text starting with '=' makes the cell a formula cell holding that formula, and the cell
      shows the formula's value in the very grid that is written. */
  lemma ValueWrittenFormula(cells: Grid, id: string, v: CellValue, eval: Evaluator)
    requires DisplayBlind(eval) && IsFormulaText(v)
    ensures var w := ValueWritten(cells, id, v, eval);
      w[id].kind == FormulaCell && w[id].formula == Some(v.s) && w[id].displayValue == Some(eval(v.s, w, id))
  {
    var f := CellAt(cells, id).(value := v).(kind := FormulaCell, formula := Some(v.s));
    var w := ValueWritten(cells, id, v, eval);
    assert w == cells[id := f.(displayValue := Some(eval(v.s, cells[id := f], id)))];
    assert SameContent(cells[id := f], w);
  }

  /** Any other value makes the cell a number cell when numeric and a text cell otherwise; the
      cell shows the value itself and keeps whatever formula it had. */
  lemma ValueWrittenPlain(cells: Grid, id: string, v: CellValue, eval: Evaluator)
    requires !IsFormulaText(v)
    ensures var w := ValueWritten(cells, id, v, eval);
      && w[id].kind == (if IsNumeric(v) then NumberCell else TextCell)
      && w[id].displayValue == Some(v) && w[id].formula == CellAt(cells, id).formula
  {
  }

  /** `setCellFormula` stores the formula as both value and formula and makes the cell a formula
      cell; its display value is the formula evaluated while the cell still held its old value,
      so it is the formula's value in the written grid whenever the old value was the formula. */
  lemma FormulaWrittenCell(cells: Grid, id: string, formula: string, eval: Evaluator)
    requires DisplayBlind(eval)
    ensures var w := FormulaWritten(cells, id, formula, eval);
      && w.Keys == cells.Keys + {id}
      && (forall k :: k in cells && k != id ==> w[k] == cells[k])
      && w[id].id == CellAt(cells, id).id && w[id].format == CellAt(cells, id).format
      && w[id].value == Text(formula) && w[id].formula == Some(formula) && w[id].kind == FormulaCell
      && w[id].displayValue == Some(eval(formula, w[id := w[id].(value := CellAt(cells, id).value)], id))
      && (CellAt(cells, id).value == Text(formula) ==> w[id].displayValue == Some(eval(formula, w, id)))
  {
    var f := CellAt(cells, id).(formula := Some(formula), kind := FormulaCell);
    var w := FormulaWritten(cells, id, formula, eval);
    assert SameContent(cells[id := f], w[id := w[id].(value := CellAt(cells, id).value)]);
    if CellAt(cells, id).value == Text(formula) {
      assert SameContent(cells[id := f], w);
    }
  }

  /** Writing a formula as a value and writing it as a formula differ at most in what the cell
      shows, and not at all when the cell already held the formula text. */
  lemma ValueAndFormulaWrites(cells: Grid, id: string, formula: string, eval: Evaluator)
    requires IsFormulaText(Text(formula))
    ensures var a := ValueWritten(cells, id, Text(formula), eval);
      var b := FormulaWritten(cells, id, formula, eval);
      a.Keys == b.Keys && (forall k :: k in a && k != id ==> a[k] == b[k])
      && a[id].(displayValue := None) == b[id].(displayValue := None)
    ensures CellAt(cells, id).value == Text(formula) ==>
      ValueWritten(cells, id, Text(formula), eval) == FormulaWritten(cells, id, formula, eval)
  {
    var c := CellAt(cells, id);
    if c.value == Text(formula) {
      assert c.(value := Text(formula)).(kind := FormulaCell, formula := Some(formula))
          == c.(formula := Some(formula), kind := FormulaCell);
    }
  }

  /** A formula that contains the id of its own cell, such as "=A1+1" or "=A10" in A1, depends
      on that cell, so the cascade recurses without end and nothing is committed. */
  lemma SelfReferenceNeverCommits(cells: Grid, id: string, s: string, eval: Evaluator)
    requires IsFormulaText(Text(s)) && Contains(s, id)
    ensures SetValue(cells, id, Text(s), eval).None?
  {
    var w := ValueWritten(cells, id, Text(s), eval);
    assert w[id].kind == FormulaCell && w[id].formula == Some(s);
    assert id in Dependents(w, id);
    assert Reaches(w, id, id, 1);
    CycleOverflows(w, id, 1, eval);
  }

  lemma SelfFormulaNeverCommits(cells: Grid, id: string, formula: string, eval: Evaluator)
    requires formula != "" && Contains(formula, id)
    ensures SetFormula(cells, id, formula, eval).None?
  {
    var w := FormulaWritten(cells, id, formula, eval);
    assert id in Dependents(w, id);
    assert Reaches(w, id, id, 1);
    CycleOverflows(w, id, 1, eval);
  }

  /** "=A10" written into A1 never commits: the dependency test is a substring test. */
  lemma LongerIdNeverCommits(cells: Grid, eval: Evaluator)
    ensures SetValue(cells, "A1", Text("=A10"), eval).None?
  {
    assert OccursAt("=A10", "A1", 1);
    assert IndexOf("=A10", "A1", 0).Some?;
    SelfReferenceNeverCommits(cells, "A1", "=A10", eval);
  }

  /** After `setCellValue` commits, the written cell shows its formula's value in the final grid,
      and every other cell is as it was or, when a dependency path leads to it, shows its own
      formula's value in the final grid; values, types, formulas and formats of the other cells
      are unchanged. */
  lemma SetValueFresh(cells: Grid, id: string, v: CellValue, eval: Evaluator)
    requires DisplayBlind(eval)
    requires SetValue(cells, id, v, eval).Some?
    ensures var g := SetValue(cells, id, v, eval).value;
      var w := ValueWritten(cells, id, v, eval);
      && g.Keys == cells.Keys + {id}
      && g[id] == w[id]
      && (IsFormulaText(v) ==> g[id].displayValue == Some(eval(v.s, g, id)))
      && forall k :: k in cells && k != id ==>
           g[k] == if Reaches(w, id, k, CascadeDepth + 1)
                   then cells[k].(displayValue := Some(eval(FormulaOrEmpty(cells[k].formula), g, k)))
                   else cells[k]
  {
    var w := ValueWritten(cells, id, v, eval);
    var g := SetValue(cells, id, v, eval).value;
    ValueWrittenFrame(cells, id, v, eval);
    if IsFormulaText(v) {
      ValueWrittenFormula(cells, id, v, eval);
    }
    CascadeMeaning(w, id, eval);
    if Reaches(w, id, id, CascadeDepth + 1) {
      CycleOverflows(w, id, CascadeDepth + 1, eval);
    }
    RefreshKeeps(w, Reach(w, id, CascadeDepth + 1), eval);
    if IsFormulaText(v) {
      assert eval(v.s, w, id) == eval(v.s, g, id);
    }
  }

  // ---------------------------------------------------------------- format and type

  /** `{...format, ...partial}`: a field the partial format gives wins. */
  function MergeFormat(f: CellFormat, p: CellFormat): CellFormat {
    CellFormat(
      if p.bold.Some? then p.bold else f.bold,
      if p.italic.Some? then p.italic else f.italic,
      if p.fontSize.Some? then p.fontSize else f.fontSize,
      if p.color.Some? then p.color else f.color,
      if p.backgroundColor.Some? then p.backgroundColor else f.backgroundColor,
      if p.textAlign.Some? then p.textAlign else f.textAlign)
  }

  /** Merging nothing changes nothing, merging into nothing gives the partial format, merging is
      associative and merging the same partial format twice is merging it once. */
  lemma MergeLaws(f: CellFormat, p: CellFormat, q: CellFormat)
    ensures MergeFormat(f, NoFormat) == f && MergeFormat(NoFormat, p) == p
    ensures MergeFormat(MergeFormat(f, p), q) == MergeFormat(f, MergeFormat(p, q))
    ensures MergeFormat(MergeFormat(f, p), p) == MergeFormat(f, p)
  {
  }

  /** `setCellFormat`. */
  function FormatWritten(cells: Grid, id: string, p: CellFormat): Grid {
    cells[id := CellAt(cells, id).(format := MergeFormat(CellAt(cells, id).format, p))]
  }

  /** `setCellType`. */
  function TypeWritten(cells: Grid, id: string, t: CellType): Grid {
    cells[id := CellAt(cells, id).(kind := t)]
  }

  /** Setting a format or a type touches only that field of that cell (creating the cell when
      missing); two format writes are one write of the merged partial format. */
  lemma FormatAndTypeWrites(cells: Grid, id: string, p: CellFormat, q: CellFormat, t: CellType)
    ensures var w := FormatWritten(cells, id, p);
      w.Keys == cells.Keys + {id} && (forall k :: k in cells && k != id ==> w[k] == cells[k])
      && w[id].(format := CellAt(cells, id).format) == CellAt(cells, id)
    ensures FormatWritten(FormatWritten(cells, id, p), id, q) == FormatWritten(cells, id, MergeFormat(p, q))
    ensures var w := TypeWritten(cells, id, t);
      w.Keys == cells.Keys + {id} && (forall k :: k in cells && k != id ==> w[k] == cells[k])
      && w[id].kind == t && w[id].(kind := CellAt(cells, id).kind) == CellAt(cells, id)
  {
    MergeLaws(CellAt(cells, id).format, p, q);
  }

  // ---------------------------------------------------------------- re-keying cells

  /** The four structural edits: a row or a column inserted after an index, or deleted. */
  datatype Shift = InsertRow(after: int) | DeleteRow(index: int) | InsertColumn(after: int) | DeleteColumn(index: int)

  /** What becomes of the cell stored under an id. */
  datatype Fate = Dropped | Kept | MovedTo(newId: string)

  /** The branches of the four edits on `cellId.match(/([A-Z]+)(\d+)/)`: an id without a match
      is dropped; a row edit compares the parsed row number and writes the letters followed by
      the new number; a column edit compares the code of the first letter minus 65 and writes
      the one letter of the new code followed by the matched digits. */
  function FateOf(op: Shift, id: string): Fate {
    match FindRef(id, 0)
    case None => Dropped
    case Some(m) =>
      var column := id[m.start..m.mid];
      var digits := id[m.mid..m.end];
      assert AllDigits(digits) by {
        assert forall k :: 0 <= k < |digits| ==> digits[k] == id[m.mid + k];
      }
      var row := DigitsValue(digits);
      var colIndex := column[0] as int - 65;
      match op
      case InsertRow(after) =>
        if row > after then MovedTo(column + IntToString(row + 1)) else Kept
      case DeleteRow(index) =>
        if row == index + 1 then Dropped
        else if row > index + 1 then MovedTo(column + IntToString(row - 1))
        else Kept
      case InsertColumn(after) =>
        if colIndex > after then MovedTo([CharCode(colIndex + 1 + 65)] + digits) else Kept
      case DeleteColumn(index) =>
        if colIndex == index then Dropped
        else if colIndex > index then MovedTo([CharCode(colIndex - 1 + 65)] + digits)
        else Kept
  }

  /** The key the cell ends up under, if any. */
  function NewId(op: Shift, id: string): Option<string> {
    match FateOf(op, id)
    case Dropped => None
    case Kept => Some(id)
    case MovedTo(n) => Some(n)
  }

  /** `{...cell, id: newCellId}` for a moved cell; a kept cell is stored as it is. */
  function Placed(op: Shift, id: string, c: Cell): Cell {
    match FateOf(op, id)
    case MovedTo(n) => c.(id := n)
    case _ => c
  }

  /** `out` holds the new key of every cell of `seen` that is not dropped, and every cell of
      `out` is some cell of `seen` placed under its new key. Which of two cells with the same new
      key wins depends on the order of the keys, which this leaves open. */
  ghost predicate RekeyedAmong(cells: Grid, op: Shift, seen: set<string>, out: Grid)
    requires seen <= cells.Keys
  {
    && (forall k :: k in seen && NewId(op, k).Some? ==> NewId(op, k).value in out)
    && (forall t :: t in out ==> exists k :: k in seen && NewId(op, k) == Some(t) && out[t] == Placed(op, k, cells[k]))
  }

  ghost predicate Rekeyed(cells: Grid, op: Shift, out: Grid) {
    RekeyedAmong(cells, op, cells.Keys, out)
  }

  /** The `for (const cellId in state.cells)` loop of the four edits, filling `newCells`. */
  method RekeyCells(cells: Grid, op: Shift) returns (newCells: Grid)
    ensures Rekeyed(cells, op, newCells)
  {
    newCells := map[];
    var keys := cells.Keys;
    ghost var seen: set<string> := {};
    while keys != {}
      invariant keys <= cells.Keys && seen == cells.Keys - keys
      invariant RekeyedAmong(cells, op, seen, newCells)
      decreases |keys|
    {
      var cellId :| cellId in keys;
      ghost var before := newCells;
      match FateOf(op, cellId) {
        case Dropped =>
        case Kept => newCells := newCells[cellId := cells[cellId]];
        case MovedTo(newCellId) => newCells := newCells[newCellId := cells[cellId].(id := newCellId)];
      }
      RekeyStep(cells, op, seen, cellId, before, newCells);
      KeysStep(cells.Keys, keys, seen, cellId);
      keys := keys - {cellId};
      seen := seen + {cellId};
    }
  }

  lemma RekeyStep(cells: Grid, op: Shift, seen: set<string>, k: string, before: Grid, after: Grid)
    requires seen <= cells.Keys && k in cells
    requires RekeyedAmong(cells, op, seen, before)
    requires after == if NewId(op, k).None? then before else before[NewId(op, k).value := Placed(op, k, cells[k])]
    ensures RekeyedAmong(cells, op, seen + {k}, after)
  {
    if NewId(op, k).None? {
      RekeyDropped(cells, op, seen, k, after);
    } else {
      RekeyPut(cells, op, seen, k, before, after);
    }
  }

  /** A dropped cell adds nothing. */
  lemma RekeyDropped(cells: Grid, op: Shift, seen: set<string>, k: string, out: Grid)
    requires seen <= cells.Keys && k in cells && NewId(op, k).None?
    requires RekeyedAmong(cells, op, seen, out)
    ensures RekeyedAmong(cells, op, seen + {k}, out)
  {
    forall j | j in seen + {k} && NewId(op, j).Some? ensures NewId(op, j).value in out {
      assert j in seen;
    }
    forall t | t in out
      ensures exists j :: j in seen + {k} && NewId(op, j) == Some(t) && out[t] == Placed(op, j, cells[j])
    {
      var j :| j in seen && NewId(op, j) == Some(t) && out[t] == Placed(op, j, cells[j]);
      assert j in seen + {k};
    }
  }

  /** A kept or moved cell is written under its new key. */
  lemma RekeyPut(cells: Grid, op: Shift, seen: set<string>, k: string, before: Grid, after: Grid)
    requires seen <= cells.Keys && k in cells && NewId(op, k).Some?
    requires RekeyedAmong(cells, op, seen, before)
    requires after == before[NewId(op, k).value := Placed(op, k, cells[k])]
    ensures RekeyedAmong(cells, op, seen + {k}, after)
  {
    forall j | j in seen + {k} && NewId(op, j).Some? ensures NewId(op, j).value in after {
      if j != k {
        assert j in seen;
      }
    }
    forall t | t in after
      ensures exists j :: j in seen + {k} && NewId(op, j) == Some(t) && after[t] == Placed(op, j, cells[j])
    {
      if NewId(op, k) == Some(t) {
        assert k in seen + {k};
      } else {
        var j :| j in seen && NewId(op, j) == Some(t) && before[t] == Placed(op, j, cells[j]);
        assert j in seen + {k};
      }
    }
  }

  /** The keys the cells end up under. */
  function Image(cells: Grid, op: Shift): set<string> {
    set k | k in cells && NewId(op, k).Some? :: NewId(op, k).value
  }

  /** No two cells are sent to the same key. */
  predicate Injective(cells: Grid, op: Shift) {
    forall a, b :: a in cells && b in cells && NewId(op, a).Some? && NewId(op, a) == NewId(op, b) ==> a == b
  }

  /** When no two cells collide, the result is determined: every cell that is not dropped
      sits under its new key, placed, and nothing else is there. */
  lemma RekeyedUnique(cells: Grid, op: Shift, out: Grid)
    requires Rekeyed(cells, op, out) && Injective(cells, op)
    ensures out.Keys == Image(cells, op)
    ensures forall k :: k in cells && NewId(op, k).Some? ==> out[NewId(op, k).value] == Placed(op, k, cells[k])
  {
    forall k | k in cells && NewId(op, k).Some?
      ensures out[NewId(op, k).value] == Placed(op, k, cells[k])
    {
      var t := NewId(op, k).value;
      var j :| j in cells && NewId(op, j) == Some(t) && out[t] == Placed(op, j, cells[j]);
    }
  }

  /** Every key a cell stores its own id under keeps that property under an edit. */
  predicate KeysMatchIds(cells: Grid) {
    forall k :: k in cells ==> cells[k].id == k
  }

  lemma RekeyedKeepsIds(cells: Grid, op: Shift, out: Grid)
    requires Rekeyed(cells, op, out)
    ensures KeysMatchIds(cells) ==> KeysMatchIds(out)
  {
    forall t | t in out && KeysMatchIds(cells) ensures out[t].id == t {
      var k :| k in cells && NewId(op, k) == Some(t) && out[t] == Placed(op, k, cells[k]);
    }
  }

  // ---------------------------------------------------------------- the edits on coordinates

  /** The reference definition of the edits on zero-based coordinates: inserting after a row
      moves every row whose one-based number exceeds the index one down, deleting drops the row
      and moves the later ones up, and likewise for columns. */
  function Shifted(op: Shift, row: nat, col: nat): Option<Coord> {
    match op
    case InsertRow(after) => Some(if row + 1 > after then Coord(row + 1, col) else Coord(row, col))
    case DeleteRow(index) =>
      if row == index then None else if row > index then Some(Coord(row - 1, col)) else Some(Coord(row, col))
    case InsertColumn(after) => Some(if col > after then Coord(row, col + 1) else Coord(row, col))
    case DeleteColumn(index) =>
      if col == index then None else if col > index then Some(Coord(row, col - 1)) else Some(Coord(row, col))
  }

  /** The id of a shifted coordinate. */
  function ShiftedId(op: Shift, row: nat, col: nat): Option<string> {
    match Shifted(op, row, col)
    case None => None
    case Some(c) => Some(GetCellId(c.row, c.col))
  }

  /** The ids an edit handles as the coordinates say: a deleted row or column index is not
      negative, a column edit sees one letter, and an insertion does not move the last letter
      past 'Z'. */
  predicate Fits(op: Shift, col: nat) {
    match op
    case InsertRow(_) => true
    case DeleteRow(index) => index >= 0
    case InsertColumn(after) => col < 25 || col <= after
    case DeleteColumn(index) => col < 26 && index >= 0
  }

  lemma CellIdParts(row: nat, col: nat)
    ensures var id := GetCellId(row, col);
      var l := |ColumnName(col)|;
      && FindRef(id, 0) == Some(RefMatch(0, l, |id|))
      && id[0..l] == ColumnName(col) && id[l..|id|] == NatToString(row + 1)
      && DigitsValue(id[l..|id|]) == row + 1
  {
    CellIdMatch(row, col);
    var id := GetCellId(row, col);
    var l := |ColumnName(col)|;
    assert id[0..l] == id[..l];
    assert id[l..|id|] == id[l..];
    DigitsRoundTrip(row + 1);
  }

  /** On a canonical id the textual edit is the edit on coordinates, for row edits always and
      for column edits on the columns that fit. */
  lemma ShiftCanonical(op: Shift, row: nat, col: nat)
    requires Fits(op, col)
    ensures NewId(op, GetCellId(row, col)) == ShiftedId(op, row, col)
  {
    if op.InsertRow? || op.DeleteRow? {
      RowShiftCanonical(op, row, col);
    } else {
      ColumnShiftCanonical(op, row, col);
    }
  }

  lemma RowShiftCanonical(op: Shift, row: nat, col: nat)
    requires op.InsertRow? || op.DeleteRow?
    ensures NewId(op, GetCellId(row, col)) == ShiftedId(op, row, col)
  {
    CellIdParts(row, col);
    assert GetCellId(row + 1, col) == ColumnName(col) + IntToString(row + 1 + 1);
    assert GetCellId(row - 1, col) == ColumnName(col) + IntToString(row + 1 - 1);
  }

  lemma ColumnShiftCanonical(op: Shift, row: nat, col: nat)
    requires op.InsertColumn? || op.DeleteColumn?
    requires Fits(op, col)
    ensures NewId(op, GetCellId(row, col)) == ShiftedId(op, row, col)
  {
    var id := GetCellId(row, col);
    CellIdParts(row, col);
    var l := |ColumnName(col)|;
    if col < 26 {
      assert ColumnName(col) == [Letter(col)];
      assert id[0..l][0] as int - 65 == col;
      if col + 1 < 26 {
        assert GetCellId(row, col + 1) == [Letter(col + 1)] + NatToString(row + 1);
      }
      if col >= 1 {
        assert GetCellId(row, col - 1) == [Letter(col - 1)] + NatToString(row + 1);
      }
    } else {
      assert IsUpper(ColumnName(col)[0]);
    }
  }

  /** The coordinates a letter-shift produces are distinct. */
  lemma ShiftedInjective(op: Shift, r1: nat, c1: nat, r2: nat, c2: nat)
    requires Shifted(op, r1, c1).Some? && Shifted(op, r1, c1) == Shifted(op, r2, c2)
    ensures r1 == r2 && c1 == c2
  {
  }

  /** Every key is the canonical id of a coordinate the edit fits. */
  ghost predicate OnGrid(cells: Grid, op: Shift) {
    forall k :: k in cells ==> exists row: nat, col: nat :: Fits(op, col) && k == GetCellId(row, col)
  }

  lemma ShiftedNatural(op: Shift, row: nat, col: nat)
    requires Fits(op, col) && Shifted(op, row, col).Some?
    ensures Shifted(op, row, col).value.row >= 0 && Shifted(op, row, col).value.col >= 0
  {
  }

  /** On canonical ids the edits send no two cells to the same key. */
  lemma CanonicalInjective(cells: Grid, op: Shift)
    requires OnGrid(cells, op)
    ensures Injective(cells, op)
  {
    forall a, b | a in cells && b in cells && NewId(op, a).Some? && NewId(op, a) == NewId(op, b)
      ensures a == b
    {
      var r1: nat, c1: nat :| Fits(op, c1) && a == GetCellId(r1, c1);
      var r2: nat, c2: nat :| Fits(op, c2) && b == GetCellId(r2, c2);
      SameTarget(op, r1, c1, r2, c2);
    }
  }

  /** Two canonical ids that an edit sends to the same id are the same coordinate. */
  lemma SameTarget(op: Shift, r1: nat, c1: nat, r2: nat, c2: nat)
    requires Fits(op, c1) && Fits(op, c2)
    requires NewId(op, GetCellId(r1, c1)).Some? && NewId(op, GetCellId(r1, c1)) == NewId(op, GetCellId(r2, c2))
    ensures r1 == r2 && c1 == c2
  {
    ShiftCanonical(op, r1, c1);
    ShiftCanonical(op, r2, c2);
    ShiftedNatural(op, r1, c1);
    ShiftedNatural(op, r2, c2);
    var s1, s2 := Shifted(op, r1, c1).value, Shifted(op, r2, c2).value;
    CellIdRoundTrip(s1.row, s1.col);
    CellIdRoundTrip(s2.row, s2.col);
    ShiftedInjective(op, r1, c1, r2, c2);
  }

  /** The cell of a coordinate the edit does not delete moves to the id of the shifted
      coordinate and takes that id. */
  lemma CanonicalCell(cells: Grid, op: Shift, row: nat, col: nat)
    requires KeysMatchIds(cells) && GetCellId(row, col) in cells && Fits(op, col) && Shifted(op, row, col).Some?
    ensures NewId(op, GetCellId(row, col)) == ShiftedId(op, row, col)
    ensures Placed(op, GetCellId(row, col), cells[GetCellId(row, col)])
         == cells[GetCellId(row, col)].(id := ShiftedId(op, row, col).value)
  {
    ShiftCanonical(op, row, col);
  }

  /** On a canonical grid whose cells carry their own keys as ids, an edit leaves exactly the
      shifted cells: the cell of every coordinate that is not deleted sits under the id of its
      shifted coordinate, with that id, and nothing else is in the grid. */
  lemma CanonicalRekey(cells: Grid, op: Shift, out: Grid)
    requires KeysMatchIds(cells) && OnGrid(cells, op) && Rekeyed(cells, op, out)
    ensures out.Keys == Image(cells, op) && KeysMatchIds(out)
    ensures forall row: nat, col: nat :: GetCellId(row, col) in cells && Fits(op, col) && Shifted(op, row, col).Some? ==>
      var t := ShiftedId(op, row, col).value;
      t in out && out[t] == cells[GetCellId(row, col)].(id := t)
  {
    CanonicalInjective(cells, op);
    RekeyedUnique(cells, op, out);
    RekeyedKeepsIds(cells, op, out);
    forall row: nat, col: nat | GetCellId(row, col) in cells && Fits(op, col) && Shifted(op, row, col).Some?
      ensures ShiftedId(op, row, col).value in out
      ensures out[ShiftedId(op, row, col).value] == cells[GetCellId(row, col)].(id := ShiftedId(op, row, col).value)
    {
      CanonicalCell(cells, op, row, col);
    }
  }

  lemma LetterRunTo(s: string, i: nat, mid: nat)
    requires i <= mid < |s| && !IsUpper(s[mid]) && forall k :: i <= k < mid ==> IsUpper(s[k])
    ensures LetterRunEnd(s, i) == mid
    decreases mid - i
  {
    if i < mid {
      LetterRunTo(s, i + 1, mid);
    }
  }

  lemma DigitRunTo(s: string, i: nat)
    requires i <= |s| && forall k :: i <= k < |s| ==> IsDigit(s[k])
    ensures DigitRunEnd(s, i) == |s|
    decreases |s| - i
  {
    if i < |s| {
      DigitRunTo(s, i + 1);
    }
  }

  /** An id made of capital letters followed by digits is one whole match. */
  lemma WholeRef(s: string, mid: nat)
    requires 0 < mid < |s| && IsDigit(s[mid])
    requires forall k :: 0 <= k < mid ==> IsUpper(s[k])
    requires forall k :: mid <= k < |s| ==> IsDigit(s[k])
    ensures FindRef(s, 0) == Some(RefMatch(0, mid, |s|))
  {
    LetterRunTo(s, 0, mid);
    DigitRunTo(s, mid);
  }

  lemma InsertBeforeA()
    ensures NewId(InsertColumn(-1), "A1") == Some("B1")
    ensures NewId(InsertColumn(-1), "AA1") == Some("B1")
  {
    WholeRef("A1", 1);
    WholeRef("AA1", 2);
    assert "A1"[1..2] == "1" && "AA1"[2..3] == "1";
    assert [CharCode(66)] + "1" == "B1";
  }

  /** Column edits read one letter: inserting a column before A sends both "A1" and "AA1" to
      "B1", so one of the two cells is lost. */
  lemma MultiLetterCollision(x: Cell, y: Cell, out: Grid)
    requires Rekeyed(map["A1" := x, "AA1" := y], InsertColumn(-1), out)
    ensures NewId(InsertColumn(-1), "A1") == Some("B1") == NewId(InsertColumn(-1), "AA1")
    ensures out.Keys == {"B1"}
  {
    InsertBeforeA();
    var cells := map["A1" := x, "AA1" := y];
    forall t | t in out ensures t == "B1" {
      var k :| k in cells && NewId(InsertColumn(-1), k) == Some(t) && out[t] == Placed(InsertColumn(-1), k, cells[k]);
      assert k == "A1" || k == "AA1";
    }
    assert "A1" in cells;
  }

  /** Inserting a column after A moves "Z1" to "[1", past the letters. */
  lemma LastColumnInsert()
    ensures NewId(InsertColumn(0), "Z1") == Some("[1")
  {
    WholeRef("Z1", 1);
    assert "Z1"[1..2] == "1";
    assert [CharCode(91)] + "1" == "[1";
  }
}
