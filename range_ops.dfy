/** The two operations on a selected range: find-and-replace over text values and removal of
    rows that repeat an earlier row. Both return a new grid and leave the given one alone. */
module RangeOps {

  import opened Types
  import opened Text
  import opened CellUtils

  // ---------------------------------------------------------------- find and replace

  /** A text value with every occurrence of `find` replaced; numbers and empty values are
      left alone. */
  function ReplaceValue(v: CellValue, find: string, rep: string): CellValue {
    match v
    case Text(s) => Text(ReplaceAll(s, find, rep))
    case _ => v
  }

  /** `findAndReplace(range, find, rep, cells)`: every existing cell of the range with a text
      value gets that value rewritten; every other cell is copied. */
  function FindAndReplace(range: seq<string>, find: string, rep: string, cells: Grid): Grid {
    map k | k in cells :: if k in range then cells[k].(value := ReplaceValue(cells[k].value, find, rep)) else cells[k]
  }

  /** The loop of `findAndReplace`. */
  method FindAndReplaceCells(range: seq<string>, findText: string, replaceText: string, cells: Grid)
    returns (updated: Grid)
    ensures updated == FindAndReplace(range, findText, replaceText, cells)
  {
    updated := cells;
    for i := 0 to |range|
      invariant updated == FindAndReplace(range[..i], findText, replaceText, cells)
    {
      var cellId := range[i];
      assert forall k :: k in range[..i + 1] <==> k in range[..i] || k == cellId;
      if cellId in cells && cells[cellId].value.Text? {
        var newValue := ReplaceAll(cells[cellId].value.s, findText, replaceText);
        updated := updated[cellId := cells[cellId].(value := Text(newValue))];
      }
    }
    assert range[..|range|] == range;
  }

  /** The grid is the same everywhere but in the values of text cells of the range. */
  lemma FindAndReplaceFrame(range: seq<string>, find: string, rep: string, cells: Grid)
    ensures var r := FindAndReplace(range, find, rep, cells);
      && r.Keys == cells.Keys
      && (forall k :: k in cells ==> r[k].(value := cells[k].value) == cells[k])
      && (forall k :: k in cells && (k !in range || !cells[k].value.Text?) ==> r[k] == cells[k])
      && (forall k :: k in cells && k in range && cells[k].value.Text? ==>
            r[k].value == Text(ReplaceAll(cells[k].value.s, find, rep)))
  {
  }

  /** A non-empty pattern that no text of the range contains changes nothing. */
  lemma FindAbsent(range: seq<string>, find: string, rep: string, cells: Grid)
    requires find != []
    requires forall k :: k in cells && k in range && cells[k].value.Text? ==> !Contains(cells[k].value.s, find)
    ensures FindAndReplace(range, find, rep, cells) == cells
  {
    forall k | k in cells && k in range && cells[k].value.Text?
      ensures ReplaceValue(cells[k].value, find, rep) == cells[k].value
    {
      ReplaceAllAbsent(cells[k].value.s, find, rep);
    }
  }

  /** Replacing a non-empty pattern by itself changes nothing. */
  lemma ReplaceBySelf(range: seq<string>, find: string, cells: Grid)
    requires find != []
    ensures FindAndReplace(range, find, find, cells) == cells
  {
    forall k | k in cells && k in range && cells[k].value.Text?
      ensures ReplaceValue(cells[k].value, find, find) == cells[k].value
    {
      ReplaceAllBySelf(cells[k].value.s, find);
    }
  }

  /** The empty pattern matches before every character and at the end. */
  lemma EmptyPattern()
    ensures ReplaceValue(Text("ab"), "", "-") == Text("-a-b-")
  {
    assert "ab"[1..] == "b";
    assert "b"[1..] == "";
  }

  // ---------------------------------------------------------------- remove duplicates

  /** The row number of the first `[A-Z]+(\d+)` match of an id, as `parseInt` reads it. */
  function RowOf(id: string): Option<nat> {
    match FindRef(id, 0)
    case None => None
    case Some(m) => Some(DigitsValue(id[m.mid..m.end]))
  }

  /** The rows of the range in order of first appearance, which is the key order of the map
      that groups the ids. */
  function Rows(range: seq<string>): seq<nat> {
    if range == [] then []
    else
      var rows := Rows(range[..|range| - 1]);
      match RowOf(range[|range| - 1])
      case None => rows
      case Some(r) => if r in rows then rows else rows + [r]
  }

  /** The ids of the range in row r, in range order. */
  function Members(range: seq<string>, r: nat): seq<string> {
    if range == [] then []
    else
      var last := range[|range| - 1];
      Members(range[..|range| - 1], r) + (if RowOf(last) == Some(r) then [last] else [])
  }

  /** `String(value)`: `null` prints as "null". */
  function ValueString(v: CellValue): string {
    match v
    case Empty => "null"
    case Text(s) => s
    case Number(n) => NumberText(n)
  }

  /** The text of one cell of a row: its value's text, or "" for a missing cell. */
  function CellString(cells: Grid, id: string): string {
    if id in cells then ValueString(cells[id].value) else ""
  }

  function Texts(ids: seq<string>, cells: Grid): (r: seq<string>)
    ensures |r| == |ids| && forall k :: 0 <= k < |ids| ==> r[k] == CellString(cells, ids[k])
  {
    seq(|ids|, k requires 0 <= k < |ids| => CellString(cells, ids[k]))
  }

  /** What rows are compared by: as written, the cell texts joined with `|`; when `exact`,
      the sequence of cell texts itself. */
  function RowKey(texts: seq<string>, exact: bool): seq<string> {
    if exact then texts else [Join(texts, "|")]
  }

  function KeyOf(range: seq<string>, cells: Grid, exact: bool, r: nat): seq<string> {
    RowKey(Texts(Members(range, r), cells), exact)
  }

  /** The keys of the rows, in row order. */
  function Keys(range: seq<string>, cells: Grid, exact: bool): (r: seq<seq<string>>)
    ensures |r| == |Rows(range)|
    ensures forall k :: 0 <= k < |r| ==> r[k] == KeyOf(range, cells, exact, Rows(range)[k])
  {
    var rows := Rows(range);
    seq(|rows|, k requires 0 <= k < |rows| => KeyOf(range, cells, exact, rows[k]))
  }

  /** Among the first j rows, those whose key an earlier row already has. */
  function DupsOf(rows: seq<nat>, keys: seq<seq<string>>, j: nat): set<nat>
    requires |keys| == |rows| && j <= |rows|
  {
    if j == 0 then {}
    else DupsOf(rows, keys, j - 1) + (if keys[j - 1] in keys[..j - 1] then {rows[j - 1]} else {})
  }

  function Duplicates(range: seq<string>, cells: Grid, exact: bool): set<nat> {
    var rows := Rows(range);
    DupsOf(rows, Keys(range, cells, exact), |rows|)
  }

  /** `{...cells[id], value: null}`; a missing cell becomes an empty cell. */
  function Blanked(cells: Grid, id: string): Cell {
    if id in cells then cells[id].(value := Empty) else CreateEmptyCell(id)
  }

  /** The ids of the range whose row is a duplicate. */
  function ClearedIds(range: seq<string>, cells: Grid, exact: bool): set<string> {
    set id | id in range && RowOf(id).Some? && RowOf(id).value in Duplicates(range, cells, exact)
  }

  /** The grid with the ids of s blanked. */
  function Overlay(cells: Grid, s: set<string>): Grid {
    map k | k in cells.Keys + s :: if k in s then Blanked(cells, k) else cells[k]
  }

  /** `removeDuplicates(range, cells)`: every row that repeats the key of an earlier row of
      the range has its cells blanked. */
  function RemoveDuplicates(range: seq<string>, cells: Grid, exact: bool): Grid {
    Overlay(cells, ClearedIds(range, cells, exact))
  }

  // ---------------------------------------------------------------- the method

  lemma MembersAbsent(range: seq<string>, r: nat)
    requires r !in Rows(range)
    ensures Members(range, r) == []
  {
  }

  lemma OverlayAdd(cells: Grid, s: set<string>, id: string)
    ensures Overlay(cells, s)[id := Blanked(cells, id)] == Overlay(cells, s + {id})
  {
  }

  /** The first loop: the ids grouped by row. */
  method GroupRows(range: seq<string>) returns (order: seq<nat>, rowMap: map<nat, seq<string>>)
    ensures order == Rows(range)
    ensures forall r :: r in rowMap <==> r in order
    ensures forall r :: r in rowMap ==> rowMap[r] == Members(range, r)
  {
    order := [];
    rowMap := map[];
    for i := 0 to |range|
      invariant order == Rows(range[..i])
      invariant forall r :: r in rowMap <==> r in order
      invariant forall r :: r in rowMap ==> rowMap[r] == Members(range[..i], r)
    {
      var cellId := range[i];
      PrefixOfPrefix(range, i);
      assert range[..i + 1][i] == cellId;
      var m := RowOf(cellId);
      if m.Some? {
        var rowNum := m.value;
        if rowNum !in rowMap {
          MembersAbsent(range[..i], rowNum);
          rowMap := rowMap[rowNum := []];
          order := order + [rowNum];
        }
        rowMap := rowMap[rowNum := rowMap[rowNum] + [cellId]];
      }
    }
    assert range[..|range|] == range;
  }

  /** The second loop: the rows whose key an earlier row has. */
  method FindDuplicates(order: seq<nat>, rowMap: map<nat, seq<string>>, cells: Grid, exact: bool, ghost keys: seq<seq<string>>)
    returns (duplicateRows: set<nat>)
    requires |keys| == |order|
    requires forall j :: 0 <= j < |order| ==> order[j] in rowMap && RowKey(Texts(rowMap[order[j]], cells), exact) == keys[j]
    ensures duplicateRows == DupsOf(order, keys, |order|)
  {
    var rowValues: map<seq<string>, nat> := map[];
    duplicateRows := {};
    for j := 0 to |order|
      invariant forall key :: key in rowValues <==> key in keys[..j]
      invariant duplicateRows == DupsOf(order, keys, j)
    {
      var rowNum := order[j];
      var cellIds := rowMap[rowNum];
      var rowValueString := RowKey(Texts(cellIds, cells), exact);
      SeenStep(keys, j);
      if rowValueString in rowValues {
        duplicateRows := duplicateRows + {rowNum};
      } else {
        rowValues := rowValues[rowValueString := rowNum];
      }
    }
  }

  lemma SeenStep(keys: seq<seq<string>>, j: nat)
    requires j < |keys|
    ensures forall key :: key in keys[..j + 1] <==> key in keys[..j] || key == keys[j]
  {
    TakeSnoc(keys, j);
  }

  function SetOf(s: seq<string>): set<string> {
    set x | x in s
  }

  /** The ids of the range whose row is among `rows` and a duplicate. */
  function ClearedAmong(range: seq<string>, rows: seq<nat>, dups: set<nat>): set<string> {
    set id | id in range && RowOf(id).Some? && RowOf(id).value in rows && RowOf(id).value in dups
  }

  /** The inner loop of the third: one row's cells blanked. */
  method BlankCells(cells: Grid, updated0: Grid, ghost done: set<string>, cellIds: seq<string>)
    returns (updated: Grid)
    requires updated0 == Overlay(cells, done)
    ensures updated == Overlay(cells, done + SetOf(cellIds))
  {
    updated := updated0;
    ghost var blanked := done;
    for t := 0 to |cellIds|
      invariant blanked == done + SetOf(cellIds[..t])
      invariant updated == Overlay(cells, blanked)
    {
      OverlayAdd(cells, blanked, cellIds[t]);
      SetOfSnoc(cellIds, t);
      updated := updated[cellIds[t] := Blanked(cells, cellIds[t])];
      blanked := blanked + {cellIds[t]};
    }
    assert cellIds[..|cellIds|] == cellIds;
  }

  lemma SetOfSnoc(s: seq<string>, t: nat)
    requires t < |s|
    ensures SetOf(s[..t + 1]) == SetOf(s[..t]) + {s[t]}
  {
    TakeSnoc(s, t);
  }

  /** One pass of the third loop: the cells of row `order[j]` blanked when it is a duplicate. */
  method ClearRow(cells: Grid, updated0: Grid, ghost done0: set<string>, range: seq<string>, order: seq<nat>, j: nat,
                  rowMap: map<nat, seq<string>>, duplicateRows: set<nat>)
    returns (updated: Grid, ghost done: set<string>)
    requires j < |order|
    requires updated0 == Overlay(cells, done0)
    requires done0 == ClearedAmong(range, order[..j], duplicateRows)
    requires order[j] in rowMap && rowMap[order[j]] == Members(range, order[j])
    ensures updated == Overlay(cells, done)
    ensures done == ClearedAmong(range, order[..j + 1], duplicateRows)
  {
    var rowNum := order[j];
    MembersIff(range, rowNum);
    RowsStep(order, j, range, duplicateRows);
    if rowNum in duplicateRows {
      var cellIds := rowMap[rowNum];
      updated := BlankCells(cells, updated0, done0, cellIds);
      done := done0 + SetOf(cellIds);
    } else {
      updated := updated0;
      done := done0;
      assert done0 + {} == done0;
    }
  }

  /** The third loop: the cells of the duplicate rows blanked. */
  method ClearRows(range: seq<string>, cells: Grid, order: seq<nat>, rowMap: map<nat, seq<string>>,
                   duplicateRows: set<nat>)
    returns (updated: Grid)
    requires forall r :: r in rowMap <==> r in order
    requires forall r :: r in rowMap ==> rowMap[r] == Members(range, r)
    ensures updated == Overlay(cells, ClearedAmong(range, order, duplicateRows))
  {
    updated := cells;
    ghost var done: set<string> := {};
    for j := 0 to |order|
      invariant updated == Overlay(cells, done)
      invariant done == ClearedAmong(range, order[..j], duplicateRows)
    {
      assert order[j] in order;
      updated, done := ClearRow(cells, updated, done, range, order, j, rowMap, duplicateRows);
    }
    assert order[..|order|] == order;
  }

  /** Clearing the duplicates among all the rows of the range clears exactly the ids
      `removeDuplicates` blanks. */
  lemma ClearedAllRows(range: seq<string>, cells: Grid, exact: bool, dups: set<nat>)
    requires dups == Duplicates(range, cells, exact)
    ensures ClearedAmong(range, Rows(range), dups) == ClearedIds(range, cells, exact)
  {
    RowsCover(range);
  }

  /** `removeDuplicates`. */
  method RemoveDuplicateRows(range: seq<string>, cells: Grid, exact: bool) returns (updated: Grid)
    ensures updated == RemoveDuplicates(range, cells, exact)
  {
    var order, rowMap := GroupRows(range);
    ghost var keys := Keys(range, cells, exact);
    forall j | 0 <= j < |order| ensures order[j] in rowMap && RowKey(Texts(rowMap[order[j]], cells), exact) == keys[j] {
    }
    var duplicateRows := FindDuplicates(order, rowMap, cells, exact, keys);
    updated := ClearRows(range, cells, order, rowMap, duplicateRows);
    ClearedAllRows(range, cells, exact, duplicateRows);
  }

  // ---------------------------------------------------------------- rows and members

  /** An id belongs to row r's members exactly when it is in the range with that row. */
  lemma {:induction false} MembersIff(range: seq<string>, r: nat)
    ensures forall id :: id in Members(range, r) <==> id in range && RowOf(id) == Some(r)
  {
    if range != [] {
      var init := range[..|range| - 1];
      MembersIff(init, r);
      InitLast(range);
    }
  }

  /** Every row number read from the range is among its rows, and only those. */
  lemma {:induction false} RowsCover(range: seq<string>)
    ensures forall id :: id in range && RowOf(id).Some? ==> RowOf(id).value in Rows(range)
    ensures forall r :: r in Rows(range) ==> exists id :: id in range && RowOf(id) == Some(r)
  {
    if range != [] {
      var init := range[..|range| - 1];
      RowsCover(init);
      InitLast(range);
      forall r | r in Rows(range) ensures exists id :: id in range && RowOf(id) == Some(r) {
        if r in Rows(init) {
          var id :| id in init && RowOf(id) == Some(r);
          assert id in range;
        } else {
          assert RowOf(range[|range| - 1]) == Some(r);
        }
      }
    }
  }

  /** The cleared ids of the first j + 1 rows. */
  lemma RowsStep(order: seq<nat>, j: nat, range: seq<string>, dups: set<nat>)
    requires j < |order|
    requires forall id :: id in Members(range, order[j]) <==> id in range && RowOf(id) == Some(order[j])
    ensures ClearedAmong(range, order[..j + 1], dups)
      == ClearedAmong(range, order[..j], dups) + (if order[j] in dups then SetOf(Members(range, order[j])) else {})
  {
    TakeSnoc(order, j);
  }

  // ---------------------------------------------------------------- what removal means

  /** The row of a canonical id is its one-based row number. */
  lemma RowOfCellId(row: nat, col: nat)
    ensures RowOf(GetCellId(row, col)) == Some(row + 1)
  {
    var id := GetCellId(row, col);
    CellIdMatch(row, col);
    assert id[|ColumnName(col)|..|id|] == id[|ColumnName(col)|..];
    DigitsRoundTrip(row + 1);
  }

  /** No row is listed twice. */
  lemma {:induction false} RowsDistinct(range: seq<string>)
    ensures forall i, k :: 0 <= i < k < |Rows(range)| ==> Rows(range)[i] != Rows(range)[k]
  {
    if range != [] {
      RowsDistinct(range[..|range| - 1]);
    }
  }

  /** The rows counted among the first j are those whose key occurs earlier. */
  lemma {:induction false} DupsOfIff(rows: seq<nat>, keys: seq<seq<string>>, j: nat)
    requires |keys| == |rows| && j <= |rows|
    ensures forall r :: r in DupsOf(rows, keys, j) <==> exists i :: 0 <= i < j && rows[i] == r && keys[i] in keys[..i]
  {
    if j > 0 {
      DupsOfIff(rows, keys, j - 1);
    }
  }

  /** Over distinct rows, the i-th is counted exactly when an earlier key equals its own. */
  lemma DupsOfAt(rows: seq<nat>, keys: seq<seq<string>>, i: nat)
    requires |keys| == |rows| && i < |rows|
    requires forall a, b :: 0 <= a < b < |rows| ==> rows[a] != rows[b]
    ensures rows[i] in DupsOf(rows, keys, |rows|) <==> exists k :: 0 <= k < i && keys[k] == keys[i]
  {
    DupsOfIff(rows, keys, |rows|);
    if rows[i] in DupsOf(rows, keys, |rows|) {
      var i' :| 0 <= i' < |rows| && rows[i'] == rows[i] && keys[i'] in keys[..i'];
      assert i' == i;
      var k :| 0 <= k < i && keys[..i][k] == keys[i];
      assert keys[k] == keys[i];
    }
    if exists k :: 0 <= k < i && keys[k] == keys[i] {
      var k :| 0 <= k < i && keys[k] == keys[i];
      assert keys[..i][k] == keys[i];
    }
  }

  /** The i-th row is a duplicate exactly when some earlier row has the same key. */
  lemma DuplicatesIff(range: seq<string>, cells: Grid, exact: bool, i: nat)
    requires i < |Rows(range)|
    ensures var rows := Rows(range);
      rows[i] in Duplicates(range, cells, exact) <==>
      exists k :: 0 <= k < i && KeyOf(range, cells, exact, rows[k]) == KeyOf(range, cells, exact, rows[i])
  {
    var rows := Rows(range);
    var keys := Keys(range, cells, exact);
    RowsDistinct(range);
    DupsOfAt(rows, keys, i);
  }

  /** Only rows of the range are ever counted. */
  lemma DuplicatesAreRows(range: seq<string>, cells: Grid, exact: bool)
    ensures forall r :: r in Duplicates(range, cells, exact) ==> r in Rows(range)
  {
    var rows := Rows(range);
    var keys := Keys(range, cells, exact);
    DupsOfIff(rows, keys, |rows|);
    assert Duplicates(range, cells, exact) == DupsOf(rows, keys, |rows|);
  }

  /** Two rows hold the same texts, cell by cell. */
  predicate SameTexts(cells: Grid, a: seq<string>, b: seq<string>) {
    |a| == |b| && forall t :: 0 <= t < |a| ==> CellString(cells, a[t]) == CellString(cells, b[t])
  }

  lemma TextsEqual(cells: Grid, a: seq<string>, b: seq<string>)
    ensures Texts(a, cells) == Texts(b, cells) <==> SameTexts(cells, a, b)
  {
    if SameTexts(cells, a, b) {
      assert forall t :: 0 <= t < |a| ==> Texts(a, cells)[t] == Texts(b, cells)[t];
    }
  }

  /** With exact keys, a row is cleared exactly when an earlier row has as many cells with the
      same text in each. */
  lemma ExactDuplicates(range: seq<string>, cells: Grid, i: nat)
    requires i < |Rows(range)|
    ensures var rows := Rows(range);
      rows[i] in Duplicates(range, cells, true) <==>
      exists k :: 0 <= k < i && SameTexts(cells, Members(range, rows[k]), Members(range, rows[i]))
  {
    var rows := Rows(range);
    DuplicatesIff(range, cells, true, i);
    forall k | 0 <= k < i
      ensures KeyOf(range, cells, true, rows[k]) == KeyOf(range, cells, true, rows[i])
          <==> SameTexts(cells, Members(range, rows[k]), Members(range, rows[i]))
    {
      TextsEqual(cells, Members(range, rows[k]), Members(range, rows[i]));
    }
  }

  /** Rows equal cell by cell also have equal joined texts, so exact keys clear no more rows
      than joined ones. */
  lemma ExactWithinJoined(range: seq<string>, cells: Grid)
    ensures Duplicates(range, cells, true) <= Duplicates(range, cells, false)
  {
    var rows := Rows(range);
    DuplicatesAreRows(range, cells, true);
    forall r | r in Duplicates(range, cells, true) ensures r in Duplicates(range, cells, false) {
      var i :| 0 <= i < |rows| && rows[i] == r;
      DuplicatesIff(range, cells, true, i);
      DuplicatesIff(range, cells, false, i);
      var k :| 0 <= k < i && KeyOf(range, cells, true, rows[k]) == KeyOf(range, cells, true, rows[i]);
      assert KeyOf(range, cells, false, rows[k]) == KeyOf(range, cells, false, rows[i]);
    }
  }

  /** Every key keeps one row: for each row, an uncleared row at or before it has its key. */
  lemma {:induction false} KeptRepresentative(range: seq<string>, cells: Grid, exact: bool, i: nat)
    requires i < |Rows(range)|
    ensures var rows := Rows(range);
      exists k :: 0 <= k <= i && rows[k] !in Duplicates(range, cells, exact)
        && KeyOf(range, cells, exact, rows[k]) == KeyOf(range, cells, exact, rows[i])
    decreases i
  {
    var rows := Rows(range);
    DuplicatesIff(range, cells, exact, i);
    if rows[i] in Duplicates(range, cells, exact) {
      var k :| 0 <= k < i && KeyOf(range, cells, exact, rows[k]) == KeyOf(range, cells, exact, rows[i]);
      KeptRepresentative(range, cells, exact, k);
    }
  }

  /** What happens to each cell: one in a cleared row of the range has its value emptied and
      keeps every other field; every other cell is unchanged; no other id appears. */
  lemma RemoveDuplicatesCells(range: seq<string>, cells: Grid, exact: bool)
    ensures var out := RemoveDuplicates(range, cells, exact);
      var dups := Duplicates(range, cells, exact);
      && (forall id :: id in out <==> id in cells || (id in range && RowOf(id).Some? && RowOf(id).value in dups))
      && (forall id :: id in range && RowOf(id).Some? && RowOf(id).value in dups ==>
            out[id].value == Empty && (id in cells ==> out[id].(value := cells[id].value) == cells[id]))
      && (forall id :: id in cells && !(id in range && RowOf(id).Some? && RowOf(id).value in dups) ==>
            out[id] == cells[id])
  {
  }

  /** The rows and members of a two-by-two block of ids. */
  lemma SquareRows(a1: string, b1: string, a2: string, b2: string)
    requires RowOf(a1) == Some(1) && RowOf(b1) == Some(1) && RowOf(a2) == Some(2) && RowOf(b2) == Some(2)
    ensures Rows([a1, b1, a2, b2]) == [1, 2]
    ensures Members([a1, b1, a2, b2], 1) == [a1, b1] && Members([a1, b1, a2, b2], 2) == [a2, b2]
  {
    var range := [a1, b1, a2, b2];
    assert range[..3] == [a1, b1, a2];
    assert [a1, b1, a2][..2] == [a1, b1];
    assert [a1, b1][..1] == [a1];
    assert [a1][..0] == [];
    SquareRowNumbers(a1, b1, a2, b2);
    SquareMembers(a1, b1, a2, b2);
  }

  /** The rows of the first one, two and three ids of the block. */
  lemma SquareRowNumbers(a1: string, b1: string, a2: string, b2: string)
    requires RowOf(a1) == Some(1) && RowOf(b1) == Some(1) && RowOf(a2) == Some(2)
    ensures Rows([a1, b1, a2]) == [1, 2]
  {
    assert [a1, b1, a2][..2] == [a1, b1];
    assert [a1, b1][..1] == [a1];
    assert [a1][..0] == [];
    assert Rows([a1]) == [1];
    assert Rows([a1, b1]) == [1];
  }

  /** The members of rows 1 and 2 among the first three ids of the block. */
  lemma SquareMembers(a1: string, b1: string, a2: string, b2: string)
    requires RowOf(a1) == Some(1) && RowOf(b1) == Some(1) && RowOf(a2) == Some(2)
    ensures Members([a1, b1, a2], 1) == [a1, b1] && Members([a1, b1, a2], 2) == [a2]
  {
    assert [a1, b1, a2][..2] == [a1, b1];
    assert [a1, b1][..1] == [a1];
    assert [a1][..0] == [];
    assert Members([a1], 1) == [a1] && Members([a1], 2) == [];
    assert Members([a1, b1], 1) == [a1, b1] && Members([a1, b1], 2) == [];
  }

  /** The row texts in each comparison mode. */
  lemma CollidingKeys(cells: Grid, a1: string, b1: string, a2: string, b2: string)
    requires a1 in cells && b1 in cells && a2 in cells && b2 in cells
    requires cells[a1].value == Text("a|b") && cells[b1].value == Text("c")
    requires cells[a2].value == Text("a") && cells[b2].value == Text("b|c")
    ensures RowKey(Texts([a1, b1], cells), false) == RowKey(Texts([a2, b2], cells), false)
    ensures RowKey(Texts([a1, b1], cells), true) != RowKey(Texts([a2, b2], cells), true)
  {
    var row1, row2 := Texts([a1, b1], cells), Texts([a2, b2], cells);
    assert row1 == ["a|b", "c"];
    assert row2 == ["a", "b|c"];
    assert row1[..1] == ["a|b"] && row2[..1] == ["a"];
    assert Join(row1, "|") == "a|b" + "|" + "c";
    assert Join(row2, "|") == "a" + "|" + "b|c";
    assert "a|b" + "|" + "c" == "a" + "|" + "b|c";
    assert row1[0] != row2[0];
  }

  /** The collision on any two-by-two block: the second row is cleared with joined keys and
      kept with exact ones. */
  lemma CollisionOn(cells: Grid, a1: string, b1: string, a2: string, b2: string)
    requires RowOf(a1) == Some(1) && RowOf(b1) == Some(1) && RowOf(a2) == Some(2) && RowOf(b2) == Some(2)
    requires a1 in cells && b1 in cells && a2 in cells && b2 in cells
    requires cells[a1].value == Text("a|b") && cells[b1].value == Text("c")
    requires cells[a2].value == Text("a") && cells[b2].value == Text("b|c")
    ensures 2 in Duplicates([a1, b1, a2, b2], cells, false)
    ensures 2 !in Duplicates([a1, b1, a2, b2], cells, true)
  {
    var range := [a1, b1, a2, b2];
    SquareRows(a1, b1, a2, b2);
    CollidingKeys(cells, a1, b1, a2, b2);
    DuplicatesIff(range, cells, false, 1);
    DuplicatesIff(range, cells, true, 1);
    assert Rows(range)[0] == 1 && Rows(range)[1] == 2;
    assert KeyOf(range, cells, false, 1) == KeyOf(range, cells, false, 2);
    assert KeyOf(range, cells, true, 1) != KeyOf(range, cells, true, 2);
  }

  /** As written, rows are compared through their texts joined with `|`, so two different
      rows whose texts contain the separator collide: `a|b`,`c` and `a`,`b|c` both join to
      `a|b|c`. Comparing the texts themselves keeps the second row. */
  lemma SeparatorCollision()
    ensures var a1, b1, a2, b2 := GetCellId(0, 0), GetCellId(0, 1), GetCellId(1, 0), GetCellId(1, 1);
      var cells := map[a1 := TextAt(a1, "a|b"), b1 := TextAt(b1, "c"), a2 := TextAt(a2, "a"), b2 := TextAt(b2, "b|c")];
      && 2 in Duplicates([a1, b1, a2, b2], cells, false)
      && 2 !in Duplicates([a1, b1, a2, b2], cells, true)
  {
    var a1, b1, a2, b2 := GetCellId(0, 0), GetCellId(0, 1), GetCellId(1, 0), GetCellId(1, 1);
    RowOfCellId(0, 0);
    RowOfCellId(0, 1);
    RowOfCellId(1, 0);
    RowOfCellId(1, 1);
    SquareIds();
    var cells := map[a1 := TextAt(a1, "a|b"), b1 := TextAt(b1, "c"), a2 := TextAt(a2, "a"), b2 := TextAt(b2, "b|c")];
    CollisionOn(cells, a1, b1, a2, b2);
  }

  /** A text cell for the examples. */
  function TextAt(id: string, s: string): Cell {
    CreateEmptyCell(id).(value := Text(s), kind := TextCell)
  }
}
