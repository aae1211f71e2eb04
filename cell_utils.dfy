/** Cell addresses: column letters and column numbers (bijective base 26), cell ids and
    zero-based (row, column) pairs, rectangular ranges, the numeric test and the empty cell. */
module CellUtils {

  import opened Types
  import opened Text

  function Letter(d: int): char
    requires 0 <= d < 26
  {
    (65 + d) as char
  }

  // ---------------------------------------------------------------- columns

  /** The column name of a zero-based column number: 0 -> "A", 25 -> "Z", 26 -> "AA". */
  function ColumnName(i: nat): (r: string)
    ensures r != [] && AllUpper(r)
  {
    if i < 26 then [Letter(i)] else ColumnName(i / 26 - 1) + [Letter(i % 26)]
  }

  /** What `indexToColumn` returns for any integer: no letters for a negative index. */
  function ColumnLabel(i: int): string {
    if i < 0 then "" else ColumnName(i)
  }

  /** `indexToColumn`: prepends one letter per bijective base-26 digit. */
  method IndexToColumn(index: int) returns (column: string)
    ensures column == ColumnLabel(index)
  {
    column := "";
    var temp := index;
    while temp >= 0
      invariant temp >= -1 || temp == index
      invariant ColumnLabel(temp) + column == ColumnLabel(index)
      decreases temp + 1
    {
      column := [Letter(temp % 26)] + column;
      temp := temp / 26 - 1;
    }
  }

  /** Each character read as the digit `charCode - 64`, most significant first. */
  function ColumnValue(s: string): int {
    if s == [] then 0 else ColumnValue(s[..|s| - 1]) * 26 + (s[|s| - 1] as int - 64)
  }

  /** What `columnToIndex` returns. */
  function ColumnNumber(s: string): int {
    ColumnValue(s) - 1
  }

  /** `columnToIndex`. */
  method ColumnToIndex(column: string) returns (index: int)
    ensures index == ColumnNumber(column)
  {
    var result := 0;
    for i := 0 to |column|
      invariant result == ColumnValue(column[..i])
    {
      assert column[..i + 1][..i] == column[..i];
      result := result * 26 + (column[i] as int - 64);
    }
    assert column[..|column|] == column;
    index := result - 1;
  }

  lemma {:induction false} ColumnRoundTrip(i: nat)
    ensures ColumnNumber(ColumnName(i)) == i
  {
    if i >= 26 {
      ColumnRoundTrip(i / 26 - 1);
      var s := ColumnName(i);
      assert s[..|s| - 1] == ColumnName(i / 26 - 1);
      assert s[|s| - 1] as int - 64 == i % 26 + 1;
      assert ColumnValue(s) == (i / 26) * 26 + i % 26 + 1;
      assert (i / 26) * 26 + i % 26 == i;
    } else {
      assert ColumnName(i) == [Letter(i)];
      assert ColumnName(i)[..0] == [];
      assert Letter(i) as int == 65 + i;
      assert ColumnValue(ColumnName(i)) == ColumnValue([]) * 26 + (Letter(i) as int - 64);
    }
  }

  lemma {:induction false} ColumnValuePositive(s: string)
    requires s != [] && AllUpper(s)
    ensures ColumnValue(s) >= 1
  {
    if |s| > 1 {
      ColumnValuePositive(s[..|s| - 1]);
    }
  }

  /** Every non-empty string of capital letters is the name of its own column number. */
  lemma {:induction false} ColumnNameRoundTrip(s: string)
    requires s != [] && AllUpper(s)
    ensures ColumnNumber(s) >= 0 && ColumnName(ColumnNumber(s)) == s
  {
    var p := s[..|s| - 1];
    var d := s[|s| - 1] as int - 65;
    assert 0 <= d < 26;
    assert s == p + [Letter(d)];
    assert s[..|s| - 1] == p;
    assert ColumnValue(s) == ColumnValue(p) * 26 + d + 1;
    if p == [] {
      assert ColumnNumber(s) == d;
    } else {
      ColumnNameRoundTrip(p);
      ColumnValuePositive(p);
      var v := ColumnValue(p);
      var i := v * 26 + d;
      assert ColumnNumber(s) == i;
      assert i / 26 == v && i % 26 == d;
      assert ColumnName(i) == ColumnName(v - 1) + [Letter(d)];
    }
  }

  lemma ColumnNameExamples()
    ensures ColumnName(0) == "A" && ColumnName(25) == "Z" && ColumnName(26) == "AA"
    ensures ColumnName(701) == "ZZ" && ColumnName(702) == "AAA"
  {
  }

  // ---------------------------------------------------------------- cell ids

  /** `getCellId`: column letters followed by the one-based row number. */
  function GetCellId(row: int, col: int): string {
    ColumnLabel(col) + IntToString(row + 1)
  }

  /** The end of the run of capital letters that starts at i. */
  function LetterRunEnd(s: string, i: nat): (j: nat)
    requires i <= |s|
    ensures i <= j <= |s| && (j == |s| || !IsUpper(s[j]))
    ensures forall k :: i <= k < j ==> IsUpper(s[k])
    decreases |s| - i
  {
    if i < |s| && IsUpper(s[i]) then LetterRunEnd(s, i + 1) else i
  }

  /** The end of the run of decimal digits that starts at i. */
  function DigitRunEnd(s: string, i: nat): (j: nat)
    requires i <= |s|
    ensures i <= j <= |s| && (j == |s| || !IsDigit(s[j]))
    ensures forall k :: i <= k < j ==> IsDigit(s[k])
    decreases |s| - i
  {
    if i < |s| && IsDigit(s[i]) then DigitRunEnd(s, i + 1) else i
  }

  /** Capital letters s[i..j] followed by the digit s[j]. */
  predicate HasRefAt(s: string, i: nat, j: nat) {
    i < j < |s| && (forall k :: i <= k < j ==> IsUpper(s[k])) && IsDigit(s[j])
  }

  /** The pattern `[A-Z]+\d+` matches at position i. */
  predicate StartsRef(s: string, i: nat) {
    i < |s| && IsUpper(s[i]) && LetterRunEnd(s, i) < |s| && IsDigit(s[LetterRunEnd(s, i)])
  }

  /** A match of `([A-Z]+)(\d+)`: letters s[start..mid], digits s[mid..end]. */
  datatype RefMatch = RefMatch(start: nat, mid: nat, end: nat)

  predicate IsMatch(s: string, m: RefMatch) {
    && m.start < m.mid < m.end <= |s|
    && (forall k :: m.start <= k < m.mid ==> IsUpper(s[k]))
    && (forall k :: m.mid <= k < m.end ==> IsDigit(s[k]))
  }

  /** The leftmost match at or after `from`, with greedy letters and digits; this is what
      `s.match(/([A-Z]+)(\d+)/)` finds, and repeated calls give the `/g` matches. */
  function FindRef(s: string, from: nat): (r: Option<RefMatch>)
    ensures r.Some? ==> from <= r.value.start && StartsRef(s, r.value.start) && IsMatch(s, r.value)
    ensures r.Some? ==> r.value.mid == LetterRunEnd(s, r.value.start)
    ensures r.Some? ==> r.value.end == DigitRunEnd(s, r.value.mid)
    ensures r.Some? ==> forall j :: from <= j < r.value.start ==> !StartsRef(s, j)
    ensures r.None? ==> forall j :: from <= j ==> !StartsRef(s, j)
    decreases |s| - from
  {
    if from >= |s| then None
    else if StartsRef(s, from) then
      var mid := LetterRunEnd(s, from);
      Some(RefMatch(from, mid, DigitRunEnd(s, mid)))
    else FindRef(s, from + 1)
  }

  lemma StartsRefIff(s: string, i: nat)
    ensures StartsRef(s, i) <==> exists j :: HasRefAt(s, i, j)
  {
    if StartsRef(s, i) {
      assert HasRefAt(s, i, LetterRunEnd(s, i));
    }
    if j :| HasRefAt(s, i, j) {
      LetterRunEndAt(s, i, j);
    }
  }

  lemma {:induction false} LetterRunEndAt(s: string, i: nat, j: nat)
    requires i <= j <= |s| && (forall k :: i <= k < j ==> IsUpper(s[k])) && (j == |s| || !IsUpper(s[j]))
    ensures LetterRunEnd(s, i) == j
    decreases j - i
  {
    if i < j {
      LetterRunEndAt(s, i + 1, j);
    }
  }

  lemma {:induction false} DigitRunEndAt(s: string, i: nat, j: nat)
    requires i <= j <= |s| && (forall k :: i <= k < j ==> IsDigit(s[k])) && (j == |s| || !IsDigit(s[j]))
    ensures DigitRunEnd(s, i) == j
    decreases j - i
  {
    if i < j {
      DigitRunEndAt(s, i + 1, j);
    }
  }

  /** A zero-based (row, column) pair. */
  datatype Coord = Coord(row: int, col: int)

  /** `parseCellId`: the first letters-then-digits run; the row is one less than its number. */
  function ParseCellId(id: string): (r: Result<Coord>)
    ensures r.Ok? ==> r.value.row >= -1 && r.value.col >= 0
  {
    match FindRef(id, 0)
    case None => Err("Invalid cell ID: " + id)
    case Some(m) =>
      ColumnValuePositive(id[m.start..m.mid]);
      Ok(Coord(DigitsValue(id[m.mid..m.end]) - 1, ColumnNumber(id[m.start..m.mid])))
  }

  /** In a canonical id the pattern matches the whole id: the letters, then the row digits. */
  lemma CellIdMatch(row: nat, col: nat)
    ensures var id := GetCellId(row, col);
      var l := |ColumnName(col)|;
      && FindRef(id, 0) == Some(RefMatch(0, l, |id|))
      && id[..l] == ColumnName(col) && id[l..] == NatToString(row + 1)
  {
    var l := ColumnName(col);
    var d := NatToString(row + 1);
    var s := GetCellId(row, col);
    assert s == l + d;
    assert forall k :: 0 <= k < |l| ==> s[k] == l[k];
    assert forall k :: |l| <= k < |s| ==> s[k] == d[k - |l|];
    LetterRunEndAt(s, 0, |l|);
    DigitRunEndAt(s, |l|, |s|);
    assert StartsRef(s, 0);
    assert s[..|l|] == l;
    assert s[|l|..] == d;
  }

  lemma CellIdRoundTrip(row: nat, col: nat)
    ensures ParseCellId(GetCellId(row, col)) == Ok(Coord(row, col))
  {
    var s := GetCellId(row, col);
    var l := |ColumnName(col)|;
    CellIdMatch(row, col);
    assert s[0..l] == s[..l];
    assert s[l..|s|] == s[l..];
    DigitsRoundTrip(row + 1);
    ColumnRoundTrip(col);
  }

  /** A canonical id has no white space at either end and no colon. */
  lemma CellIdPlain(row: nat, col: nat)
    ensures var id := GetCellId(row, col);
      id != [] && (forall k :: 0 <= k < |id| ==> IsUpper(id[k]) || IsDigit(id[k]))
  {
    var l, d := ColumnName(col), NatToString(row + 1);
    assert GetCellId(row, col) == l + d;
    forall k | 0 <= k < |l + d| ensures IsUpper((l + d)[k]) || IsDigit((l + d)[k]) {
      if k < |l| {
        assert (l + d)[k] == l[k];
      } else {
        assert (l + d)[k] == d[k - |l|];
      }
    }
  }

  /** `parseCellId` throws `Invalid cell ID: <id>` exactly when no capital letter run is
      followed by a digit. */
  lemma ParseCellIdFails(id: string)
    ensures ParseCellId(id).Err? <==> forall i, j :: !HasRefAt(id, i, j)
    ensures ParseCellId(id).Err? ==> ParseCellId(id).message == "Invalid cell ID: " + id
  {
    if ParseCellId(id).Err? {
      forall i, j | HasRefAt(id, i, j) ensures false {
        StartsRefIff(id, i);
      }
    } else {
      var m := FindRef(id, 0).value;
      StartsRefIff(id, m.start);
    }
  }

  // ---------------------------------------------------------------- values and cells

  /** `isNumeric`: null is not, a number is, a string is when `Number` reads it and it is not blank. */
  predicate IsNumeric(v: CellValue) {
    match v
    case Empty => false
    case Number(_) => true
    case Text(s) => NumericText(s)
  }

  /** `Number(v)` for a numeric value. */
  function NumberOf(v: CellValue): real
    requires IsNumeric(v)
  {
    match v
    case Number(n) => n
    case Text(s) => TextNumber(s)
  }

  /** The three branches of `isNumeric`. A string is numeric only if its trimmed text holds
      a digit and nothing but digits, a point and a sign; every `a.b` of digit runs not both
      empty is numeric with value a + b / 10^|b|; blank text and "." are not numeric. */
  lemma IsNumericCases(n: real, s: string, a: string, b: string)
    ensures !IsNumeric(Empty) && IsNumeric(Number(n))
    ensures AllSpace(s) ==> !IsNumeric(Text(s))
    ensures IsNumeric(Text(s)) ==> exists i :: 0 <= i < |Trim(s)| && IsDigit(Trim(s)[i])
    ensures IsNumeric(Text(s)) ==> forall i :: 0 <= i < |Trim(s)| ==>
      IsDigit(Trim(s)[i]) || Trim(s)[i] == '.' || Trim(s)[i] == '+' || Trim(s)[i] == '-'
    ensures AllDigits(a) && AllDigits(b) && (a != [] || b != []) ==>
      IsNumeric(Text(a + "." + b)) &&
      NumberOf(Text(a + "." + b)) == DigitsValue(a) as real + DigitsValue(b) as real / Pow10(|b|) as real
    ensures !IsNumeric(Text("."))
  {
    if AllSpace(s) {
      BlankIsNotNumeric(s);
    }
    if IsNumeric(Text(s)) {
      NumberLiteralAlphabet(Trim(s));
    }
    if AllDigits(a) && AllDigits(b) && (a != [] || b != []) {
      DecimalTextValue(a, b);
    }
    if IsNumeric(Text(".")) {
      TrimOfTrimmed(".");
      NumberLiteralAlphabet(".");
      assert false;
    }
  }

  /** The text of an integer is numeric and reads back as that integer. */
  lemma IntTextValue(i: int)
    ensures IsNumeric(Text(IntToString(i))) && NumberOf(Text(IntToString(i))) == i as real
  {
    IntTextIsNumeric(i);
  }

  /** `createEmptyCell`. */
  function CreateEmptyCell(cellId: string): (c: Cell)
    ensures c.id == cellId && c.value == Empty && c.kind == TextCell
    ensures c.format == NoFormat && c.formula == None && c.displayValue == None
  {
    Cell(cellId, Empty, None, TextCell, NoFormat, None)
  }

  // ---------------------------------------------------------------- ranges

  /** Ids of row `row`, columns c0..c1 in order. */
  function RowIds(row: int, c0: int, c1: int): seq<string>
    decreases c1 - c0
  {
    if c1 < c0 then [] else RowIds(row, c0, c1 - 1) + [GetCellId(row, c1)]
  }

  /** Ids of rows r0..r1 and columns c0..c1, row by row. */
  function Block(r0: int, r1: int, c0: int, c1: int): seq<string>
    decreases r1 - r0
  {
    if r1 < r0 then [] else Block(r0, r1 - 1, c0, c1) + RowIds(r1, c0, c1)
  }

  /** The nested loops of `getCellRange` and `parseRange`: rows outside, columns inside. */
  method ListBlock(r0: int, r1: int, c0: int, c1: int) returns (ids: seq<string>)
    ensures ids == Block(r0, r1, c0, c1)
  {
    ids := [];
    var row := r0;
    while row <= r1
      invariant row == r0 || r0 < row <= r1 + 1
      invariant ids == Block(r0, row - 1, c0, c1)
    {
      ghost var before := ids;
      var col := c0;
      while col <= c1
        invariant col == c0 || c0 < col <= c1 + 1
        invariant ids == before + RowIds(row, c0, col - 1)
      {
        var letters := IndexToColumn(col);
        ids := ids + [letters + IntToString(row + 1)];
        col := col + 1;
      }
      assert RowIds(row, c0, col - 1) == RowIds(row, c0, c1);
      row := row + 1;
    }
  }

  lemma {:induction false} RowIdsLength(row: int, c0: int, c1: int)
    requires c0 <= c1 + 1
    ensures |RowIds(row, c0, c1)| == c1 - c0 + 1
    decreases c1 - c0
  {
    if c0 <= c1 {
      RowIdsLength(row, c0, c1 - 1);
    }
  }

  lemma {:induction false} RowIdAt(row: int, c0: int, c1: int, c: int)
    requires c0 <= c <= c1
    ensures |RowIds(row, c0, c1)| == c1 - c0 + 1
    ensures RowIds(row, c0, c1)[c - c0] == GetCellId(row, c)
    decreases c1 - c0
  {
    RowIdsLength(row, c0, c1);
    if c < c1 {
      RowIdAt(row, c0, c1 - 1, c);
    }
  }

  lemma MulMonotone(a: int, b: int, w: nat)
    requires a <= b
    ensures a * w <= b * w
  {
  }

  lemma {:induction false} BlockLength(r0: int, r1: int, c0: int, c1: int)
    requires r0 <= r1 + 1 && c0 <= c1 + 1
    ensures |Block(r0, r1, c0, c1)| == (r1 - r0 + 1) * (c1 - c0 + 1)
    decreases r1 - r0
  {
    if r0 <= r1 {
      BlockLength(r0, r1 - 1, c0, c1);
      RowIdsLength(r1, c0, c1);
      AreaStep(r0, r1, c1 - c0 + 1);
    }
  }

  /** One more row of width w adds w to the area. */
  lemma AreaStep(r0: int, r1: int, w: int)
    ensures (r1 - 1 - r0 + 1) * w + w == (r1 - r0 + 1) * w
  {
    assert r1 - 1 - r0 + 1 == r1 - r0;
  }

  /** The number of ids a block whose columns are c0..c1 holds before row r. */
  function RowStart(r0: int, c0: int, c1: int, r: int): int
    decreases r - r0
  {
    if r <= r0 then 0 else RowStart(r0, c0, c1, r - 1) + (c1 - c0 + 1)
  }

  /** The row-major position of row r, column c in a block whose columns are c0..c1. */
  function RowMajor(r0: int, c0: int, c1: int, r: int, c: int): int {
    RowStart(r0, c0, c1, r) + (c - c0)
  }

  /** The row-major position is (r - r0) * width + (c - c0). */
  lemma {:induction false} RowMajorFormula(r0: int, c0: int, c1: int, r: int, c: int)
    requires r0 <= r
    ensures RowMajor(r0, c0, c1, r, c) == (r - r0) * (c1 - c0 + 1) + (c - c0)
    decreases r - r0
  {
    if r0 < r {
      RowMajorFormula(r0, c0, c1, r - 1, c);
      AreaStep(r0, r - 1, c1 - c0 + 1);
    }
  }

  /** The id of row r and column c sits at its row-major position. */
  lemma {:induction false} BlockAt(r0: int, r1: int, c0: int, c1: int, r: int, c: int)
    requires r0 <= r <= r1 && c0 <= c <= c1
    ensures 0 <= RowMajor(r0, c0, c1, r, c) < |Block(r0, r1, c0, c1)|
    ensures Block(r0, r1, c0, c1)[RowMajor(r0, c0, c1, r, c)] == GetCellId(r, c)
    decreases r1 - r0
  {
    if r < r1 {
      var prev, row := Block(r0, r1 - 1, c0, c1), RowIds(r1, c0, c1);
      assert Block(r0, r1, c0, c1) == prev + row;
      BlockAt(r0, r1 - 1, c0, c1, r, c);
      AppendIndexLeft(prev, row, RowMajor(r0, c0, c1, r, c));
    } else {
      assert r == r1;
      BlockAtLast(r0, r1, c0, c1, c);
      RowsBefore(r0, r1, c0, c1);
    }
  }

  /** The ids of the last row of a block follow those of the rows before it. */
  lemma BlockAtLast(r0: int, r1: int, c0: int, c1: int, c: int)
    requires r0 <= r1 && c0 <= c <= c1
    ensures |Block(r0, r1, c0, c1)| == |Block(r0, r1 - 1, c0, c1)| + (c1 - c0 + 1)
    ensures Block(r0, r1, c0, c1)[|Block(r0, r1 - 1, c0, c1)| + (c - c0)] == GetCellId(r1, c)
  {
    var prev, row := Block(r0, r1 - 1, c0, c1), RowIds(r1, c0, c1);
    assert Block(r0, r1, c0, c1) == prev + row;
    RowIdAt(r1, c0, c1, c);
    AppendIndexRight(prev, row, c - c0);
  }

  /** The rows before row r1 hold as many ids as the row-major position of (r1, c0). */
  lemma {:induction false} RowsBefore(r0: int, r1: int, c0: int, c1: int)
    requires r0 <= r1 && c0 <= c1 + 1
    ensures |Block(r0, r1 - 1, c0, c1)| == RowStart(r0, c0, c1, r1)
    decreases r1 - r0
  {
    if r0 < r1 {
      RowsBefore(r0, r1 - 1, c0, c1);
      RowIdsLength(r1 - 1, c0, c1);
      assert Block(r0, r1 - 1, c0, c1) == Block(r0, r1 - 2, c0, c1) + RowIds(r1 - 1, c0, c1);
    }
  }

  /** The block has one id per (row, column), in row-major order. */
  lemma BlockShape(r0: int, r1: int, c0: int, c1: int)
    requires r0 <= r1 + 1 && c0 <= c1 + 1
    ensures |Block(r0, r1, c0, c1)| == (r1 - r0 + 1) * (c1 - c0 + 1)
    ensures forall r, c :: r0 <= r <= r1 && c0 <= c <= c1 ==>
      0 <= RowMajor(r0, c0, c1, r, c) < |Block(r0, r1, c0, c1)| &&
      Block(r0, r1, c0, c1)[RowMajor(r0, c0, c1, r, c)] == GetCellId(r, c)
  {
    BlockLength(r0, r1, c0, c1);
    forall r, c | r0 <= r <= r1 && c0 <= c <= c1
      ensures 0 <= RowMajor(r0, c0, c1, r, c) < |Block(r0, r1, c0, c1)|
      ensures Block(r0, r1, c0, c1)[RowMajor(r0, c0, c1, r, c)] == GetCellId(r, c)
    {
      BlockAt(r0, r1, c0, c1, r, c);
    }
  }

  /** Every id of the rectangle is in the block. */
  lemma BlockCovers(r0: int, r1: int, c0: int, c1: int)
    ensures forall r, c :: r0 <= r <= r1 && c0 <= c <= c1 ==> GetCellId(r, c) in Block(r0, r1, c0, c1)
  {
    forall r, c | r0 <= r <= r1 && c0 <= c <= c1
      ensures GetCellId(r, c) in Block(r0, r1, c0, c1)
    {
      BlockAt(r0, r1, c0, c1, r, c);
    }
  }

  /** An empty row or column interval gives an empty block. */
  lemma {:induction false} BlockEmpty(r0: int, r1: int, c0: int, c1: int)
    requires r1 < r0 || c1 < c0
    ensures Block(r0, r1, c0, c1) == []
    decreases r1 - r0
  {
    if r0 <= r1 {
      BlockEmpty(r0, r1 - 1, c0, c1);
    }
  }

  /** Every id of the block belongs to a row and a column inside its bounds. */
  lemma {:induction false} BlockInBox(r0: int, r1: int, c0: int, c1: int)
    ensures forall x :: x in Block(r0, r1, c0, c1) ==>
      exists r, c :: r0 <= r <= r1 && c0 <= c <= c1 && x == GetCellId(r, c)
    decreases r1 - r0
  {
    if r0 <= r1 {
      BlockInBox(r0, r1 - 1, c0, c1);
      RowInBox(r1, c0, c1);
    }
  }

  lemma {:induction false} RowInBox(row: int, c0: int, c1: int)
    ensures forall x :: x in RowIds(row, c0, c1) ==> exists c :: c0 <= c <= c1 && x == GetCellId(row, c)
    decreases c1 - c0
  {
    if c0 <= c1 {
      RowInBox(row, c0, c1 - 1);
    }
  }

  function Min(a: int, b: int): int { if a <= b then a else b }
  function Max(a: int, b: int): int { if a <= b then b else a }

  /** What `getCellRange` returns or throws. */
  function CellRange(startCellId: string, endCellId: string): Result<seq<string>> {
    match ParseCellId(startCellId)
    case Err(e) => Err(e)
    case Ok(s) =>
      match ParseCellId(endCellId)
      case Err(e) => Err(e)
      case Ok(e) => Ok(Block(Min(s.row, e.row), Max(s.row, e.row), Min(s.col, e.col), Max(s.col, e.col)))
  }

  /** `getCellRange`: parses both corners (either may throw) and lists the normalised block. */
  method GetCellRange(startCellId: string, endCellId: string) returns (r: Result<seq<string>>)
    ensures r == CellRange(startCellId, endCellId)
  {
    var start := ParseCellId(startCellId);
    if start.Err? {
      return Err(start.message);
    }
    var end := ParseCellId(endCellId);
    if end.Err? {
      return Err(end.message);
    }
    var s, e := start.value, end.value;
    var ids := ListBlock(Min(s.row, e.row), Max(s.row, e.row), Min(s.col, e.col), Max(s.col, e.col));
    r := Ok(ids);
  }

  /** The corners may be given in either order. */
  lemma CellRangeSymmetric(a: string, b: string)
    ensures CellRange(a, b).Ok? <==> CellRange(b, a).Ok?
    ensures CellRange(a, b).Ok? ==> CellRange(a, b) == CellRange(b, a)
  {
  }

  /** The rectangle spanned by two corners, whichever order they come in. */
  predicate InRect(s: Coord, e: Coord, r: int, c: int) {
    Min(s.row, e.row) <= r <= Max(s.row, e.row) && Min(s.col, e.col) <= c <= Max(s.col, e.col)
  }

  /** The bounds the range of two parsed corners runs over. */
  function Bounds(s: Coord, e: Coord): (int, int, int, int) {
    (Min(s.row, e.row), Max(s.row, e.row), Min(s.col, e.col), Max(s.col, e.col))
  }

  /** A range of two valid ids holds one id per cell of the rectangle they span:
      (|row difference| + 1) * (|column difference| + 1) of them. */
  lemma CellRangeLength(a: string, b: string)
    requires ParseCellId(a).Ok? && ParseCellId(b).Ok?
    ensures CellRange(a, b).Ok?
    ensures var s, e := ParseCellId(a).value, ParseCellId(b).value;
      |CellRange(a, b).value| == (Max(s.row, e.row) - Min(s.row, e.row) + 1) * (Max(s.col, e.col) - Min(s.col, e.col) + 1)
  {
    var s, e := ParseCellId(a).value, ParseCellId(b).value;
    var (r0, r1, c0, c1) := Bounds(s, e);
    assert CellRange(a, b) == Ok(Block(r0, r1, c0, c1));
    BlockLength(r0, r1, c0, c1);
  }

  /** Every cell of the rectangle spanned by two valid ids is in their range. */
  lemma CellRangeCovers(a: string, b: string)
    requires ParseCellId(a).Ok? && ParseCellId(b).Ok?
    ensures CellRange(a, b).Ok?
    ensures forall r, c :: InRect(ParseCellId(a).value, ParseCellId(b).value, r, c) ==>
      GetCellId(r, c) in CellRange(a, b).value
  {
    var s, e := ParseCellId(a).value, ParseCellId(b).value;
    var (r0, r1, c0, c1) := Bounds(s, e);
    assert CellRange(a, b) == Ok(Block(r0, r1, c0, c1));
    BlockCovers(r0, r1, c0, c1);
  }

  /** Every id in the range of two valid ids names a cell of the rectangle they span. */
  lemma CellRangeWithin(a: string, b: string)
    requires ParseCellId(a).Ok? && ParseCellId(b).Ok?
    ensures CellRange(a, b).Ok?
    ensures forall x :: x in CellRange(a, b).value ==>
      exists r, c :: InRect(ParseCellId(a).value, ParseCellId(b).value, r, c) && x == GetCellId(r, c)
  {
    var s, e := ParseCellId(a).value, ParseCellId(b).value;
    var (r0, r1, c0, c1) := Bounds(s, e);
    assert CellRange(a, b) == Ok(Block(r0, r1, c0, c1));
    BlockInBox(r0, r1, c0, c1);
  }

  /** The range from a canonical id to itself is that id alone. */
  lemma CellRangeSingle(row: nat, col: nat)
    ensures CellRange(GetCellId(row, col), GetCellId(row, col)) == Ok([GetCellId(row, col)])
  {
    CellIdRoundTrip(row, col);
    assert RowIds(row, col, col) == [GetCellId(row, col)];
    assert Block(row, row, col, col) == Block(row, row - 1, col, col) + RowIds(row, col, col);
  }

  lemma CellRangeExample()
    ensures CellRange("A1", "B2") == Ok(["A1", "B1", "A2", "B2"])
    ensures CellRange("B2", "A1") == Ok(["A1", "B1", "A2", "B2"])
  {
    CornerIds();
    SquareBlock();
    assert CellRange("A1", "B2") == Ok(Block(0, 1, 0, 1));
    assert CellRange("B2", "A1") == Ok(Block(0, 1, 0, 1));
  }

  /** The ids of rows 1..2 and columns A..B. */
  lemma SquareIds()
    ensures GetCellId(0, 0) == "A1" && GetCellId(0, 1) == "B1"
    ensures GetCellId(1, 0) == "A2" && GetCellId(1, 1) == "B2"
  {
    assert ColumnLabel(0) == "A" && ColumnLabel(1) == "B";
    assert IntToString(1) == "1" && IntToString(2) == "2";
  }

  /** The corners of the block A1:B2 and where they sit. */
  lemma CornerIds()
    ensures GetCellId(0, 0) == "A1" && GetCellId(1, 1) == "B2"
    ensures ParseCellId("A1") == Ok(Coord(0, 0)) && ParseCellId("B2") == Ok(Coord(1, 1))
  {
    SquareIds();
    CellIdRoundTrip(0, 0);
    CellIdRoundTrip(1, 1);
  }

  /** The ids of rows 1..2 and columns A..B, row by row. */
  lemma SquareBlock()
    ensures Block(0, 1, 0, 1) == ["A1", "B1", "A2", "B2"]
  {
    SquareIds();
    assert RowIds(0, 0, 1) == RowIds(0, 0, 0) + ["B1"] == ["A1", "B1"];
    assert RowIds(1, 0, 1) == RowIds(1, 0, 0) + ["B2"] == ["A2", "B2"];
    assert Block(0, 0, 0, 1) == [] + RowIds(0, 0, 1);
    assert Block(0, 1, 0, 1) == Block(0, 0, 0, 1) + RowIds(1, 0, 1);
    assert Block(0, 1, 0, 1) == ["A1", "B1"] + ["A2", "B2"] == ["A1", "B1", "A2", "B2"];
  }
}
