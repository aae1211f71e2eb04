/** The spreadsheet functions a formula can call: the aggregates SUM, AVERAGE, MAX, MIN and
    COUNT over cells and ranges, and the text functions TRIM, UPPER and LOWER. */
module FormulaFunctions {

  import opened Types
  import opened Text
  import opened CellUtils
  import opened FormulaArgs

  // ---------------------------------------------------------------- which cells count

  /** The cells one argument names: a range when it holds a colon, otherwise the argument
      taken as a cell id. */
  function ArgIds(arg: string): seq<string> {
    if Contains(arg, ":") then RangeIds(arg) else [arg]
  }

  /** The number of one cell, when the cell exists and its value is numeric. */
  function CellNumber(id: string, cells: Grid): seq<real> {
    if id in cells && IsNumeric(cells[id].value) then [NumberOf(cells[id].value)] else []
  }

  /** The numbers of the listed cells, in order; absent and non-numeric cells are skipped. */
  function Values(ids: seq<string>, cells: Grid): seq<real> {
    if ids == [] then [] else Values(ids[..|ids| - 1], cells) + CellNumber(ids[|ids| - 1], cells)
  }

  /** The numbers all arguments contribute, argument by argument. */
  function ArgValues(args: seq<string>, cells: Grid): seq<real> {
    if args == [] then [] else ArgValues(args[..|args| - 1], cells) + Values(ArgIds(args[|args| - 1]), cells)
  }

  // ---------------------------------------------------------------- folds over the numbers

  function Sum(xs: seq<real>): real {
    if xs == [] then 0.0 else Sum(xs[..|xs| - 1]) + xs[|xs| - 1]
  }

  function RMax(a: real, b: real): real { if a >= b then a else b }
  function RMin(a: real, b: real): real { if a <= b then a else b }

  /** `Math.max` over a non-empty list. */
  function MaxOf(xs: seq<real>): (m: real)
    requires xs != []
    ensures m in xs && forall k :: 0 <= k < |xs| ==> xs[k] <= m
  {
    if |xs| == 1 then xs[0] else RMax(MaxOf(xs[..|xs| - 1]), xs[|xs| - 1])
  }

  /** `Math.min` over a non-empty list. */
  function MinOf(xs: seq<real>): (m: real)
    requires xs != []
    ensures m in xs && forall k :: 0 <= k < |xs| ==> m <= xs[k]
  {
    if |xs| == 1 then xs[0] else RMin(MinOf(xs[..|xs| - 1]), xs[|xs| - 1])
  }

  /** What `calculateAverage` returns: the mean, or 0 when no number counts. */
  function Average(xs: seq<real>): real {
    Mean(Sum(xs), |xs|)
  }

  /** `count > 0 ? sum / count : 0`. */
  function Mean(sum: real, count: nat): real {
    if count > 0 then sum / (count as real) else 0.0
  }

  // ---------------------------------------------------------------- step lemmas for the loops

  lemma ValuesPrefix(ids: seq<string>, j: nat, cells: Grid)
    requires j < |ids|
    ensures Values(ids[..j + 1], cells) == Values(ids[..j], cells) + CellNumber(ids[j], cells)
  {
    PrefixOfPrefix(ids, j);
  }

  lemma ValuesOne(id: string, cells: Grid)
    ensures Values([id], cells) == CellNumber(id, cells)
  {
    assert [id][..0] == [];
  }

  lemma ArgValuesPrefix(args: seq<string>, i: nat, cells: Grid)
    requires i < |args|
    ensures ArgValues(args[..i + 1], cells) == ArgValues(args[..i], cells) + Values(ArgIds(args[i]), cells)
  {
    PrefixOfPrefix(args, i);
  }

  lemma SumSnoc(xs: seq<real>, x: real)
    ensures Sum(xs + [x]) == Sum(xs) + x
  {
    assert (xs + [x])[..|xs|] == xs;
  }

  lemma MaxSnoc(xs: seq<real>, x: real)
    ensures MaxOf(xs + [x]) == if xs == [] then x else RMax(MaxOf(xs), x)
  {
    assert (xs + [x])[..|xs|] == xs;
  }

  lemma MinSnoc(xs: seq<real>, x: real)
    ensures MinOf(xs + [x]) == if xs == [] then x else RMin(MinOf(xs), x)
  {
    assert (xs + [x])[..|xs|] == xs;
  }

  /** One more cell adds its number, if any, to the numbers seen so far. */
  lemma SumCell(xs: seq<real>, id: string, cells: Grid)
    ensures var counts := id in cells && IsNumeric(cells[id].value);
      && Sum(xs + CellNumber(id, cells)) == Sum(xs) + (if counts then NumberOf(cells[id].value) else 0.0)
      && |xs + CellNumber(id, cells)| == |xs| + (if counts then 1 else 0)
  {
    if id in cells && IsNumeric(cells[id].value) {
      SumSnoc(xs, NumberOf(cells[id].value));
    } else {
      assert xs + CellNumber(id, cells) == xs;
    }
  }

  // ---------------------------------------------------------------- the aggregates

  /** The inner loop of `calculateSum` over the cells of one range. */
  method SumCells(sum0: real, ids: seq<string>, cells: Grid) returns (sum: real)
    ensures sum == sum0 + Sum(Values(ids, cells))
  {
    sum := sum0;
    ghost var seen: seq<real> := [];
    for j := 0 to |ids|
      invariant seen == Values(ids[..j], cells) && sum == sum0 + Sum(seen)
    {
      var cellId := ids[j];
      ValuesPrefix(ids, j, cells);
      SumCell(seen, cellId, cells);
      if cellId in cells && IsNumeric(cells[cellId].value) {
        sum := sum + NumberOf(cells[cellId].value);
      }
      seen := seen + CellNumber(cellId, cells);
    }
    assert ids[..|ids|] == ids;
  }

  /** `calculateSum`: the sum of every numeric value the arguments name. */
  method CalculateSum(args: seq<string>, cells: Grid) returns (sum: real)
    ensures sum == Sum(ArgValues(args, cells))
  {
    sum := 0.0;
    ghost var seen: seq<real> := [];
    for i := 0 to |args|
      invariant seen == ArgValues(args[..i], cells) && sum == Sum(seen)
    {
      ghost var vs := Values(ArgIds(args[i]), cells);
      ArgValuesPrefix(args, i, cells);
      SumAppend(seen, vs);
      sum := SumArgument(sum, args[i], cells);
      seen := seen + vs;
    }
    assert args[..|args|] == args;
  }

  /** One pass of the outer loop of `calculateSum`: a range adds its cells, any other argument
      the cell it names. */
  method SumArgument(sum0: real, arg: string, cells: Grid) returns (sum: real)
    ensures sum == sum0 + Sum(Values(ArgIds(arg), cells))
  {
    if Contains(arg, ":") {
      var rangeCells := ParseRange(arg);
      sum := SumCells(sum0, rangeCells, cells);
    } else {
      ValuesOne(arg, cells);
      sum := sum0;
      if arg in cells && IsNumeric(cells[arg].value) {
        sum := sum + NumberOf(cells[arg].value);
      }
    }
  }

  /** The inner loop of `calculateAverage` over the cells of one range. */
  method SumCountCells(sum0: real, count0: nat, ids: seq<string>, cells: Grid) returns (sum: real, count: nat)
    ensures sum == sum0 + Sum(Values(ids, cells)) && count == count0 + |Values(ids, cells)|
  {
    sum, count := sum0, count0;
    ghost var seen: seq<real> := [];
    for j := 0 to |ids|
      invariant seen == Values(ids[..j], cells) && sum == sum0 + Sum(seen) && count == count0 + |seen|
    {
      var cellId := ids[j];
      ValuesPrefix(ids, j, cells);
      SumCell(seen, cellId, cells);
      if cellId in cells && IsNumeric(cells[cellId].value) {
        sum := sum + NumberOf(cells[cellId].value);
        count := count + 1;
      }
      seen := seen + CellNumber(cellId, cells);
    }
    assert ids[..|ids|] == ids;
  }

  /** One pass of the outer loop of `calculateAverage`: a range adds its cells, any other
      argument the cell it names. */
  method SumCountArgument(sum0: real, count0: nat, arg: string, cells: Grid) returns (sum: real, count: nat)
    ensures sum == sum0 + Sum(Values(ArgIds(arg), cells)) && count == count0 + |Values(ArgIds(arg), cells)|
  {
    if Contains(arg, ":") {
      var rangeCells := ParseRange(arg);
      sum, count := SumCountCells(sum0, count0, rangeCells, cells);
    } else {
      ValuesOne(arg, cells);
      sum, count := sum0, count0;
      if arg in cells && IsNumeric(cells[arg].value) {
        sum := sum + NumberOf(cells[arg].value);
        count := count + 1;
      }
    }
  }

  /** `calculateAverage`: the mean of the numeric values the arguments name, 0 for none. */
  method CalculateAverage(args: seq<string>, cells: Grid) returns (avg: real)
    ensures avg == Average(ArgValues(args, cells))
  {
    var sum := 0.0;
    var count := 0;
    ghost var seen: seq<real> := [];
    for i := 0 to |args|
      invariant seen == ArgValues(args[..i], cells) && sum == Sum(seen) && count == |seen|
    {
      ghost var vs := Values(ArgIds(args[i]), cells);
      ArgValuesPrefix(args, i, cells);
      SumAppend(seen, vs);
      sum, count := SumCountArgument(sum, count, args[i], cells);
      seen := seen + vs;
    }
    assert args[..|args|] == args;
    avg := Mean(sum, count);
  }

  /** The running maximum after more numbers: minus infinity, which `hasValue == false`
      stands for here, is the identity. */
  predicate MaxSoFar(hasValue: bool, max: real, seen: seq<real>) {
    hasValue == (seen != []) && (hasValue ==> max == MaxOf(seen))
  }

  predicate MinSoFar(hasValue: bool, min: real, seen: seq<real>) {
    hasValue == (seen != []) && (hasValue ==> min == MinOf(seen))
  }

  lemma MaxSoFarSnoc(hasValue: bool, max: real, xs: seq<real>, x: real)
    requires MaxSoFar(hasValue, max, xs)
    ensures MaxSoFar(true, if hasValue then RMax(max, x) else x, xs + [x])
  {
    MaxSnoc(xs, x);
  }

  lemma MinSoFarSnoc(hasValue: bool, min: real, xs: seq<real>, x: real)
    requires MinSoFar(hasValue, min, xs)
    ensures MinSoFar(true, if hasValue then RMin(min, x) else x, xs + [x])
  {
    MinSnoc(xs, x);
  }

  /** Cells are seen one at a time: the numbers after cell j of `ids` extend those before it. */
  lemma SeenCell(prior: seq<real>, ids: seq<string>, j: nat, cells: Grid)
    requires j < |ids|
    ensures prior + Values(ids[..j + 1], cells) == (prior + Values(ids[..j], cells)) + CellNumber(ids[j], cells)
  {
    ValuesPrefix(ids, j, cells);
  }

  /** The inner loop of `calculateMax` over the cells of one range, continuing from the
      numbers `prior` seen before it. */
  method MaxCells(hasValue0: bool, max0: real, ghost prior: seq<real>, ids: seq<string>, cells: Grid)
    returns (hasValue: bool, max: real)
    requires MaxSoFar(hasValue0, max0, prior)
    ensures MaxSoFar(hasValue, max, prior + Values(ids, cells))
  {
    hasValue, max := hasValue0, max0;
    assert prior + Values(ids[..0], cells) == prior;
    for j := 0 to |ids|
      invariant MaxSoFar(hasValue, max, prior + Values(ids[..j], cells))
    {
      var cellId := ids[j];
      SeenCell(prior, ids, j, cells);
      if cellId in cells && IsNumeric(cells[cellId].value) {
        var v := NumberOf(cells[cellId].value);
        MaxSoFarSnoc(hasValue, max, prior + Values(ids[..j], cells), v);
        max := if hasValue then RMax(max, v) else v;
        hasValue := true;
      } else {
        assert (prior + Values(ids[..j], cells)) + CellNumber(cellId, cells) == prior + Values(ids[..j], cells);
      }
    }
    assert ids[..|ids|] == ids;
  }

  /** `calculateMax`: the largest numeric value the arguments name, 0 for none. The running
      value starts at minus infinity, which `hasValue == false` stands for here. */
  method CalculateMax(args: seq<string>, cells: Grid) returns (max: real)
    ensures ArgValues(args, cells) == [] ==> max == 0.0
    ensures ArgValues(args, cells) != [] ==> max == MaxOf(ArgValues(args, cells))
  {
    max := 0.0;
    var hasValue := false;
    for i := 0 to |args|
      invariant MaxSoFar(hasValue, max, ArgValues(args[..i], cells))
    {
      var arg := args[i];
      ArgValuesPrefix(args, i, cells);
      if Contains(arg, ":") {
        var rangeCells := ParseRange(arg);
        hasValue, max := MaxCells(hasValue, max, ArgValues(args[..i], cells), rangeCells, cells);
      } else {
        ValuesOne(arg, cells);
        if arg in cells && IsNumeric(cells[arg].value) {
          var v := NumberOf(cells[arg].value);
          MaxSoFarSnoc(hasValue, max, ArgValues(args[..i], cells), v);
          max := if hasValue then RMax(max, v) else v;
          hasValue := true;
        } else {
          assert ArgValues(args[..i], cells) + CellNumber(arg, cells) == ArgValues(args[..i], cells);
        }
      }
    }
    assert args[..|args|] == args;
    if !hasValue {
      max := 0.0;
    }
  }

  /** The inner loop of `calculateMin` over the cells of one range, continuing from the
      numbers `prior` seen before it. */
  method MinCells(hasValue0: bool, min0: real, ghost prior: seq<real>, ids: seq<string>, cells: Grid)
    returns (hasValue: bool, min: real)
    requires MinSoFar(hasValue0, min0, prior)
    ensures MinSoFar(hasValue, min, prior + Values(ids, cells))
  {
    hasValue, min := hasValue0, min0;
    assert prior + Values(ids[..0], cells) == prior;
    for j := 0 to |ids|
      invariant MinSoFar(hasValue, min, prior + Values(ids[..j], cells))
    {
      var cellId := ids[j];
      SeenCell(prior, ids, j, cells);
      if cellId in cells && IsNumeric(cells[cellId].value) {
        var v := NumberOf(cells[cellId].value);
        MinSoFarSnoc(hasValue, min, prior + Values(ids[..j], cells), v);
        min := if hasValue then RMin(min, v) else v;
        hasValue := true;
      } else {
        assert (prior + Values(ids[..j], cells)) + CellNumber(cellId, cells) == prior + Values(ids[..j], cells);
      }
    }
    assert ids[..|ids|] == ids;
  }

  /** `calculateMin`: the smallest numeric value the arguments name, 0 for none. The running
      value starts at plus infinity, which `hasValue == false` stands for here. */
  method CalculateMin(args: seq<string>, cells: Grid) returns (min: real)
    ensures ArgValues(args, cells) == [] ==> min == 0.0
    ensures ArgValues(args, cells) != [] ==> min == MinOf(ArgValues(args, cells))
  {
    min := 0.0;
    var hasValue := false;
    for i := 0 to |args|
      invariant MinSoFar(hasValue, min, ArgValues(args[..i], cells))
    {
      var arg := args[i];
      ArgValuesPrefix(args, i, cells);
      if Contains(arg, ":") {
        var rangeCells := ParseRange(arg);
        hasValue, min := MinCells(hasValue, min, ArgValues(args[..i], cells), rangeCells, cells);
      } else {
        ValuesOne(arg, cells);
        if arg in cells && IsNumeric(cells[arg].value) {
          var v := NumberOf(cells[arg].value);
          MinSoFarSnoc(hasValue, min, ArgValues(args[..i], cells), v);
          min := if hasValue then RMin(min, v) else v;
          hasValue := true;
        } else {
          assert ArgValues(args[..i], cells) + CellNumber(arg, cells) == ArgValues(args[..i], cells);
        }
      }
    }
    assert args[..|args|] == args;
    if !hasValue {
      min := 0.0;
    }
  }

  /** The inner loop of `calculateCount` over the cells of one range. */
  method CountCells(count0: nat, ids: seq<string>, cells: Grid) returns (count: nat)
    ensures count == count0 + |Values(ids, cells)|
  {
    count := count0;
    for j := 0 to |ids|
      invariant count == count0 + |Values(ids[..j], cells)|
    {
      var cellId := ids[j];
      ValuesPrefix(ids, j, cells);
      if cellId in cells && IsNumeric(cells[cellId].value) {
        count := count + 1;
      }
    }
    assert ids[..|ids|] == ids;
  }

  /** `calculateCount`: how many numeric values the arguments name. */
  method CalculateCount(args: seq<string>, cells: Grid) returns (count: nat)
    ensures count == |ArgValues(args, cells)|
  {
    count := 0;
    for i := 0 to |args|
      invariant count == |ArgValues(args[..i], cells)|
    {
      var arg := args[i];
      ArgValuesPrefix(args, i, cells);
      if Contains(arg, ":") {
        var rangeCells := ParseRange(arg);
        count := CountCells(count, rangeCells, cells);
      } else {
        ValuesOne(arg, cells);
        if arg in cells && IsNumeric(cells[arg].value) {
          count := count + 1;
        }
      }
    }
    assert args[..|args|] == args;
  }

  // ---------------------------------------------------------------- properties of the aggregates

  lemma {:induction false} SumAppend(a: seq<real>, b: seq<real>)
    ensures Sum(a + b) == Sum(a) + Sum(b)
    decreases |b|
  {
    if b == [] {
      assert a + b == a;
    } else {
      var b' := b[..|b| - 1];
      SumAppend(a, b');
      AppendInit(a, b);
    }
  }

  lemma {:induction false} ArgValuesAppend(a: seq<string>, b: seq<string>, cells: Grid)
    ensures ArgValues(a + b, cells) == ArgValues(a, cells) + ArgValues(b, cells)
    decreases |b|
  {
    if b == [] {
      assert a + b == a;
    } else {
      var b' := b[..|b| - 1];
      ArgValuesAppend(a, b', cells);
      AppendInit(a, b);
      assert (a + b)[|a + b| - 1] == b[|b| - 1];
      ArgValuesAppendLast(a, a + b, a + b', b, b', cells);
    }
  }

  /** The inductive step of `ArgValuesAppend`: when `ab` is `ab'` and then the last argument of
      `b`, and `b'` is `b` without it, the split of `ab'` extends to `ab`. */
  lemma ArgValuesAppendLast(a: seq<string>, ab: seq<string>, ab': seq<string>, b: seq<string>, b': seq<string>,
                            cells: Grid)
    requires ab != [] && b != []
    requires ab[..|ab| - 1] == ab' && b[..|b| - 1] == b' && ab[|ab| - 1] == b[|b| - 1]
    requires ArgValues(ab', cells) == ArgValues(a, cells) + ArgValues(b', cells)
    ensures ArgValues(ab, cells) == ArgValues(a, cells) + ArgValues(b, cells)
  {
    var v := Values(ArgIds(b[|b| - 1]), cells);
    ArgValuesLast(ab, cells);
    ArgValuesLast(b, cells);
    AppendAssoc(ArgValues(a, cells), ArgValues(b', cells), v);
  }

  /** The numbers of a non-empty argument list: those of all but the last argument, then the last's. */
  lemma ArgValuesLast(args: seq<string>, cells: Grid)
    requires args != []
    ensures ArgValues(args, cells) == ArgValues(args[..|args| - 1], cells) + Values(ArgIds(args[|args| - 1]), cells)
  {
  }

  /** SUM over an argument list is the SUM of its first part plus the SUM of the rest, and
      COUNT likewise adds up. */
  lemma SumSplits(a: seq<string>, b: seq<string>, cells: Grid)
    ensures Sum(ArgValues(a + b, cells)) == Sum(ArgValues(a, cells)) + Sum(ArgValues(b, cells))
    ensures |ArgValues(a + b, cells)| == |ArgValues(a, cells)| + |ArgValues(b, cells)|
  {
    ArgValuesAppend(a, b, cells);
    SumAppend(ArgValues(a, cells), ArgValues(b, cells));
  }

  /** Every number an argument contributes comes from a listed cell whose value is numeric,
      and every such cell contributes exactly one number. */
  lemma {:induction false} ValuesCount(ids: seq<string>, cells: Grid)
    ensures |Values(ids, cells)| <= |ids|
    ensures (forall k :: 0 <= k < |ids| ==> ids[k] in cells && IsNumeric(cells[ids[k]].value)) ==>
      |Values(ids, cells)| == |ids| &&
      forall k :: 0 <= k < |ids| ==> Values(ids, cells)[k] == NumberOf(cells[ids[k]].value)
    ensures (forall k :: 0 <= k < |ids| ==> ids[k] !in cells || !IsNumeric(cells[ids[k]].value)) ==>
      Values(ids, cells) == []
  {
    if ids != [] {
      ValuesCount(ids[..|ids| - 1], cells);
    }
  }

  lemma {:induction false} SumAtMost(xs: seq<real>, m: real)
    requires forall k :: 0 <= k < |xs| ==> xs[k] <= m
    ensures Sum(xs) <= (|xs| as real) * m
  {
    if xs != [] {
      SumAtMost(xs[..|xs| - 1], m);
      assert ((|xs| - 1) as real) * m + m == (|xs| as real) * m;
    }
  }

  lemma {:induction false} SumAtLeast(xs: seq<real>, m: real)
    requires forall k :: 0 <= k < |xs| ==> m <= xs[k]
    ensures (|xs| as real) * m <= Sum(xs)
  {
    if xs != [] {
      SumAtLeast(xs[..|xs| - 1], m);
      assert ((|xs| - 1) as real) * m + m == (|xs| as real) * m;
    }
  }

  lemma DivideBelow(a: real, n: real, m: real)
    requires n > 0.0 && a <= n * m
    ensures a / n <= m
  {
    assert a / n * n == a;
  }

  lemma DivideAbove(a: real, n: real, m: real)
    requires n > 0.0 && n * m <= a
    ensures m <= a / n
  {
    assert a / n * n == a;
  }

  lemma AverageAtMost(xs: seq<real>)
    requires xs != []
    ensures Average(xs) <= MaxOf(xs)
  {
    var m := MaxOf(xs);
    SumAtMost(xs, m);
    DivideBelow(Sum(xs), |xs| as real, m);
  }

  lemma AverageAtLeast(xs: seq<real>)
    requires xs != []
    ensures MinOf(xs) <= Average(xs)
  {
    var m := MinOf(xs);
    SumAtLeast(xs, m);
    DivideAbove(Sum(xs), |xs| as real, m);
  }

  /** AVERAGE lies between MIN and MAX of the same arguments. */
  lemma AverageBetween(args: seq<string>, cells: Grid)
    requires ArgValues(args, cells) != []
    ensures MinOf(ArgValues(args, cells)) <= Average(ArgValues(args, cells)) <= MaxOf(ArgValues(args, cells))
  {
    AverageAtMost(ArgValues(args, cells));
    AverageAtLeast(ArgValues(args, cells));
  }

  /** An argument list naming no numeric cell: SUM, COUNT and AVERAGE give 0. */
  lemma NoNumbers(args: seq<string>, cells: Grid)
    requires ArgValues(args, cells) == []
    ensures Sum(ArgValues(args, cells)) == 0.0 && Average(ArgValues(args, cells)) == 0.0
  {
  }

  // ---------------------------------------------------------------- text functions

  /** `String(value)` for a non-null value. */
  function ValueText(v: CellValue): string
    requires v != Empty
  {
    match v
    case Text(s) => s
    case Number(n) => NumberText(n)
  }

  /** The text value of the first argument's cell, None when there is no argument, no such
      cell or the cell is null; the three text functions then give the empty string. */
  function FirstText(args: seq<string>, cells: Grid): Option<string> {
    if args == [] || args[0] !in cells || cells[args[0]].value == Empty then None
    else Some(ValueText(cells[args[0]].value))
  }

  /** `applyTrim`. */
  function ApplyTrim(args: seq<string>, cells: Grid): (r: string)
    ensures Trimmed(r)
    ensures FirstText(args, cells).None? ==> r == ""
  {
    match FirstText(args, cells)
    case None => ""
    case Some(s) => Trim(s)
  }

  /** `applyUpper`. */
  function ApplyUpper(args: seq<string>, cells: Grid): (r: string)
    ensures FirstText(args, cells).None? ==> r == ""
    ensures forall k :: 0 <= k < |r| ==> !IsLower(r[k])
  {
    match FirstText(args, cells)
    case None => ""
    case Some(s) => ToUpper(s)
  }

  /** `applyLower`. */
  function ApplyLower(args: seq<string>, cells: Grid): (r: string)
    ensures FirstText(args, cells).None? ==> r == ""
    ensures forall k :: 0 <= k < |r| ==> !IsUpper(r[k])
  {
    match FirstText(args, cells)
    case None => ""
    case Some(s) => ToLower(s)
  }

  /** TRIM, UPPER and LOWER look only at the first argument. */
  lemma TextFunctionsUseFirst(a: string, rest: seq<string>, cells: Grid)
    ensures ApplyTrim([a] + rest, cells) == ApplyTrim([a], cells)
    ensures ApplyUpper([a] + rest, cells) == ApplyUpper([a], cells)
    ensures ApplyLower([a] + rest, cells) == ApplyLower([a], cells)
  {
  }

  /** TRIM of a cell's text keeps what lies between white space at both ends. */
  lemma TrimOfCell(id: string, cells: Grid)
    requires id in cells && cells[id].value != Empty
    ensures var s, r := ValueText(cells[id].value), ApplyTrim([id], cells);
      exists i :: 0 <= i <= |s| - |r| && r == s[i..i + |r|] && SpaceBetween(s, 0, i) && SpaceBetween(s, i + |r|, |s|)
  {
    assert ApplyTrim([id], cells) == Trim(ValueText(cells[id].value));
  }

  /** UPPER and LOWER of a cell's text keep its length and change nothing but case. */
  lemma CaseOfCell(id: string, cells: Grid)
    requires id in cells && cells[id].value != Empty
    ensures var s, u, l := ValueText(cells[id].value), ApplyUpper([id], cells), ApplyLower([id], cells);
      && |u| == |s| && |l| == |s|
      && (forall k :: 0 <= k < |s| ==> LowerChar(u[k]) == LowerChar(s[k]) && UpperChar(l[k]) == UpperChar(s[k]))
  {
    assert ApplyUpper([id], cells) == ToUpper(ValueText(cells[id].value));
    assert ApplyLower([id], cells) == ToLower(ValueText(cells[id].value));
  }

  /** Writing TRIM's result into a cell and trimming that cell again changes nothing. */
  lemma TrimTwice(args: seq<string>, cells: Grid, id: string, c: Cell)
    requires c.value == Text(ApplyTrim(args, cells))
    ensures ApplyTrim([id], cells[id := c]) == ApplyTrim(args, cells)
  {
    TrimOfTrimmed(ApplyTrim(args, cells));
  }

  /** LOWER of UPPER's result is LOWER of the original, and UPPER of LOWER's result is UPPER
      of the original. */
  lemma CaseRoundTrip(args: seq<string>, cells: Grid, id: string, c: Cell, d: Cell)
    requires c.value == Text(ApplyUpper(args, cells)) && d.value == Text(ApplyLower(args, cells))
    ensures ApplyLower([id], cells[id := c]) == ApplyLower(args, cells)
    ensures ApplyUpper([id], cells[id := d]) == ApplyUpper(args, cells)
  {
    if FirstText(args, cells).Some? {
      LowerOfUpper(FirstText(args, cells).value);
      UpperOfLower(FirstText(args, cells).value);
    }
  }

  // ---------------------------------------------------------------- what the functions read

  /** Two grids with the same ids and the same value in each cell. */
  predicate SameValues(a: Grid, b: Grid) {
    a.Keys == b.Keys && forall k :: k in a ==> a[k].value == b[k].value
  }

  /** The aggregates read only the values of the cells. */
  lemma {:induction false} ValuesSame(ids: seq<string>, a: Grid, b: Grid)
    requires SameValues(a, b)
    ensures Values(ids, a) == Values(ids, b)
  {
    if ids != [] {
      ValuesSame(ids[..|ids| - 1], a, b);
    }
  }

  lemma {:induction false} ArgValuesSame(args: seq<string>, a: Grid, b: Grid)
    requires SameValues(a, b)
    ensures ArgValues(args, a) == ArgValues(args, b)
  {
    if args != [] {
      ArgValuesSame(args[..|args| - 1], a, b);
      ValuesSame(ArgIds(args[|args| - 1]), a, b);
    }
  }

  /** So do the text functions. */
  lemma TextSame(args: seq<string>, a: Grid, b: Grid)
    requires SameValues(a, b)
    ensures ApplyTrim(args, a) == ApplyTrim(args, b)
    ensures ApplyUpper(args, a) == ApplyUpper(args, b)
    ensures ApplyLower(args, a) == ApplyLower(args, b)
  {
    assert FirstText(args, a) == FirstText(args, b);
  }
}

