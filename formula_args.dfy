/** The argument list of a function call (`parseArguments`) and the expansion of a range
    argument such as `A1:B3` (`parseRange`). */
module FormulaArgs {

  import opened Types
  import opened Text
  import opened CellUtils

  // ---------------------------------------------------------------- parseArguments

  /** The variables of the `parseArguments` loop. */
  datatype ArgScan = ArgScan(args: seq<string>, current: string, inQuotes: bool, parenCount: int)

  const Start := ArgScan([], "", false, 0)

  /** One character c, `prev` being the character before it (None for the first one): a quote
      not preceded by a backslash toggles quoting; parentheses outside quotes count depth; a
      comma outside quotes at depth 0 ends the current (trimmed) argument. */
  function Step(st: ArgScan, prev: Option<char>, c: char): ArgScan {
    if c == '"' && prev != Some('\\') then
      st.(inQuotes := !st.inQuotes, current := st.current + [c])
    else if c == '(' && !st.inQuotes then
      st.(parenCount := st.parenCount + 1, current := st.current + [c])
    else if c == ')' && !st.inQuotes then
      st.(parenCount := st.parenCount - 1, current := st.current + [c])
    else if c == ',' && !st.inQuotes && st.parenCount == 0 then
      st.(args := st.args + [Trim(st.current)], current := "")
    else
      st.(current := st.current + [c])
  }

  /** The character before the end of s, or `prev` when s is empty. */
  function LastChar(s: string, prev: Option<char>): Option<char> {
    if s == [] then prev else Some(s[|s| - 1])
  }

  /** The state after scanning s from st, `prev` being the character before s. */
  function Run(st: ArgScan, s: string, prev: Option<char>): ArgScan {
    if s == [] then st
    else Step(Run(st, s[..|s| - 1], prev), LastChar(s[..|s| - 1], prev), s[|s| - 1])
  }

  /** After the loop: a non-blank remainder is the last argument. */
  function Finish(st: ArgScan): seq<string> {
    if Trim(st.current) != "" then st.args + [Trim(st.current)] else st.args
  }

  /** What `parseArguments` returns. */
  function SplitArguments(s: string): seq<string> {
    Finish(Run(Start, s, None))
  }

  /** `parseArguments`. */
  method ParseArguments(argsString: string) returns (args: seq<string>)
    ensures args == SplitArguments(argsString)
  {
    args := [];
    var currentArg := "";
    var inQuotes := false;
    var parenCount := 0;
    for i := 0 to |argsString|
      invariant ArgScan(args, currentArg, inQuotes, parenCount) == Run(Start, argsString[..i], None)
    {
      var c := argsString[i];
      assert argsString[..i + 1][..i] == argsString[..i];
      assert LastChar(argsString[..i], None) == if i == 0 then None else Some(argsString[i - 1]);
      if c == '"' && (i == 0 || argsString[i - 1] != '\\') {
        inQuotes := !inQuotes;
        currentArg := currentArg + [c];
      } else if c == '(' && !inQuotes {
        parenCount := parenCount + 1;
        currentArg := currentArg + [c];
      } else if c == ')' && !inQuotes {
        parenCount := parenCount - 1;
        currentArg := currentArg + [c];
      } else if c == ',' && !inQuotes && parenCount == 0 {
        args := args + [Trim(currentArg)];
        currentArg := "";
      } else {
        currentArg := currentArg + [c];
      }
    }
    assert argsString[..|argsString|] == argsString;
    if Trim(currentArg) != "" {
      args := args + [Trim(currentArg)];
    }
  }

  /** Scanning a + b is scanning a, then b. */
  lemma {:induction false} RunAppend(st: ArgScan, a: string, b: string, prev: Option<char>)
    ensures Run(st, a + b, prev) == Run(Run(st, a, prev), b, LastChar(a, prev))
    decreases |b|
  {
    if b == [] {
      assert a + b == a;
    } else {
      var b' := b[..|b| - 1];
      RunAppend(st, a, b', prev);
      assert (a + b)[..|a + b| - 1] == a + b';
      assert LastChar(a + b', prev) == LastChar(b', LastChar(a, prev));
    }
  }

  predicate NoChar(s: string, c: char) {
    forall k :: 0 <= k < |s| ==> s[k] != c
  }

  /** No special character: no comma, quote or parenthesis. */
  predicate Plain(s: string) {
    NoChar(s, ',') && NoChar(s, '"') && NoChar(s, '(') && NoChar(s, ')')
  }

  /** Without a comma nothing is split off: the text only accumulates. */
  lemma {:induction false} RunNoComma(st: ArgScan, s: string, prev: Option<char>)
    requires NoChar(s, ',')
    ensures Run(st, s, prev).args == st.args && Run(st, s, prev).current == st.current + s
    ensures Plain(s) ==> Run(st, s, prev) == st.(current := st.current + s)
  {
    if s != [] {
      var s', c := s[..|s| - 1], s[|s| - 1];
      NoCharInit(s, ',');
      if Plain(s) {
        NoCharInit(s, '"');
        NoCharInit(s, '(');
        NoCharInit(s, ')');
      }
      RunNoComma(st, s', prev);
      StepNoComma(Run(st, s', prev), LastChar(s', prev), c);
      assert s == s' + [c];
      assert st.current + s' + [c] == st.current + s;
    }
  }

  lemma NoCharInit(s: string, c: char)
    requires s != [] && NoChar(s, c)
    ensures NoChar(s[..|s| - 1], c) && s[|s| - 1] != c
  {
  }

  /** A character other than a comma is appended to the current argument. */
  lemma StepNoComma(st: ArgScan, prev: Option<char>, c: char)
    requires c != ','
    ensures Step(st, prev, c).args == st.args && Step(st, prev, c).current == st.current + [c]
    ensures c != '"' && c != '(' && c != ')' ==> Step(st, prev, c) == st.(current := st.current + [c])
  {
  }

  /** Inside quotes, commas and parentheses are ordinary characters. */
  lemma {:induction false} RunInQuotes(st: ArgScan, s: string, prev: Option<char>)
    requires st.inQuotes && NoChar(s, '"')
    ensures Run(st, s, prev) == st.(current := st.current + s)
  {
    if s != [] {
      var s' := s[..|s| - 1];
      RunInQuotes(st, s', prev);
      assert s == s' + [s[|s| - 1]];
    }
  }

  /** Inside parentheses, a comma does not split (as long as no parenthesis closes). */
  lemma {:induction false} RunNested(st: ArgScan, s: string, prev: Option<char>)
    requires !st.inQuotes && st.parenCount != 0 && NoChar(s, '"') && NoChar(s, '(') && NoChar(s, ')')
    ensures Run(st, s, prev) == st.(current := st.current + s)
  {
    if s != [] {
      var s' := s[..|s| - 1];
      RunNested(st, s', prev);
      assert s == s' + [s[|s| - 1]];
    }
  }

  predicate AllTrimmed(args: seq<string>) {
    forall k :: 0 <= k < |args| ==> Trimmed(args[k])
  }

  lemma {:induction false} ArgsTrimmedRun(st: ArgScan, s: string, prev: Option<char>)
    requires AllTrimmed(st.args)
    ensures AllTrimmed(Run(st, s, prev).args)
  {
    if s != [] {
      var s' := s[..|s| - 1];
      ArgsTrimmedRun(st, s', prev);
      var st' := Run(st, s', prev);
      assert Run(st, s, prev) == Step(st', LastChar(s', prev), s[|s| - 1]);
    }
  }

  /** Every argument comes out with no white space at either end. */
  lemma ArgumentsTrimmed(s: string)
    ensures AllTrimmed(SplitArguments(s))
  {
    ArgsTrimmedRun(Start, s, None);
  }

  /** Text without a comma is a single argument (none when it is blank). */
  lemma NoCommaOneArgument(s: string)
    requires NoChar(s, ',')
    ensures SplitArguments(s) == if Trim(s) == "" then [] else [Trim(s)]
  {
    RunNoComma(Start, s, None);
    assert "" + s == s;
  }

  /** A quoted argument keeps its commas. */
  lemma QuotedArgument(q: string)
    requires NoChar(q, '"') && (q == [] || q[|q| - 1] != '\\')
    ensures SplitArguments("\"" + q + "\"") == ["\"" + q + "\""]
  {
    var st1 := Step(Start, None, '"');
    assert Run(Start, "\"", None) == st1;
    RunInQuotes(st1, q, Some('"'));
    RunAppend(Start, "\"", q, None);
    var st2 := Run(Start, "\"" + q, None);
    assert st2 == ArgScan([], "\"" + q, true, 0);
    RunAppend(Start, "\"" + q, "\"", None);
    assert LastChar("\"" + q, None) != Some('\\');
    assert Run(st2, "\"", LastChar("\"" + q, None)) == ArgScan([], "\"" + q + "\"", false, 0);
    TrimOfTrimmed("\"" + q + "\"");
  }

  /** A parenthesised argument, such as a nested call, keeps its commas. */
  lemma NestedArgument(q: string)
    requires NoChar(q, '"') && NoChar(q, '(') && NoChar(q, ')')
    ensures SplitArguments("(" + q + ")") == ["(" + q + ")"]
  {
    var st1 := ArgScan([], "(", false, 1);
    RunOne(Start, '(', None);
    assert "(" == ['('] == "" + ['('];
    assert Run(Start, "(", None) == st1;
    assert LastChar("(", None) == Some('(');
    RunNested(st1, q, Some('('));
    RunAppend(Start, "(", q, None);
    var st2 := ArgScan([], "(" + q, false, 1);
    assert Run(Start, "(" + q, None) == st2;
    RunAppend(Start, "(" + q, ")", None);
    RunOne(st2, ')', LastChar("(" + q, None));
    assert ")" == [')'] && st2.current + [')'] == "(" + q + ")";
    BracketedFinish("(" + q + ")", '(', ')');
  }

  /** A bracketed text scanned to its end at depth 0 is one argument. */
  lemma BracketedFinish(p: string, a: char, b: char)
    requires |p| >= 2 && p[0] == a && p[|p| - 1] == b && !IsSpace(a) && !IsSpace(b)
    ensures Finish(ArgScan([], p, false, 0)) == [p]
  {
    Bracketed(p, a, b);
    FinishOne(ArgScan([], p, false, 0));
  }

  /** Text that starts and ends with characters other than white space is trimmed. */
  lemma Bracketed(p: string, a: char, b: char)
    requires p != [] && p[0] == a && p[|p| - 1] == b && !IsSpace(a) && !IsSpace(b)
    ensures Trimmed(p)
  {
  }

  /** A scan that ends with no argument split off and trimmed text gives that text alone. */
  lemma FinishOne(st: ArgScan)
    requires st.args == [] && st.current != [] && Trimmed(st.current)
    ensures Finish(st) == [st.current]
  {
    TrimOfTrimmed(st.current);
  }

  /** Scanning one character is one step. */
  lemma RunOne(st: ArgScan, c: char, prev: Option<char>)
    ensures Run(st, [c], prev) == Step(st, prev, c)
  {
    assert [c][..0] == [];
  }

  /** A comma at depth 0 outside quotes ends the current argument. */
  lemma CommaStep(args: seq<string>, current: string, j: string)
    requires Run(Start, j, None) == ArgScan(args, current, false, 0) && Trimmed(current)
    ensures Run(Start, j + ",", None) == ArgScan(args + [current], "", false, 0)
  {
    RunAppend(Start, j, ",", None);
    RunOne(ArgScan(args, current, false, 0), ',', LastChar(j, None));
    TrimOfTrimmed(current);
  }

  /** Plain, trimmed pieces joined by commas scan back into those pieces. */
  lemma {:induction false} JoinScan(ps: seq<string>)
    requires ps != [] && forall k :: 0 <= k < |ps| ==> Plain(ps[k]) && Trimmed(ps[k])
    ensures Run(Start, Join(ps, ","), None) == ArgScan(ps[..|ps| - 1], ps[|ps| - 1], false, 0)
  {
    if |ps| == 1 {
      RunNoComma(Start, ps[0], None);
      assert "" + ps[0] == ps[0];
    } else {
      var init := ps[..|ps| - 1];
      var last := ps[|ps| - 1];
      var j := Join(init, ",");
      assert Join(ps, ",") == j + "," + last;
      JoinScan(init);
      CommaStep(init[..|init| - 1], init[|init| - 1], j);
      var st1 := Run(Start, j + ",", None);
      InitLast(init);
      RunAppend(Start, j + ",", last, None);
      RunNoComma(st1, last, LastChar(j + ",", None));
      assert "" + last == last;
    }
  }

  /** Plain pieces without white space at their ends, the last one non-empty, joined by
      commas split back into those pieces. */
  lemma SplitJoin(ps: seq<string>)
    requires forall k :: 0 <= k < |ps| ==> Plain(ps[k]) && Trimmed(ps[k])
    requires ps != [] ==> ps[|ps| - 1] != ""
    ensures SplitArguments(Join(ps, ",")) == ps
  {
    if ps != [] {
      JoinScan(ps);
      TrimOfTrimmed(ps[|ps| - 1]);
      InitLast(ps);
    }
  }

  // ---------------------------------------------------------------- parseRange

  /** The two parts of `range.split(':')` when there are exactly two, that is when the text
      holds exactly one colon. */
  function SplitColon(range: string): (r: Option<(string, string)>)
    ensures r.Some? ==> range == r.value.0 + ":" + r.value.1 && NoChar(r.value.0, ':') && NoChar(r.value.1, ':')
    ensures r.None? ==> NoChar(range, ':') || exists i, j :: 0 <= i < j < |range| && range[i] == ':' && range[j] == ':'
  {
    IndexOfChar(range, ':', 0);
    match IndexOf(range, ":", 0)
    case None => None
    case Some(p) =>
      IndexOfChar(range, ':', p + 1);
      if IndexOf(range, ":", p + 1).Some? then None
      else
        assert range == range[..p] + ":" + range[p + 1..];
        Some((range[..p], range[p + 1..]))
  }

  /** What `parseRange` lists. When the text holds exactly one colon and each side holds a
      cell reference, it lists the ids of the block between the two corners, row by row. The
      rows run from the first corner's row to the second's, and the columns likewise, so an
      inverted range lists nothing. Otherwise it lists the text itself alone. Each corner is
      read the way `parseCellId` reads an id. */
  function RangeIds(range: string): seq<string> {
    match SplitColon(range)
    case None => [range]
    case Some((a, b)) =>
      match BlockBetween(Trim(a), Trim(b))
      case None => [range]
      case Some(ids) => ids
  }

  /** The block from one corner to the other, or None when either holds no cell reference. */
  function BlockBetween(startCell: string, endCell: string): Option<seq<string>> {
    match ParseCellId(startCell)
    case Err(_) => None
    case Ok(s) =>
      match ParseCellId(endCell)
      case Err(_) => None
      case Ok(e) => Some(Block(s.row, e.row, s.col, e.col))
  }

  /** A corner of a range is read the way `parseCellId` reads an id. */
  lemma CornerOf(cell: string)
    requires FindRef(cell, 0).Some?
    ensures var m := FindRef(cell, 0).value;
      ParseCellId(cell) == Ok(Coord(DigitsValue(cell[m.mid..m.end]) - 1, ColumnNumber(cell[m.start..m.mid])))
  {
  }

  /** `parseRange` from the trimmed corners on: match both, then list the block. */
  method ListBetween(startCell: string, endCell: string) returns (r: Option<seq<string>>)
    ensures r == BlockBetween(startCell, endCell)
  {
    var startMatch := FindRef(startCell, 0);
    if startMatch.None? {
      return None;
    }
    var m := startMatch.value;
    var startCol := startCell[m.start..m.mid];
    var startRow: int := DigitsValue(startCell[m.mid..m.end]);
    var endMatch := FindRef(endCell, 0);
    if endMatch.None? {
      return None;
    }
    var n := endMatch.value;
    var endCol := endCell[n.start..n.mid];
    var endRow: int := DigitsValue(endCell[n.mid..n.end]);
    var startColIndex := ColumnToIndex(startCol);
    var endColIndex := ColumnToIndex(endCol);
    CornerOf(startCell);
    CornerOf(endCell);
    // the rows here are one-based; the block lists `indexToColumn(col) + row`
    var cells := ListBlock(startRow - 1, endRow - 1, startColIndex, endColIndex);
    return Some(cells);
  }

  /** `parseRange`. */
  method ParseRange(range: string) returns (cells: seq<string>)
    ensures cells == RangeIds(range)
  {
    var parts := SplitColon(range);
    if parts.None? {
      return [range];
    }
    var startCell := Trim(parts.value.0);
    var endCell := Trim(parts.value.1);
    var block := ListBetween(startCell, endCell);
    if block.None? {
      return [range];
    }
    return block.value;
  }

  /** Text without a colon is not a range. */
  lemma NoColonNoRange(range: string)
    requires NoChar(range, ':')
    ensures RangeIds(range) == [range]
  {
    SplitHasColon(range);
  }

  lemma SplitHasColon(range: string)
    ensures SplitColon(range).Some? ==> |SplitColon(range).value.0| < |range| && range[|SplitColon(range).value.0|] == ':'
  {
    if SplitColon(range).Some? {
      var (a, b) := SplitColon(range).value;
      assert (a + ":" + b)[|a|] == ':';
    }
  }

  /** Text with two colons or more is not a range. */
  lemma TwoColonsNoRange(range: string, i: nat, j: nat)
    requires i < j < |range| && range[i] == ':' && range[j] == ':'
    ensures RangeIds(range) == [range]
  {
    if SplitColon(range).Some? {
      var (a, b) := SplitColon(range).value;
      ColonsOfJoin(a, b, i);
      ColonsOfJoin(a, b, j);
    }
  }

  /** `a:b` with colon-free sides has its only colon between them. */
  lemma ColonsOfJoin(a: string, b: string, k: nat)
    requires NoChar(a, ':') && NoChar(b, ':') && k < |a + ":" + b|
    ensures (a + ":" + b)[k] == ':' <==> k == |a|
  {
    var s := a + ":" + b;
    if k < |a| {
      assert s[k] == a[k];
    } else if k > |a| {
      assert s[k] == b[k - |a| - 1];
    }
  }

  /** The only split of `a:b` with colon-free sides is a and b. */
  lemma SplitAtColon(a: string, b: string)
    requires NoChar(a, ':') && NoChar(b, ':')
    ensures SplitColon(a + ":" + b) == Some((a, b))
  {
    var s := a + ":" + b;
    forall k | 0 <= k < |s|
      ensures s[k] == ':' <==> k == |a|
    {
      ColonsOfJoin(a, b, k);
    }
    assert s[|a|] == ':';
    IndexOfChar(s, ':', 0);
    IndexOfChar(s, ':', |a| + 1);
    var (x, y) := SplitColon(s).value;
    assert s[|x|] == ':';
    assert x == s[..|a|] && a == s[..|a|];
    assert y == s[|a| + 1..] && b == s[|a| + 1..];
  }

  /** A range of two valid corners lists the block from the first corner to the second. */
  lemma RangeOfParsedCorners(a: string, b: string)
    requires NoChar(a, ':') && NoChar(b, ':') && Trimmed(a) && Trimmed(b)
    requires ParseCellId(a).Ok? && ParseCellId(b).Ok?
    ensures var s, e := ParseCellId(a).value, ParseCellId(b).value;
      RangeIds(a + ":" + b) == Block(s.row, e.row, s.col, e.col)
  {
    SplitAtColon(a, b);
    TrimOfTrimmed(a);
    TrimOfTrimmed(b);
  }

  lemma CellIdNoColon(row: nat, col: nat)
    ensures NoChar(GetCellId(row, col), ':') && Trimmed(GetCellId(row, col))
  {
    CellIdPlain(row, col);
  }

  /** The range written with two canonical corners lists the block from the first corner to
      the second, row by row. */
  lemma RangeOfCorners(r0: nat, c0: nat, r1: nat, c1: nat)
    ensures RangeIds(GetCellId(r0, c0) + ":" + GetCellId(r1, c1)) == Block(r0, r1, c0, c1)
  {
    CellIdNoColon(r0, c0);
    CellIdNoColon(r1, c1);
    CellIdRoundTrip(r0, c0);
    CellIdRoundTrip(r1, c1);
    RangeOfParsedCorners(GetCellId(r0, c0), GetCellId(r1, c1));
  }

  /** For corners given top-left first, `parseRange` and `getCellRange` agree. */
  lemma RangeAgreesWithCellRange(r0: nat, c0: nat, r1: nat, c1: nat)
    requires r0 <= r1 && c0 <= c1
    ensures CellRange(GetCellId(r0, c0), GetCellId(r1, c1)) == Ok(RangeIds(GetCellId(r0, c0) + ":" + GetCellId(r1, c1)))
  {
    RangeOfCorners(r0, c0, r1, c1);
    CellIdRoundTrip(r0, c0);
    CellIdRoundTrip(r1, c1);
  }

  /** Unlike `getCellRange`, `parseRange` does not reorder the corners: a range written
      bottom-up or right-to-left lists no cell. */
  lemma InvertedRangeIsEmpty(r0: nat, c0: nat, r1: nat, c1: nat)
    requires r1 < r0 || c1 < c0
    ensures RangeIds(GetCellId(r0, c0) + ":" + GetCellId(r1, c1)) == []
  {
    RangeOfCorners(r0, c0, r1, c1);
    BlockEmpty(r0, r1, c0, c1);
  }
}
