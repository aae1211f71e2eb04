/** `evaluateFormula`: a formula is either a call `NAME(args)` of one of the spreadsheet
    functions, or an arithmetic expression whose cell references are replaced, one first
    occurrence at a time, by the referenced values before the arithmetic is evaluated. */
module FormulaEval {

  import opened Types
  import opened Text
  import opened CellUtils
  import opened FormulaArgs
  import opened FormulaFunctions
  import opened Arith

  // ---------------------------------------------------------------- error texts

  const CircularText := "#ERROR: Circular reference"
  const InvalidText := "#ERROR: Invalid calculation"
  /** What the catch clause reports when the nested evaluation overflows the stack. */
  const StackText := "#ERROR: Maximum call stack size exceeded"
  /** What the catch clause reports when `eval` throws; every syntax error gives this text. */
  const SyntaxText := "#ERROR: Invalid or unexpected token"

  function UnknownText(name: string): string {
    "#ERROR: Unknown function " + name
  }

  // ---------------------------------------------------------------- the expression

  /** `formula.substring(1).trim()`. */
  function Expression(formula: string): string {
    if formula == [] then "" else Trim(formula[1..])
  }

  // ---------------------------------------------------------------- the function-call path

  predicate IsNameChar(c: char) { IsUpper(c) || c == '_' }

  /** `.` in a regular expression matches anything but these. */
  predicate IsLineTerminator(c: char) {
    c == '\n' || c == '\r' || c == '\U{2028}' || c == '\U{2029}'
  }

  /** The end of the run of `[A-Z_]` characters that starts at i. */
  function NameRunEnd(s: string, i: nat): (j: nat)
    requires i <= |s|
    ensures i <= j <= |s| && (j == |s| || !IsNameChar(s[j]))
    ensures forall k :: i <= k < j ==> IsNameChar(s[k])
    decreases |s| - i
  {
    if i < |s| && IsNameChar(s[i]) then NameRunEnd(s, i + 1) else i
  }

  /** A match of `^([A-Z_]+)\((.*)\)$`: the name and the argument text. The name is the whole
      leading run of `[A-Z_]`, which a `(` must follow; the expression must end in `)`; and
      what lies between may not hold a line terminator. */
  function FunctionCall(expr: string): (r: Option<(string, string)>)
    ensures r.Some? ==> expr == r.value.0 + "(" + r.value.1 + ")"
    ensures r.Some? ==> r.value.0 != [] && forall k :: 0 <= k < |r.value.0| ==> IsNameChar(r.value.0[k])
    ensures r.Some? ==> forall k :: 0 <= k < |r.value.1| ==> !IsLineTerminator(r.value.1[k])
  {
    var n := NameRunEnd(expr, 0);
    if n == 0 || |expr| < n + 2 || expr[n] != '(' || expr[|expr| - 1] != ')' then None
    else
      var args := expr[n + 1..|expr| - 1];
      if exists k :: 0 <= k < |args| && IsLineTerminator(args[k]) then None
      else
        assert expr == expr[..n] + "(" + args + ")";
        Some((expr[..n], args))
  }

  /** The functions a formula may call. */
  datatype Builtin = SumFn | AverageFn | MaxFn | MinFn | CountFn | TrimFn | UpperFn | LowerFn

  /** The `case` labels of the dispatch. */
  function BuiltinOf(key: string): Option<Builtin> {
    if key == "SUM" then Some(SumFn)
    else if key == "AVERAGE" then Some(AverageFn)
    else if key == "MAX" then Some(MaxFn)
    else if key == "MIN" then Some(MinFn)
    else if key == "COUNT" then Some(CountFn)
    else if key == "TRIM" then Some(TrimFn)
    else if key == "UPPER" then Some(UpperFn)
    else if key == "LOWER" then Some(LowerFn)
    else None
  }

  /** A function applied to the split arguments. */
  function ApplyBuiltin(f: Builtin, args: seq<string>, cells: Grid): CellValue {
    var xs := ArgValues(args, cells);
    match f
    case SumFn => Number(Sum(xs))
    case AverageFn => Number(Average(xs))
    case MaxFn => Number(if xs == [] then 0.0 else MaxOf(xs))
    case MinFn => Number(if xs == [] then 0.0 else MinOf(xs))
    case CountFn => Number(|xs| as real)
    case TrimFn => Text(ApplyTrim(args, cells))
    case UpperFn => Text(ApplyUpper(args, cells))
    case LowerFn => Text(ApplyLower(args, cells))
  }

  /** The value of a call: the function the upper-cased name selects, or the
      unknown-function error. */
  function CallFunction(name: string, argsText: string, cells: Grid): CellValue {
    match BuiltinOf(ToUpper(name))
    case None => Text(UnknownText(name))
    case Some(f) => ApplyBuiltin(f, SplitArguments(argsText), cells)
  }

  /** The function-call path is taken when the expression holds both parentheses and matches
      the call pattern. */
  function CallOf(expr: string): Option<(string, string)> {
    if Contains(expr, "(") && Contains(expr, ")") then FunctionCall(expr) else None
  }

  // ---------------------------------------------------------------- the expression path

  /** The matches of `/[A-Z]+\d+/g` from position `from` on, left to right. */
  function RefsFrom(s: string, from: nat): seq<string>
    decreases |s| - from
  {
    match FindRef(s, from)
    case None => []
    case Some(m) => [s[m.start..m.end]] + RefsFrom(s, m.end)
  }

  function AllRefs(s: string): seq<string> {
    RefsFrom(s, 0)
  }

  /** `String(value || 0)`: a falsy value (0, the empty string, null) becomes "0". */
  function ValueOrZero(v: CellValue): string {
    match v
    case Empty => "0"
    case Text(s) => if s == "" then "0" else s
    case Number(n) => if n == 0.0 then "0" else NumberText(n)
  }

  /** `String(cell.value)` of a numeric value, otherwise "0". */
  function PlainText(v: CellValue): string {
    if IsNumeric(v) then ValueText(v) else "0"
  }

  function FormulaOrEmpty(f: Option<string>): string {
    match f
    case None => ""
    case Some(t) => t
  }

  /** What the result of `eval` turns into: a syntax error is caught and reported, a NaN
      result is an invalid calculation, a number is the value. */
  function Outcome(q: Option<Quantity>): CellValue {
    match q
    case None => Text(SyntaxText)
    case Some(NaN) => Text(InvalidText)
    case Some(Real(r)) => Number(r)
  }

  /** `evaluateFormula(formula, cells, currentCellId)`, where `depth` is how many nested
      evaluations the stack still allows. A reference to a formula cell evaluates that formula
      one level deeper, for the same current cell; at depth 0 that call overflows the stack,
      and the frame that made it reports the overflow. */
  function Evaluate(formula: string, cells: Grid, current: string, depth: nat): CellValue
    decreases depth, 3, 0
  {
    var expr := Expression(formula);
    match CallOf(expr)
    case Some((name, argsText)) => CallFunction(name, argsText, cells)
    case None => ExpressionValue(expr, cells, current, depth)
  }

  /** The expression path: a reference to the current cell is circular; otherwise the
      references are substituted and the text is evaluated as arithmetic. */
  function ExpressionValue(expr: string, cells: Grid, current: string, depth: nat): CellValue
    decreases depth, 2, 0
  {
    var refs := AllRefs(expr);
    if current in refs then Text(CircularText)
    else
      match Substitute(expr, refs, cells, current, depth)
      case None => Text(StackText)
      case Some(e) => Outcome(Calc(e))
  }

  /** The expression after replacing, in order, the first occurrence of each reference by its
      value; None when one of the nested evaluations overflows the stack. */
  function Substitute(expr: string, refs: seq<string>, cells: Grid, current: string, depth: nat): Option<string>
    decreases depth, 1, |refs|
  {
    if refs == [] then Some(expr)
    else
      match Replacement(refs[0], cells, current, depth)
      case None => None
      case Some(x) => Substitute(ReplaceFirst(expr, refs[0], x), refs[1..], cells, current, depth)
  }

  /** The text one reference is replaced by: "0" for a missing cell, the evaluated formula of
      a formula cell, otherwise the cell's numeric value or "0". */
  function Replacement(ref: string, cells: Grid, current: string, depth: nat): Option<string>
    decreases depth, 0, 0
  {
    if ref !in cells then Some("0")
    else if cells[ref].kind == FormulaCell then
      if depth == 0 then None
      else Some(ValueOrZero(Evaluate(FormulaOrEmpty(cells[ref].formula), cells, current, depth - 1)))
    else Some(PlainText(cells[ref].value))
  }

  // ---------------------------------------------------------------- the method

  /** The `switch` over the upper-cased function name. */
  method CallMethod(functionName: string, argsText: string, cells: Grid) returns (v: CellValue)
    ensures v == CallFunction(functionName, argsText, cells)
  {
    var args := ParseArguments(argsText);
    var key := BuiltinOf(ToUpper(functionName));
    match key {
      case None =>
        v := Text(UnknownText(functionName));
      case Some(SumFn) =>
        var r := CalculateSum(args, cells);
        v := Number(r);
      case Some(AverageFn) =>
        var r := CalculateAverage(args, cells);
        v := Number(r);
      case Some(MaxFn) =>
        var r := CalculateMax(args, cells);
        v := Number(r);
      case Some(MinFn) =>
        var r := CalculateMin(args, cells);
        v := Number(r);
      case Some(CountFn) =>
        var r := CalculateCount(args, cells);
        v := Number(r as real);
      case Some(TrimFn) =>
        v := Text(ApplyTrim(args, cells));
      case Some(UpperFn) =>
        v := Text(ApplyUpper(args, cells));
      case Some(LowerFn) =>
        v := Text(ApplyLower(args, cells));
    }
  }

  /** The substitution loop: None when a nested evaluation overflows the stack. */
  method SubstituteRefs(expression: string, cellReferences: seq<string>, cells: Grid, currentCellId: string, depth: nat)
    returns (r: Option<string>)
    ensures r == Substitute(expression, cellReferences, cells, currentCellId, depth)
    decreases depth, 0
  {
    var evaluated := expression;
    for i := 0 to |cellReferences|
      invariant Substitute(expression, cellReferences, cells, currentCellId, depth)
        == Substitute(evaluated, cellReferences[i..], cells, currentCellId, depth)
    {
      var cellRef := cellReferences[i];
      assert cellReferences[i..][1..] == cellReferences[i + 1..];
      if cellRef !in cells {
        evaluated := ReplaceFirst(evaluated, cellRef, "0");
      } else if cells[cellRef].kind == FormulaCell {
        if depth == 0 {
          return None;
        }
        var value := EvaluateFormula(FormulaOrEmpty(cells[cellRef].formula), cells, currentCellId, depth - 1);
        evaluated := ReplaceFirst(evaluated, cellRef, ValueOrZero(value));
      } else {
        evaluated := ReplaceFirst(evaluated, cellRef, PlainText(cells[cellRef].value));
      }
    }
    assert cellReferences[|cellReferences|..] == [];
    r := Some(evaluated);
  }

  /** `evaluateFormula`. */
  method EvaluateFormula(formula: string, cells: Grid, currentCellId: string, depth: nat) returns (v: CellValue)
    ensures v == Evaluate(formula, cells, currentCellId, depth)
    decreases depth, 1
  {
    var expression := Expression(formula);
    var call := CallOf(expression);
    if call.Some? {
      v := CallMethod(call.value.0, call.value.1, cells);
      return;
    }
    var cellReferences := AllRefs(expression);
    if currentCellId in cellReferences {
      return Text(CircularText);
    }
    var evaluated := SubstituteRefs(expression, cellReferences, cells, currentCellId, depth);
    if evaluated.None? {
      return Text(StackText);
    }
    v := Outcome(Calc(evaluated.value));
  }

  // ---------------------------------------------------------------- lemmas: which path is taken

  /** The `includes` test in front of the pattern decides nothing: a match holds both. */
  lemma CallGateRedundant(expr: string)
    ensures CallOf(expr) == FunctionCall(expr)
  {
    var r := FunctionCall(expr);
    if r.Some? {
      var (name, args) := r.value;
      assert expr[|name|] == '(' && expr[|expr| - 1] == ')';
      OccursAtChar(expr, '(', |name|);
      OccursAtChar(expr, ')', |expr| - 1);
      ContainsIff(expr, "(");
      ContainsIff(expr, ")");
    }
  }

  lemma NameRunEndOf(s: string, n: nat, i: nat)
    requires i <= n < |s| && !IsNameChar(s[n])
    requires forall k :: i <= k < n ==> IsNameChar(s[k])
    ensures NameRunEnd(s, i) == n
    decreases n - i
  {
    if i < n {
      NameRunEndOf(s, n, i + 1);
    }
  }

  /** The text of a call `NAME(args)`. */
  function CallText(name: string, args: string): string {
    "=" + name + "(" + args + ")"
  }

  predicate IsName(name: string) {
    name != [] && forall k :: 0 <= k < |name| ==> IsNameChar(name[k])
  }

  predicate SingleLine(s: string) {
    forall k :: 0 <= k < |s| ==> !IsLineTerminator(s[k])
  }

  lemma CallExpression(name: string, args: string)
    requires IsName(name) && SingleLine(args)
    ensures Expression(CallText(name, args)) == name + "(" + args + ")"
  {
    var expr := name + "(" + args + ")";
    assert CallText(name, args)[1..] == expr;
    assert expr[0] == name[0];
    TrimOfTrimmed(expr);
  }

  lemma CallMatch(name: string, args: string)
    requires IsName(name) && SingleLine(args)
    ensures CallOf(name + "(" + args + ")") == Some((name, args))
  {
    var expr := name + "(" + args + ")";
    NameRunEndOf(expr, |name|, 0);
    assert expr[..|name|] == name;
    assert expr[|name| + 1..|expr| - 1] == args;
    assert FunctionCall(expr) == Some((name, args));
    CallGateRedundant(expr);
  }

  /** A formula `=NAME(args)` with a name of capitals and underscores and arguments on one line
      is a call of that name on those arguments. */
  lemma CallFormula(name: string, args: string, cells: Grid, current: string, depth: nat)
    requires IsName(name) && SingleLine(args)
    ensures Evaluate(CallText(name, args), cells, current, depth) == CallFunction(name, args, cells)
  {
    CallExpression(name, args);
    CallMatch(name, args);
  }

  /** A name of capitals and underscores is its own upper case. */
  lemma UpperOfName(name: string)
    requires IsName(name)
    ensures ToUpper(name) == name
  {
  }

  /** A name outside the eight functions is reported as unknown. */
  lemma UnknownFunction(name: string, args: string, cells: Grid, current: string, depth: nat)
    requires IsName(name) && SingleLine(args)
    requires name !in {"SUM", "AVERAGE", "MAX", "MIN", "COUNT", "TRIM", "UPPER", "LOWER"}
    ensures Evaluate(CallText(name, args), cells, current, depth) == Text("#ERROR: Unknown function " + name)
  {
    CallFormula(name, args, cells, current, depth);
    NameCall(name, args, cells);
  }

  /** A name of capitals and underscores selects the function of that very name. */
  lemma NameCall(name: string, argsText: string, cells: Grid)
    requires IsName(name)
    ensures CallFunction(name, argsText, cells) ==
      match BuiltinOf(name)
      case None => Text(UnknownText(name))
      case Some(f) => ApplyBuiltin(f, SplitArguments(argsText), cells)
  {
    UpperOfName(name);
  }

  /** The eight `case` labels. */
  lemma BuiltinNames()
    ensures BuiltinOf("SUM") == Some(SumFn) && BuiltinOf("AVERAGE") == Some(AverageFn)
    ensures BuiltinOf("MAX") == Some(MaxFn) && BuiltinOf("MIN") == Some(MinFn)
    ensures BuiltinOf("COUNT") == Some(CountFn) && BuiltinOf("TRIM") == Some(TrimFn)
    ensures BuiltinOf("UPPER") == Some(UpperFn) && BuiltinOf("LOWER") == Some(LowerFn)
  {
  }

  /** A call of one of the eight functions evaluates to that function on the split arguments. */
  lemma BuiltinFormula(name: string, f: Builtin, args: string, cells: Grid, current: string, depth: nat)
    requires IsName(name) && SingleLine(args) && BuiltinOf(name) == Some(f)
    ensures Evaluate(CallText(name, args), cells, current, depth) == ApplyBuiltin(f, SplitArguments(args), cells)
  {
    CallFormula(name, args, cells, current, depth);
    NameCall(name, args, cells);
  }

  /** A name that starts with a lower-case letter does not match the call pattern, so the
      upper-casing in front of the dispatch never changes a name that reaches it. */
  lemma LowerCaseNotCall(name: string, args: string)
    requires name != [] && IsLower(name[0])
    ensures CallOf(name + "(" + args + ")") == None
  {
    var expr := name + "(" + args + ")";
    assert expr[0] == name[0];
    assert NameRunEnd(expr, 0) == 0;
  }

  // ---------------------------------------------------------------- lemmas: the expression path

  /** A text without capitals holds no reference. */
  lemma NoRefs(s: string, from: nat)
    requires forall k :: 0 <= k < |s| ==> !IsUpper(s[k])
    ensures RefsFrom(s, from) == []
  {
    forall j: nat | j < |s| ensures !StartsRef(s, j) {
    }
    assert FindRef(s, from).None?;
  }

  /** The text of an arithmetic expression is its own expression, is not a call and holds
      no reference. */
  lemma SourceExpression(e: Ast)
    ensures var src := Source(e);
      && Expression("=" + src) == src && CallOf(src) == None && AllRefs(src) == []
  {
    var src := Source(e);
    SourceShape(e);
    assert ("=" + src)[1..] == src;
    TrimOfTrimmed(src);
    assert NameRunEnd(src, 0) == 0;
    NoRefs(src, 0);
  }

  /** Arithmetic on literals evaluates to its value, whatever the cells. */
  lemma ArithmeticFormula(e: Ast, cells: Grid, current: string, depth: nat)
    ensures Evaluate("=" + Source(e), cells, current, depth) == Outcome(Some(Value(e)))
  {
    var src := Source(e);
    SourceExpression(e);
    assert Evaluate("=" + src, cells, current, depth) == ExpressionValue(src, cells, current, depth);
    assert Substitute(src, [], cells, current, depth) == Some(src);
    CalcSource(e);
  }

  /** A reference id is its own expression. */
  lemma ReferenceExpression(row: nat, col: nat)
    ensures Expression("=" + GetCellId(row, col)) == GetCellId(row, col)
  {
    var id := GetCellId(row, col);
    CellIdPlain(row, col);
    assert ("=" + id)[1..] == id;
    TrimOfTrimmed(id);
  }

  /** A reference id is not a call. */
  lemma ReferenceNotCall(row: nat, col: nat)
    ensures CallOf(GetCellId(row, col)) == None
  {
    var id := GetCellId(row, col);
    CellIdPlain(row, col);
    ContainsIff(id, "(");
    forall i: nat ensures !OccursAt(id, "(", i) {
      OccursAtChar(id, '(', i);
    }
  }

  /** A reference id matches as one reference. */
  lemma ReferenceRefs(row: nat, col: nat)
    ensures AllRefs(GetCellId(row, col)) == [GetCellId(row, col)]
  {
    var id := GetCellId(row, col);
    CellIdMatch(row, col);
    assert id[0..|id|] == id;
    assert RefsFrom(id, |id|) == [];
  }

  lemma ReferenceShape(row: nat, col: nat)
    ensures var id := GetCellId(row, col);
      && Expression("=" + id) == id && CallOf(id) == None && AllRefs(id) == [id]
  {
    ReferenceExpression(row, col);
    ReferenceNotCall(row, col);
    ReferenceRefs(row, col);
  }

  lemma ReplaceWhole(s: string, x: string)
    ensures ReplaceFirst(s, s, x) == x
  {
    assert s[0..|s|] == s;
    assert OccursAt(s, s, 0);
    assert s[..0] + x + s[|s|..] == x;
  }

  /** An expression that is one reference to another cell takes the value its replacement
      text evaluates to. */
  lemma LoneReference(id: string, cells: Grid, current: string, depth: nat)
    requires AllRefs(id) == [id] && id != current
    ensures ExpressionValue(id, cells, current, depth) ==
      match Replacement(id, cells, current, depth)
      case None => Text(StackText)
      case Some(x) => Outcome(Calc(x))
  {
    assert [id][0] == id && [id][1..] == [];
    match Replacement(id, cells, current, depth)
    case None =>
    case Some(x) =>
      ReplaceWhole(id, x);
      assert Substitute(id, [id], cells, current, depth) == Some(x);
  }

  /** A formula that is a single reference to another cell takes the value its replacement
      text evaluates to. */
  lemma SingleReference(row: nat, col: nat, cells: Grid, current: string, depth: nat)
    requires GetCellId(row, col) != current
    ensures var id := GetCellId(row, col);
      Evaluate("=" + id, cells, current, depth) ==
        match Replacement(id, cells, current, depth)
        case None => Text(StackText)
        case Some(x) => Outcome(Calc(x))
  {
    var id := GetCellId(row, col);
    ReferenceShape(row, col);
    assert Evaluate("=" + id, cells, current, depth) == ExpressionValue(id, cells, current, depth);
    LoneReference(id, cells, current, depth);
  }

  /** A cell that refers to itself is a circular reference. */
  lemma SelfReference(row: nat, col: nat, cells: Grid, depth: nat)
    ensures var id := GetCellId(row, col);
      Evaluate("=" + id, cells, id, depth) == Text(CircularText)
  {
    ReferenceShape(row, col);
  }

  lemma CalcNatural(k: nat)
    ensures Calc(NatToString(k)) == Some(Real(k as real))
  {
    NumberTextOfInt(k);
    assert Source(Lit(k)) == NatToString(k);
    CalcSource(Lit(k));
  }

  /** A missing cell counts as 0. */
  lemma MissingReference(row: nat, col: nat, cells: Grid, current: string, depth: nat)
    requires GetCellId(row, col) != current && GetCellId(row, col) !in cells
    ensures Evaluate("=" + GetCellId(row, col), cells, current, depth) == Number(0.0)
  {
    SingleReference(row, col, cells, current, depth);
    CalcNatural(0);
  }

  /** A plain cell holding a natural number is read as that number. */
  lemma NumberReference(row: nat, col: nat, cells: Grid, current: string, depth: nat, k: nat)
    requires GetCellId(row, col) != current && GetCellId(row, col) in cells
    requires cells[GetCellId(row, col)].kind != FormulaCell
    requires cells[GetCellId(row, col)].value == Number(k as real)
    ensures Evaluate("=" + GetCellId(row, col), cells, current, depth) == Number(k as real)
  {
    SingleReference(row, col, cells, current, depth);
    NumberTextOfInt(k);
    CalcNatural(k);
  }

  /** A plain cell whose value is not numeric counts as 0. */
  lemma TextReference(row: nat, col: nat, cells: Grid, current: string, depth: nat)
    requires GetCellId(row, col) != current && GetCellId(row, col) in cells
    requires cells[GetCellId(row, col)].kind != FormulaCell
    requires !IsNumeric(cells[GetCellId(row, col)].value)
    ensures Evaluate("=" + GetCellId(row, col), cells, current, depth) == Number(0.0)
  {
    SingleReference(row, col, cells, current, depth);
    CalcNatural(0);
  }

  /** With no stack left, a reference to a formula cell overflows. */
  lemma DepthExhausted(row: nat, col: nat, cells: Grid, current: string)
    requires GetCellId(row, col) != current && GetCellId(row, col) in cells
    requires cells[GetCellId(row, col)].kind == FormulaCell
    ensures Evaluate("=" + GetCellId(row, col), cells, current, 0) == Text(StackText)
  {
    SingleReference(row, col, cells, current, 0);
  }

  /** The falsy-or-text of a natural number is its decimal text. */
  lemma ValueOrZeroNatural(k: nat)
    ensures ValueOrZero(Number(k as real)) == NatToString(k)
  {
    NumberTextOfInt(k);
  }

  /** A formula cell whose formula gives a natural number is replaced by its digits. */
  lemma FormulaReplacement(id: string, f: string, cells: Grid, current: string, d: nat, k: nat)
    requires id in cells && cells[id].kind == FormulaCell && cells[id].formula == Some(f)
    requires Evaluate(f, cells, current, d) == Number(k as real)
    ensures Replacement(id, cells, current, d + 1) == Some(NatToString(k))
  {
    ValueOrZeroNatural(k);
  }

  /** A reference to a formula cell whose arithmetic gives a natural number reads that number. */
  lemma FormulaReference(row: nat, col: nat, cells: Grid, current: string, depth: nat, e: Ast, k: nat)
    requires GetCellId(row, col) != current && GetCellId(row, col) in cells
    requires cells[GetCellId(row, col)].kind == FormulaCell
    requires cells[GetCellId(row, col)].formula == Some("=" + Source(e))
    requires Value(e) == Real(k as real) && depth > 0
    ensures Evaluate("=" + GetCellId(row, col), cells, current, depth) == Number(k as real)
  {
    var f := "=" + Source(e);
    var d: nat := depth - 1;
    SingleReference(row, col, cells, current, depth);
    assert Outcome(Some(Value(e))) == Number(k as real);
    ArithmeticFormula(e, cells, current, d);
    FormulaReplacement(GetCellId(row, col), f, cells, current, d, k);
    CalcNatural(k);
  }

  /** An error text is not arithmetic. */
  lemma CalcOfCircular()
    ensures Calc(CircularText) == None
  {
    assert CircularText[0] == '#' && Symbol('#') == None;
    LexStray(CircularText);
  }

  /** A formula cell that refers back to the current cell is replaced by the circular error. */
  lemma CycleReplacement(id: string, cells: Grid, row: nat, d: nat)
    requires id in cells && cells[id].kind == FormulaCell
    requires cells[id].formula == Some("=" + GetCellId(row, 0))
    ensures Replacement(id, cells, GetCellId(row, 0), d + 1) == Some(CircularText)
  {
    SelfReference(row, 0, cells, d);
  }

  /** A cycle through the current cell is caught by the cell that closes it; the cell that
      refers to that one then evaluates the error text as arithmetic, which is a syntax error. */
  lemma IndirectCycle(row: nat, col: nat, cells: Grid, current: nat, depth: nat)
    requires var id := GetCellId(row, col);
      && id != GetCellId(current, 0) && id in cells && cells[id].kind == FormulaCell
      && cells[id].formula == Some("=" + GetCellId(current, 0))
      && depth > 0
    ensures Evaluate("=" + GetCellId(row, col), cells, GetCellId(current, 0), depth) == Text(SyntaxText)
  {
    SingleReference(row, col, cells, GetCellId(current, 0), depth);
    var d: nat := depth - 1;
    CycleReplacement(GetCellId(row, col), cells, current, d);
    CalcOfCircular();
  }

  // ---------------------------------------------------------------- what evaluation reads

  /** Two grids that differ at most in display values. */
  predicate SameContent(a: Grid, b: Grid) {
    && SameValues(a, b)
    && forall k :: k in a ==> a[k].kind == b[k].kind && a[k].formula == b[k].formula
  }

  lemma ApplyBuiltinSame(f: Builtin, args: seq<string>, a: Grid, b: Grid)
    requires SameValues(a, b)
    ensures ApplyBuiltin(f, args, a) == ApplyBuiltin(f, args, b)
  {
    ArgValuesSame(args, a, b);
    TextSame(args, a, b);
  }

  lemma CallFunctionSame(name: string, argsText: string, a: Grid, b: Grid)
    requires SameValues(a, b)
    ensures CallFunction(name, argsText, a) == CallFunction(name, argsText, b)
  {
    var key := BuiltinOf(ToUpper(name));
    if key.Some? {
      ApplyBuiltinSame(key.value, SplitArguments(argsText), a, b);
    }
  }

  /** Evaluation never reads a display value: grids that agree on values, types and formulas
      give every formula the same value. */
  lemma EvaluateSame(formula: string, a: Grid, b: Grid, current: string, depth: nat)
    requires SameContent(a, b)
    ensures Evaluate(formula, a, current, depth) == Evaluate(formula, b, current, depth)
    decreases depth, 3, 0
  {
    var expr := Expression(formula);
    match CallOf(expr)
    case Some((name, argsText)) => CallFunctionSame(name, argsText, a, b);
    case None => ExpressionSame(expr, a, b, current, depth);
  }

  lemma ExpressionSame(expr: string, a: Grid, b: Grid, current: string, depth: nat)
    requires SameContent(a, b)
    ensures ExpressionValue(expr, a, current, depth) == ExpressionValue(expr, b, current, depth)
    decreases depth, 2, 0
  {
    SubstituteSame(expr, AllRefs(expr), a, b, current, depth);
  }

  lemma SubstituteSame(expr: string, refs: seq<string>, a: Grid, b: Grid, current: string, depth: nat)
    requires SameContent(a, b)
    ensures Substitute(expr, refs, a, current, depth) == Substitute(expr, refs, b, current, depth)
    decreases depth, 1, |refs|
  {
    if refs != [] {
      ReplacementSame(refs[0], a, b, current, depth);
      var x := Replacement(refs[0], a, current, depth);
      if x.Some? {
        SubstituteSame(ReplaceFirst(expr, refs[0], x.value), refs[1..], a, b, current, depth);
      }
    }
  }

  lemma ReplacementSame(ref: string, a: Grid, b: Grid, current: string, depth: nat)
    requires SameContent(a, b)
    ensures Replacement(ref, a, current, depth) == Replacement(ref, b, current, depth)
    decreases depth, 0, 0
  {
    if ref in a && a[ref].kind == FormulaCell && depth > 0 {
      var d: nat := depth - 1;
      EvaluateSame(FormulaOrEmpty(a[ref].formula), a, b, current, d);
    }
  }
}

