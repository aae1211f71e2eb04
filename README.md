# A verified model of a browser spreadsheet engine

This project models the engine of a small Google-Sheets-like web spreadsheet written in
TypeScript. It does not model the React interface. The engine has three layers, and the Dafny
modules follow them:

- **The address codec** (`src/utils/cellUtils.ts`) lives in module `CellUtils`.
  - Column letters are bijective base 26: 0 is "A", 25 is "Z", 26 is "AA".
  - A cell id is the column letters followed by the one-based row number, such as "B3".
  - A selection between two ids expands to a row-major list of ids.
  - The module also holds the `isNumeric` test and `createEmptyCell`.
- **The formula engine** (`src/utils/formulaUtils.ts`) is split over several modules:
  - `FormulaArgs` splits arguments and expands `A1:B2` ranges.
  - `FormulaFunctions` holds SUM, AVERAGE, MAX, MIN, COUNT, TRIM, UPPER and LOWER.
  - `Arith` is the arithmetic evaluator that stands in for JavaScript's `eval`.
  - `FormulaEval` holds `evaluateFormula`.
  - `RangeOps` holds find-and-replace and remove-duplicates.
- **The store** (`src/store/spreadsheetStore.ts`) is split over four modules:
  - `Sheet` holds the initial sheet, cell writes and the re-keying of cells when rows and columns are inserted or deleted.
  - `Metadata` shifts the row-height and column-width maps.
  - `Cascade` holds `updateDependentCells`.
  - `Store` holds the class `Spreadsheet`. Its fields are the store's state and its methods are the store's actions.
- `Types` transcribes the records of `src/types/index.ts`. `Text` models the JavaScript
  string built-ins that the engine relies on: `trim`, `toUpperCase`, `includes`, `replace`,
  `String(n)` and `parseInt`.

Loops in the source are Dafny methods with loop invariants. Each method is proved equal to a
specification function, and the lemmas state what the source promises about that function.
`formulaUtils.ts` holds its own copy of `columnToIndex`/`indexToColumn` (lines 156-175). It is
identical to the copy in `cellUtils.ts`, so `CellUtils.ColumnToIndex` and
`CellUtils.IndexToColumn` model both copies.

Cell coordinates are not bounded. Numbers are `real`, so there is no floating point. The
formula evaluator depends on the stack depth, which the model passes in as a parameter. The
store evaluates with depth 1000 (`Sheet.EvalDepth`). The cascade is bounded the same way
(`Cascade.CascadeDepth`). When the stack runs out, the script would throw. The model then
reports failure and leaves the state unchanged. The one exception is an evaluation nested in a
formula: there the overflow is caught by the calling `evaluateFormula`, which reports
"#ERROR: Maximum call stack size exceeded".

## Model

| member | source | states |
|---|---|---|
| Text.Trim | src/utils/formulaUtils.ts:320 | the result has no leading or trailing blank, and it is the input with a blank prefix and a blank suffix removed |
| Text.TrimIdempotent | src/utils/formulaUtils.ts:101 | trimming twice is trimming once |
| Text.TrimEmptyIffSpace | src/utils/formulaUtils.ts:108 | a piece trims to "" exactly when it is all blanks |
| Text.ToUpper | src/utils/formulaUtils.ts:331 | same length, no lower-case letter left, each character equal to the input's up to case |
| Text.ToLower | src/utils/formulaUtils.ts:342 | same length, no upper-case letter left, each character equal to the input's up to case |
| Text.LowerOfUpper | src/utils/formulaUtils.ts:331 | lower-casing after upper-casing is lower-casing |
| Text.UpperOfLower | src/utils/formulaUtils.ts:342 | upper-casing after lower-casing is upper-casing |
| Text.IndexOf | src/utils/formulaUtils.ts:14 | the first occurrence at or after `from`, and None exactly when there is none |
| Text.ContainsIff | src/utils/formulaUtils.ts:14 | `includes` holds exactly when the pattern occurs somewhere |
| Text.IndexOfChar | src/utils/formulaUtils.ts:14 | a one-character search finds exactly the first position holding that character |
| Text.ReplaceAllAbsent | src/utils/formulaUtils.ts:357 | a global replace of a pattern that does not occur changes nothing |
| Text.ReplaceAllBySelf | src/utils/formulaUtils.ts:357 | replacing a non-empty pattern by itself changes nothing |
| Text.SplitAtOccurrence | src/utils/formulaUtils.ts:60 | an occurrence splits the text into prefix, pattern and suffix |
| Text.NatToString | src/utils/cellUtils.ts:29 | the decimal text of n is non-empty digits without a leading zero |
| Text.DigitsRoundTrip | src/utils/cellUtils.ts:40 | `parseInt` of the decimal text of n is n |
| Text.NatToStringInjective | src/utils/cellUtils.ts:29 | different numbers print differently |
| Text.IntToStringInjective | src/store/spreadsheetStore.ts:198 | different integers, negative ones included, print differently |
| Text.BlankIsNotNumeric | src/utils/cellUtils.ts:52 | a blank string is not a numeric text |
| Text.NumberLiteralAlphabet | src/utils/cellUtils.ts:52 | a literal `Number` reads holds a digit and nothing but digits, the point and a sign |
| Text.DecimalTextValue | src/utils/cellUtils.ts:52 | `a.b` with digit runs not both empty is numeric and `Number` reads it as a + b / 10^\|b\| |
| Text.IntTextIsNumeric | src/utils/cellUtils.ts:52 | the decimal text of an integer is numeric and `Number` reads it back as that integer |
| Text.NumberTextOfInt | src/utils/formulaUtils.ts:64 | the model's `String(n)` of an integer is its decimal text, which is JavaScript's for integers below 1e21 in size (exponent form beyond is left out) |
| CellUtils.ColumnName | src/utils/cellUtils.ts:4-14 | the label of a column index is non-empty and all upper-case letters |
| CellUtils.IndexToColumn | src/utils/cellUtils.ts:4-14 | the `while` loop computes the bijective base-26 label of the index; a negative index gives "" |
| CellUtils.ColumnToIndex | src/utils/cellUtils.ts:17-25 | the `for` loop computes the base-26 value of the letters minus one |
| CellUtils.ColumnRoundTrip | src/utils/cellUtils.ts:4-25 | `columnToIndex(indexToColumn(i)) == i` for every i >= 0 |
| CellUtils.ColumnNameRoundTrip | src/utils/cellUtils.ts:4-25 | `indexToColumn(columnToIndex(s)) == s` for every non-empty A-Z string |
| CellUtils.ColumnValuePositive | src/utils/cellUtils.ts:17-25 | a non-empty A-Z string has base-26 value at least 1, so its index is not negative |
| CellUtils.ColumnNameExamples | src/utils/cellUtils.ts:4-14 | 0, 25, 26, 701 and 702 give "A", "Z", "AA", "ZZ" and "AAA" |
| CellUtils.FindRef | src/utils/cellUtils.ts:34 | the first `[A-Z]+\d+` match from a position: greedy letters, then greedy digits, and no earlier match; None when there is none |
| CellUtils.StartsRefIff | src/utils/cellUtils.ts:34 | a match starts at i exactly when some letters-then-digits run starts there |
| CellUtils.ParseCellId | src/utils/cellUtils.ts:33-46 | a parsed id has column >= 0 and row >= -1; row -1 comes from row number 0 |
| CellUtils.CellIdMatch | src/utils/cellUtils.ts:28-40 | in `getCellId(r, c)` the match covers the whole id: the column label, then the row number |
| CellUtils.CellIdRoundTrip | src/utils/cellUtils.ts:28-46 | `parseCellId(getCellId(r, c)) == (r, c)` for all r, c >= 0 |
| CellUtils.CellIdPlain | src/utils/cellUtils.ts:28-30 | a generated id is non-empty letters and digits |
| CellUtils.ParseCellIdFails | src/utils/cellUtils.ts:33-37 | parsing fails exactly when the id has no letters-then-digits run, with message "Invalid cell ID: " + id |
| CellUtils.IsNumericCases | src/utils/cellUtils.ts:49-53 | null is not numeric and every number is; a numeric string trims to text holding a digit and only digits, a point and signs; every `a.b` of digit runs not both empty (".5", "5.", "1.25") is numeric with value a + b / 10^\|b\|; blank text and "." are not numeric |
| CellUtils.IntTextValue | src/utils/cellUtils.ts:49-53 | the text of an integer is numeric, with that integer as its value |
| CellUtils.CreateEmptyCell | src/utils/cellUtils.ts:56-63 | the cell has the given id, a null value, type text, the empty format, and no formula or display value |
| CellUtils.ListBlock | src/utils/cellUtils.ts:77-81 | the nested loops push exactly the row-major block of ids between the two corners |
| CellUtils.RowIdAt | src/utils/cellUtils.ts:78-80 | a row of the block has one id per column, and the id of column c sits at offset c - c0 |
| CellUtils.BlockLength | src/utils/cellUtils.ts:77-81 | the block has (rows) * (columns) ids |
| CellUtils.RowMajorFormula | src/utils/cellUtils.ts:77-81 | the position of (r, c) in the block is (r - r0) * width + (c - c0) |
| CellUtils.BlockAt | src/utils/cellUtils.ts:77-81 | the id of (r, c) is at its row-major position in the block |
| CellUtils.BlockShape | src/utils/cellUtils.ts:77-81 | the block's length, and the id of every cell of the rectangle at its row-major position |
| CellUtils.BlockCovers | src/utils/cellUtils.ts:77-81 | every cell of the rectangle is in the block |
| CellUtils.BlockInBox | src/utils/cellUtils.ts:77-81 | every id of the block is the id of a cell of the rectangle |
| CellUtils.BlockEmpty | src/utils/cellUtils.ts:77-81 | the block is empty when the first corner lies below or right of the second |
| CellUtils.GetCellRange | src/utils/cellUtils.ts:66-84 | fails when either corner does not parse; otherwise gives the block between the normalised corners |
| CellUtils.CellRangeSymmetric | src/utils/cellUtils.ts:66-84 | `getCellRange(a, b) == getCellRange(b, a)`, including whether it fails |
| CellUtils.CellRangeLength | src/utils/cellUtils.ts:66-84 | its length is (abs(row difference) + 1) * (abs(column difference) + 1) |
| CellUtils.CellRangeCovers | src/utils/cellUtils.ts:66-84 | every cell of the bounding box is listed |
| CellUtils.CellRangeWithin | src/utils/cellUtils.ts:66-84 | every listed id is a cell of the bounding box |
| CellUtils.CellRangeSingle | src/utils/cellUtils.ts:66-84 | `getCellRange(a, a) == [a]` for a generated id |
| CellUtils.CellRangeExample | src/utils/cellUtils.ts:66-84 | "A1".."B2" and "B2".."A1" both give A1, B1, A2, B2 |
| Arith.Literal | src/utils/formulaUtils.ts:74 | a number literal takes a non-empty prefix of the text |
| Arith.ParseExpr | src/utils/formulaUtils.ts:74 | a parsed expression consumes at least one token and stays within the tokens |
| Arith.RemSign | src/utils/formulaUtils.ts:74 | `%` truncates: the remainder takes the sign of the dividend and is smaller than the divisor in size |
| Arith.LexRender | src/utils/formulaUtils.ts:74 | printing tokens with natural-number literals and lexing the text gives the tokens back |
| Arith.AstLiteralsNatural | src/utils/formulaUtils.ts:74 | a printed syntax tree has only natural-number literals |
| Arith.ParseAstTokens | src/utils/formulaUtils.ts:74 | parsing the fully parenthesised tokens of a syntax tree gives the tree's value |
| Arith.CalcSource | src/utils/formulaUtils.ts:74 | evaluating the printed text of a syntax tree gives the tree's value |
| Arith.SourceShape | src/utils/formulaUtils.ts:74 | the printed text is non-empty arithmetic characters and starts and ends with a digit or parenthesis |
| Arith.CalcPrecedence | src/utils/formulaUtils.ts:74 | "2+3*4" is 14: `*` binds tighter than `+` |
| Arith.CalcDoubleMinus | src/utils/formulaUtils.ts:74 | "2--3" is a syntax error, since `--` is a decrement token, while "2- -3" is 5 |
| Arith.RemainderExamples | src/utils/formulaUtils.ts:74 | 7 % -3 is 1 and -7 % 3 is -1; unary minus binds tighter than `%` |
| Arith.CalcNaN | src/utils/formulaUtils.ts:74-75 | 1/0 gives NaN, and so does an empty or blank expression |
| Arith.CalcLiterals | src/utils/formulaUtils.ts:74 | a literal with a leading zero such as "01" is rejected, and "1.50" reads as 1.5 |
| Arith.LexStray | src/utils/formulaUtils.ts:74 | text starting with a character that is no token, such as '#', is a syntax error |
| FormulaArgs.ParseArguments | src/utils/formulaUtils.ts:82-113 | the character loop computes the left fold of the scanner step, then the final push |
| FormulaArgs.RunAppend | src/utils/formulaUtils.ts:88-106 | scanning a + b is scanning b from the state after a |
| FormulaArgs.RunNoComma | src/utils/formulaUtils.ts:88-106 | text without a comma only extends the current piece |
| FormulaArgs.RunInQuotes | src/utils/formulaUtils.ts:91-93 | inside quotes, text without a quote only extends the current piece |
| FormulaArgs.RunNested | src/utils/formulaUtils.ts:94-100 | inside parentheses, text without quotes or parentheses only extends the current piece, even across commas |
| FormulaArgs.ArgumentsTrimmed | src/utils/formulaUtils.ts:101-110 | every piece is trimmed |
| FormulaArgs.NoCommaOneArgument | src/utils/formulaUtils.ts:108-110 | input without a comma gives [] when blank and [trim(s)] otherwise |
| FormulaArgs.QuotedArgument | src/utils/formulaUtils.ts:91-93 | a quoted string is one argument, whatever commas it holds |
| FormulaArgs.NestedArgument | src/utils/formulaUtils.ts:94-100 | a parenthesised group is one argument, whatever commas it holds |
| FormulaArgs.SplitJoin | src/utils/formulaUtils.ts:82-113 | splitting plain trimmed pieces joined by commas gives the pieces back, when the last one is not empty |
| FormulaArgs.SplitColon | src/utils/formulaUtils.ts:117-120 | `split(':')` has two parts exactly when there is one colon, and then the parts rebuild the range |
| FormulaArgs.ListBetween | src/utils/formulaUtils.ts:122-152 | the corners are matched and the loops push the block from start to end |
| FormulaArgs.ParseRange | src/utils/formulaUtils.ts:116-153 | the method gives [range] when there is not exactly one colon or a corner has no match, and otherwise the block |
| FormulaArgs.NoColonNoRange | src/utils/formulaUtils.ts:118-119 | a range without a colon gives [range] |
| FormulaArgs.TwoColonsNoRange | src/utils/formulaUtils.ts:118-119 | a range with two colons gives [range] |
| FormulaArgs.SplitAtColon | src/utils/formulaUtils.ts:117 | a text with one colon splits into the text before and after it |
| FormulaArgs.CornerOf | src/utils/formulaUtils.ts:126-141 | the corner's matched letters and digits are what `parseCellId` reads |
| FormulaArgs.RangeOfParsedCorners | src/utils/formulaUtils.ts:116-153 | for parseable corners the result is the block from start to end, not normalised |
| FormulaArgs.RangeOfCorners | src/utils/formulaUtils.ts:144-152 | "id1:id2" of two generated ids gives the row-major block between them |
| FormulaArgs.RangeAgreesWithCellRange | src/utils/formulaUtils.ts:144-152 | for ordered corners `parseRange` and `getCellRange` agree |
| FormulaArgs.InvertedRangeIsEmpty | src/utils/formulaUtils.ts:146-151 | a start below or right of the end gives [] |
| FormulaFunctions.MaxOf | src/utils/formulaUtils.ts:242 | the maximum is one of the values and at least each of them |
| FormulaFunctions.MinOf | src/utils/formulaUtils.ts:270 | the minimum is one of the values and at most each of them |
| FormulaFunctions.SumCell | src/utils/formulaUtils.ts:186-189 | a cell adds its number to the sum and one to the count exactly when it exists and is numeric |
| FormulaFunctions.SumCells | src/utils/formulaUtils.ts:185-190 | the inner loop adds the numeric values of the listed cells |
| FormulaFunctions.SumArgument | src/utils/formulaUtils.ts:182-197 | one argument, a range or a single id, adds the numeric values of its cells |
| FormulaFunctions.CalculateSum | src/utils/formulaUtils.ts:178-201 | the sum of the numeric values of all argument cells |
| FormulaFunctions.SumCountCells | src/utils/formulaUtils.ts:211-217 | the inner loop adds the values and counts them |
| FormulaFunctions.SumCountArgument | src/utils/formulaUtils.ts:208-225 | one argument adds its values to the sum and their number to the count |
| FormulaFunctions.CalculateAverage | src/utils/formulaUtils.ts:203-229 | sum / count of the numeric values, or 0 when there are none |
| FormulaFunctions.MaxCells | src/utils/formulaUtils.ts:239-245 | the loop keeps `max` at the maximum of the values seen and `hasValue` true once one is seen |
| FormulaFunctions.CalculateMax | src/utils/formulaUtils.ts:231-257 | 0 when there is no numeric value, and otherwise their maximum |
| FormulaFunctions.MinCells | src/utils/formulaUtils.ts:267-273 | the loop keeps `min` at the minimum of the values seen |
| FormulaFunctions.CalculateMin | src/utils/formulaUtils.ts:259-285 | 0 when there is no numeric value, and otherwise their minimum |
| FormulaFunctions.CountCells | src/utils/formulaUtils.ts:294-299 | the inner loop counts the numeric cells |
| FormulaFunctions.CalculateCount | src/utils/formulaUtils.ts:287-310 | the number of numeric values among the argument cells |
| FormulaFunctions.SumAppend | src/utils/formulaUtils.ts:178-201 | the sum of a concatenation is the sum of the sums |
| FormulaFunctions.ArgValuesAppend | src/utils/formulaUtils.ts:181-198 | the values of a + b are the values of a followed by those of b |
| FormulaFunctions.SumSplits | src/utils/formulaUtils.ts:178-229 | SUM and COUNT over a + b are the SUM and COUNT over a and b added |
| FormulaFunctions.ValuesCount | src/utils/formulaUtils.ts:186-189 | at most one value per id; exactly the ids' numbers when all are numeric cells; none when none is |
| FormulaFunctions.SumAtMost | src/utils/formulaUtils.ts:178-201 | a sum of values at most m is at most count * m |
| FormulaFunctions.SumAtLeast | src/utils/formulaUtils.ts:178-201 | a sum of values at least m is at least count * m |
| FormulaFunctions.AverageAtMost | src/utils/formulaUtils.ts:228 | the average is at most the maximum |
| FormulaFunctions.AverageAtLeast | src/utils/formulaUtils.ts:228 | the average is at least the minimum |
| FormulaFunctions.AverageBetween | src/utils/formulaUtils.ts:203-285 | for some numeric value, MIN <= AVERAGE <= MAX |
| FormulaFunctions.NoNumbers | src/utils/formulaUtils.ts:200-228 | with no numeric value SUM and AVERAGE are 0 |
| FormulaFunctions.ApplyTrim | src/utils/formulaUtils.ts:312-321 | the result is trimmed, and it is "" with no argument, a missing cell or a null value |
| FormulaFunctions.ApplyUpper | src/utils/formulaUtils.ts:323-332 | the result has no lower-case letter, and it is "" with no argument, a missing cell or a null value |
| FormulaFunctions.ApplyLower | src/utils/formulaUtils.ts:334-343 | the result has no upper-case letter, and it is "" with no argument, a missing cell or a null value |
| FormulaFunctions.TextFunctionsUseFirst | src/utils/formulaUtils.ts:315 | TRIM, UPPER and LOWER read only the first argument |
| FormulaFunctions.TrimOfCell | src/utils/formulaUtils.ts:320 | TRIM of a cell is its text with a blank prefix and suffix removed |
| FormulaFunctions.CaseOfCell | src/utils/formulaUtils.ts:331-342 | UPPER and LOWER of a cell keep its text's length and characters up to case |
| FormulaFunctions.TrimTwice | src/utils/formulaUtils.ts:312-321 | TRIM of a cell holding a TRIM result gives that result again |
| FormulaFunctions.CaseRoundTrip | src/utils/formulaUtils.ts:323-343 | LOWER of an UPPER result is LOWER of the source, and the reverse |
| FormulaFunctions.ArgValuesSame | src/utils/formulaUtils.ts:186-196 | the aggregates read only cell values: grids with the same values give the same values |
| FormulaFunctions.TextSame | src/utils/formulaUtils.ts:312-343 | TRIM, UPPER and LOWER read only cell values |
| FormulaEval.FunctionCall | src/utils/formulaUtils.ts:15 | a match of `^([A-Z_]+)\((.*)\)$` rebuilds the expression as name "(" arguments ")" with a non-empty `[A-Z_]` name and arguments free of line terminators |
| FormulaEval.CallMethod | src/utils/formulaUtils.ts:18-40 | the `switch` computes the function of the name's upper case, or the unknown-function error |
| FormulaEval.SubstituteRefs | src/utils/formulaUtils.ts:55-71 | the loop replaces the first occurrence of each reference in turn, and fails when a nested evaluation overflows |
| FormulaEval.EvaluateFormula | src/utils/formulaUtils.ts:5-79 | the method computes the call path or the substituted-arithmetic path of the formula |
| FormulaEval.CallGateRedundant | src/utils/formulaUtils.ts:14-15 | the `includes('(') && includes(')')` guard adds nothing to the pattern |
| FormulaEval.CallMatch | src/utils/formulaUtils.ts:15 | name "(" arguments ")" with an `[A-Z_]` name and single-line arguments matches with that name and those arguments |
| FormulaEval.CallFormula | src/utils/formulaUtils.ts:14-41 | "=NAME(args)" evaluates to the function call whatever the cells and depth |
| FormulaEval.UnknownFunction | src/utils/formulaUtils.ts:38-39 | a name outside the eight gives "#ERROR: Unknown function NAME" |
| FormulaEval.BuiltinNames | src/utils/formulaUtils.ts:22-37 | the eight case labels select the eight functions |
| FormulaEval.BuiltinFormula | src/utils/formulaUtils.ts:19-37 | a supported name applies its function to the split arguments |
| FormulaEval.LowerCaseNotCall | src/utils/formulaUtils.ts:15 | a lower-case name never takes the call path |
| FormulaEval.ArithmeticFormula | src/utils/formulaUtils.ts:45-75 | a formula with no reference evaluates its arithmetic: its value, NaN as "#ERROR: Invalid calculation" |
| FormulaEval.ReferenceShape | src/utils/formulaUtils.ts:47-48 | "=id" is the expression id, takes the expression path, and has id as its one reference |
| FormulaEval.SingleReference | src/utils/formulaUtils.ts:55-75 | "=id" evaluates the text that replaces id, or reports the overflow |
| FormulaEval.SelfReference | src/utils/formulaUtils.ts:51-53 | a formula referring to its own cell gives "#ERROR: Circular reference" before any cell is read |
| FormulaEval.MissingReference | src/utils/formulaUtils.ts:59-60 | a reference to a missing cell counts as 0 |
| FormulaEval.NumberReference | src/utils/formulaUtils.ts:65-69 | a reference to a non-formula numeric cell evaluates to its number |
| FormulaEval.TextReference | src/utils/formulaUtils.ts:65-69 | a reference to a non-formula non-numeric cell counts as 0 |
| FormulaEval.DepthExhausted | src/utils/formulaUtils.ts:61-64 | a reference to a formula cell with no stack left reports the overflow |
| FormulaEval.FormulaReplacement | src/utils/formulaUtils.ts:61-64 | a formula cell is replaced by the text of its own evaluation |
| FormulaEval.FormulaReference | src/utils/formulaUtils.ts:61-64 | a reference to a formula cell holding arithmetic with a natural value evaluates to that value |
| FormulaEval.IndirectCycle | src/utils/formulaUtils.ts:63 | A1 -> X -> A1: the nested call keeps the original current id, so X's evaluation yields the circular text, and substituting it is a syntax error |
| FormulaEval.CalcOfCircular | src/utils/formulaUtils.ts:52-74 | the circular-reference text is not arithmetic |
| FormulaEval.EvaluateSame | src/utils/formulaUtils.ts:58-69 | evaluation never reads display values: grids that differ only there evaluate alike |
| FormulaEval.CallFunctionSame | src/utils/formulaUtils.ts:18-40 | a call reads only cell values |
| RangeOps.FindAndReplaceCells | src/utils/formulaUtils.ts:346-366 | the loop over the range computes the find-and-replace of the grid |
| RangeOps.FindAndReplaceFrame | src/utils/formulaUtils.ts:346-366 | same keys; only `value` changes; only in-range text cells change, to a global replace of their text |
| RangeOps.FindAbsent | src/utils/formulaUtils.ts:357 | when no in-range text holds the pattern nothing changes |
| RangeOps.ReplaceBySelf | src/utils/formulaUtils.ts:357 | replacing a pattern by itself changes nothing |
| RangeOps.EmptyPattern | src/utils/formulaUtils.ts:357 | an empty pattern inserts the replacement between all characters, as the global regular expression does |
| RangeOps.Texts | src/utils/formulaUtils.ts:392-395 | one text per id: the value's `String`, "null" for null, "" for a missing cell |
| RangeOps.Keys | src/utils/formulaUtils.ts:391-397 | one key per row in first-appearance order |
| RangeOps.GroupRows | src/utils/formulaUtils.ts:374-385 | the loop yields the rows in first-appearance order and maps each to its ids in range order |
| RangeOps.FindDuplicates | src/utils/formulaUtils.ts:388-404 | the loop marks exactly the rows whose key an earlier row has |
| RangeOps.BlankCells | src/utils/formulaUtils.ts:411-416 | the inner loop blanks the listed cells |
| RangeOps.ClearRow | src/utils/formulaUtils.ts:409-416 | one step of the outer loop blanks one row's cells when it is a duplicate |
| RangeOps.ClearRows | src/utils/formulaUtils.ts:407-419 | the outer loop blanks the cells of every duplicate row |
| RangeOps.ClearedAllRows | src/utils/formulaUtils.ts:407-419 | blanking the duplicate rows one by one blanks exactly the range ids whose row is a duplicate |
| RangeOps.RemoveDuplicateRows | src/utils/formulaUtils.ts:369-420 | the three loops compute remove-duplicates of the grid |
| RangeOps.MembersIff | src/utils/formulaUtils.ts:376-385 | a row's ids are the range ids whose number is that row |
| RangeOps.RowsCover | src/utils/formulaUtils.ts:376-385 | the rows are exactly the row numbers of the range's ids |
| RangeOps.RowsDistinct | src/utils/formulaUtils.ts:380-382 | each row appears once |
| RangeOps.RowOfCellId | src/utils/formulaUtils.ts:377-379 | the row number of `getCellId(r, c)` is r + 1 |
| RangeOps.DuplicatesIff | src/utils/formulaUtils.ts:399-403 | a row is a duplicate exactly when an earlier row has the same key |
| RangeOps.DuplicatesAreRows | src/utils/formulaUtils.ts:399-400 | only rows of the range are marked |
| RangeOps.ExactDuplicates | src/utils/formulaUtils.ts:391-403 | with exact keys a row is a duplicate exactly when an earlier row has the same texts |
| RangeOps.ExactWithinJoined | src/utils/formulaUtils.ts:397 | every row duplicated by content is also duplicated by the "\|"-joined key |
| RangeOps.KeptRepresentative | src/utils/formulaUtils.ts:399-403 | every row's key is carried by a row at or before it that is kept |
| RangeOps.RemoveDuplicatesCells | src/utils/formulaUtils.ts:407-419 | the cells of duplicate rows get a null value with all else kept, and every other cell is unchanged |
| RangeOps.CollidingKeys | src/utils/formulaUtils.ts:397 | rows ("a\|b", "c") and ("a", "b\|c") get the same joined key but differ |
| RangeOps.SeparatorCollision | src/utils/formulaUtils.ts:369-420 | in A1:B2 holding those texts, row 2 is blanked although it differs from row 1 |
| Cascade.UpdateDependentCells | src/store/spreadsheetStore.ts:486-503 | succeeds exactly when no dependency chain outruns the stack, and then recomputes exactly the cells reachable from the changed one |
| Cascade.Visit | src/store/spreadsheetStore.ts:489-500 | one loop step recomputes a dependent cell and cascades from it, and leaves any other cell alone |
| Cascade.Recompute | src/store/spreadsheetStore.ts:495-496 | writing a cell's display value is recomputing that cell |
| Cascade.RefreshKeeps | src/store/spreadsheetStore.ts:486-503 | the cascade keeps the keys, values, formulas and types, writes only display values, and keeps the dependencies |
| Cascade.ReachIff | src/store/spreadsheetStore.ts:491-499 | the cells recomputed are those joined to the changed cell by a chain of formula texts that contain the previous id |
| Cascade.RefreshCompose | src/store/spreadsheetStore.ts:495-496 | recomputing two sets in turn is recomputing their union, so the order does not matter |
| Cascade.CascadeMeaning | src/store/spreadsheetStore.ts:486-503 | the cascade fails exactly when a chain is too long; otherwise each reachable cell's display value is its formula evaluated in the final grid |
| Cascade.CascadeIdempotent | src/store/spreadsheetStore.ts:486-503 | running the cascade again changes nothing |
| Cascade.CycleOverflows | src/store/spreadsheetStore.ts:493-499 | a cell joined to itself by formula texts makes the cascade overflow |
| Cascade.DependentsRecomputed | src/store/spreadsheetStore.ts:493-499 | direct dependents and their dependents are recomputed |
| Sheet.InitializeSpreadsheet | src/store/spreadsheetStore.ts:13-38 | the loops build the initial sheet |
| Sheet.WidthsShape | src/store/spreadsheetStore.ts:19-22 | the width keys are the first n column letters, each width 100, and every key is one letter |
| Sheet.HeightsShape | src/store/spreadsheetStore.ts:25-27 | the height keys are "0".."n-1", each height 25 |
| Sheet.InitialShape | src/store/spreadsheetStore.ts:13-38 | no cells and no selection, widths A..Z = 100, heights "0".."99" = 25, 26 columns and 100 rows |
| Sheet.StoreEvalBlind | src/store/spreadsheetStore.ts:97 | the store's evaluator ignores display values |
| Sheet.ValueWrittenFrame | src/store/spreadsheetStore.ts:81-89 | `setCellValue` creates the cell if missing, keeps its id and format, stores the value, and leaves other cells alone |
| Sheet.ValueWrittenFormula | src/store/spreadsheetStore.ts:92-98 | an '='-string makes a formula cell holding that formula, displaying its evaluation |
| Sheet.ValueWrittenPlain | src/store/spreadsheetStore.ts:99-105 | any other value gives type number when numeric and text otherwise, and displays the value |
| Sheet.FormulaWrittenCell | src/store/spreadsheetStore.ts:139-153 | `setCellFormula` stores the formula in `value` and `formula`, sets type formula, and displays its evaluation with the old value still in place |
| Sheet.ValueAndFormulaWrites | src/store/spreadsheetStore.ts:81-153 | setting an '='-value and setting that formula agree except in the display value, and agree fully when the cell already held that text |
| Sheet.SelfReferenceNeverCommits | src/store/spreadsheetStore.ts:493-499 | a formula value containing its own cell id never commits |
| Sheet.SelfFormulaNeverCommits | src/store/spreadsheetStore.ts:493-499 | nor does such a formula set by `setCellFormula` |
| Sheet.LongerIdNeverCommits | src/store/spreadsheetStore.ts:493 | "=A10" in A1 never commits, since the substring test finds "A1" |
| Sheet.SetValueFresh | src/store/spreadsheetStore.ts:81-110 | after a committed write the new cell displays its evaluation in the final grid, and every dependent displays its own |
| Sheet.MergeLaws | src/store/spreadsheetStore.ts:120-123 | merging formats: {} is neutral, the merge is associative, and merging the same format again changes nothing |
| Sheet.FormatAndTypeWrites | src/store/spreadsheetStore.ts:112-137 | `setCellFormat` and `setCellType` change only that cell's format or type; two format writes merge |
| Sheet.RekeyCells | src/store/spreadsheetStore.ts:186-204 | the loop moves, keeps or drops each cell as its id's match says |
| Sheet.RekeyStep | src/store/spreadsheetStore.ts:189-204 | one loop step keeps the re-keying relation |
| Sheet.RekeyedUnique | src/store/spreadsheetStore.ts:186-204 | when no two cells share a target, the keys are the targets and each holds its cell with the new id |
| Sheet.RekeyedKeepsIds | src/store/spreadsheetStore.ts:197-200 | a re-keyed cell carries its new key as its id |
| Sheet.ShiftCanonical | src/store/spreadsheetStore.ts:186-204 | on generated ids the edits move cells as the coordinate definition says |
| Sheet.RowShiftCanonical | src/store/spreadsheetStore.ts:189-206 | row edits move every generated id by its row number |
| Sheet.ColumnShiftCanonical | src/store/spreadsheetStore.ts:272-291 | column edits move every one-letter id as the coordinates say |
| Sheet.ShiftedInjective | src/store/spreadsheetStore.ts:186-204 | two cells never move onto one coordinate |
| Sheet.CanonicalInjective | src/store/spreadsheetStore.ts:186-204 | on a grid of generated one-letter ids no two cells share a target |
| Sheet.SameTarget | src/store/spreadsheetStore.ts:186-204 | two generated ids with one target are the same id |
| Sheet.CanonicalRekey | src/store/spreadsheetStore.ts:183-357 | on such a grid every cell moves to its shifted id with that id stored, and no cell is lost |
| Sheet.InsertBeforeA | src/store/spreadsheetStore.ts:278-283 | inserting a column before A sends "A1" and "AA1" both to "B1" |
| Sheet.MultiLetterCollision | src/store/spreadsheetStore.ts:278-287 | so one of the two cells is lost |
| Sheet.LastColumnInsert | src/store/spreadsheetStore.ts:282-283 | inserting a column after A moves "Z1" past the letters, to "[1" |
| Metadata.CopyKey | src/store/spreadsheetStore.ts:211 | copying a missing key removes the destination, otherwise copies the value; nothing else changes |
| Metadata.DownToShift | src/store/spreadsheetStore.ts:210-212 | the downward loop gives each slot above the gap the previous slot's old value |
| Metadata.DownToFrame | src/store/spreadsheetStore.ts:210-212 | keys outside the loop's span are unchanged |
| Metadata.UpFromShift | src/store/spreadsheetStore.ts:253-255 | the upward loop gives each slot the next slot's old value |
| Metadata.UpFromFrame | src/store/spreadsheetStore.ts:253-255 | keys outside the loop's span are unchanged |
| Metadata.ShiftDown | src/store/spreadsheetStore.ts:210-212 | the downward copying loop |
| Metadata.ShiftUp | src/store/spreadsheetStore.ts:253-255 | the upward copying loop |
| Metadata.OpenSlot | src/store/spreadsheetStore.ts:210-216 | shift down, then give the new slot the default |
| Metadata.CloseSlot | src/store/spreadsheetStore.ts:253-259 | shift up, then delete the last key |
| Metadata.AddRowHeightsFollowCells | src/store/spreadsheetStore.ts:183-221 | with the corrected heights every row's height goes where its cells go, and the new empty row has height 25 |
| Metadata.DeleteRowHeightsFollowCells | src/store/spreadsheetStore.ts:223-264 | with the corrected heights each remaining row keeps its height where its cells go, and the last key is gone |
| Metadata.AddColumnWidthsFollowCells | src/store/spreadsheetStore.ts:266-309 | with the corrected widths every column's width goes where its cells go, and the new column has width 100 |
| Metadata.DeleteColumnWidthsFollowCells | src/store/spreadsheetStore.ts:311-357 | each remaining column keeps its width where its cells go, and the last letter's key is gone |
| Metadata.AddRowHeightsMisaligned | src/store/spreadsheetStore.ts:210-216 | as written, the cells of row `afterRow` move but their height stays, and their new row gets 25 |
| Metadata.DeleteRowHeightsMisaligned | src/store/spreadsheetStore.ts:253-259 | as written, the deleted row's height stays on the row its successor moves into |
| Metadata.AddColumnLosesLastWidth | src/store/spreadsheetStore.ts:295-299 | as written, the last column's cells move but its width is not copied after them |
| Store.NameOf | src/store/spreadsheetStore.ts:373-435 | each wrapper's function name selects that function |
| Store.ApplyWritten | src/store/spreadsheetStore.ts:373-435 | a wrapper's formula displays the function applied to its argument |
| Store.WriteValue | src/store/spreadsheetStore.ts:84-105 | the in-place field updates of `setCellValue` build the written grid |
| Store.WriteFormula | src/store/spreadsheetStore.ts:142-153 | the in-place field updates of `setCellFormula` build the written grid |
| Store.ValueKeepsIds | src/store/spreadsheetStore.ts:84-89 | a value write keeps every cell's id equal to its key |
| Store.CascadeKeepsIds | src/store/spreadsheetStore.ts:486-503 | so does the cascade |
| Store.RangeOpsKeepIds | src/utils/formulaUtils.ts:346-420 | so do find-and-replace and remove-duplicates |
| Store.Spreadsheet.constructor | src/store/spreadsheetStore.ts:40-78 | the store starts as the initial sheet, keys matching ids |
| Store.Spreadsheet.SetCellValue | src/store/spreadsheetStore.ts:81-110 | commits the written grid after the cascade, or changes nothing when the cascade overflows; keys keep matching ids |
| Store.Spreadsheet.SetCellFormula | src/store/spreadsheetStore.ts:139-158 | likewise for a formula |
| Store.Spreadsheet.Commit | src/store/spreadsheetStore.ts:108 | the cascade's result is stored exactly when it succeeds |
| Store.Spreadsheet.SetCellFormat | src/store/spreadsheetStore.ts:112-125 | only that cell's format changes, merged with the new one |
| Store.Spreadsheet.SetCellType | src/store/spreadsheetStore.ts:127-137 | only that cell's type changes |
| Store.Spreadsheet.SelectCell | src/store/spreadsheetStore.ts:161-166 | the cell is selected and the range cleared |
| Store.Spreadsheet.SelectRange | src/store/spreadsheetStore.ts:168-173 | both corners parse exactly when the selection changes; then the range is `getCellRange` of them |
| Store.Spreadsheet.ClearSelection | src/store/spreadsheetStore.ts:175-180 | no cell and no range is selected |
| Store.Spreadsheet.AddRow | src/store/spreadsheetStore.ts:183-221 | re-keys the cells and runs the heights loop as written: heights above `afterRow` move one row on and row `afterRow + 1` gets 25 (`Metadata.AddRowHeightsAsWritten`); one more row |
| Store.Spreadsheet.DeleteRow | src/store/spreadsheetStore.ts:223-264 | re-keys the cells and runs the heights loop as written, from `rowIndex + 1`, then deletes the last row's key (`Metadata.DeleteRowHeightsAsWritten`); one row fewer |
| Store.Spreadsheet.AddColumn | src/store/spreadsheetStore.ts:266-309 | re-keys the cells and runs the widths loop as written, from `columnCount - 1`, then gives column `afterColumn + 1` width 100 (`Metadata.AddColumnWidthsAsWritten`); one more column |
| Store.Spreadsheet.DeleteColumn | src/store/spreadsheetStore.ts:311-357 | re-keys the cells, shifts the widths and removes one column |
| Store.Spreadsheet.ResizeColumn | src/store/spreadsheetStore.ts:359-364 | sets the width under the column's letter |
| Store.Spreadsheet.ResizeRow | src/store/spreadsheetStore.ts:366-370 | sets the height under the row's number |
| Store.Spreadsheet.ApplyFunction | src/store/spreadsheetStore.ts:373-435 | without a selected cell, or with the empty id selected (falsy for `!selectedCell`), nothing changes; otherwise it sets the formula "=NAME(arg)" there, committing exactly when `setCellFormula` does |
| Store.Spreadsheet.ApplyFindAndReplace | src/store/spreadsheetStore.ts:437-448 | find-and-replace in the selected range, or nothing without one |
| Store.Spreadsheet.ApplyRemoveDuplicates | src/store/spreadsheetStore.ts:450-459 | remove-duplicates in the selected range with the joined keys, or nothing without one |
| Store.Spreadsheet.ClearSpreadsheet | src/store/spreadsheetStore.ts:462-464 | the store is the initial sheet again |
| Store.Spreadsheet.LoadSpreadsheet | src/store/spreadsheetStore.ts:477-481 | the store holds exactly the given data |

## Left out

- React components, DOM events, `alert`/`confirm` and mouse resizing are user interface, not engine.
- The zustand/immer plumbing (`create`, `set`, `get`) is replaced by the fields and methods of `Store.Spreadsheet`.
- `saveSpreadsheet` is not modelled: it is only persistence I/O (`localStorage`, JSON).
- `Arith.Calc`: stands in for JavaScript's `eval`. It covers numbers, `+ - * / %`, parentheses and unary signs; `++` and `--` are syntax errors, as in JavaScript. Any other program text is a syntax error. Every thrown exception gives one fixed message, "#ERROR: Invalid or unexpected token".
- `Arith.Calc`: forms that `eval` reads as numbers but the model rejects as syntax errors: `//` and `/* */` comments (`eval("6//2")` is 6), exponent literals ("1e3"), hexadecimal, binary and octal literals, and statements joined by `;` or by automatic semicolon insertion.
- `Arith.Calc`: `x/0` gives NaN here, not Infinity. There are no Infinity, rounding or IEEE-754 effects.
- `Text.NumberText`: integers below 1e21 in size print as their decimal text; from 1e21 on JavaScript prints exponent form ("1e+21"), which the model does not, so TRIM, UPPER and LOWER of a cell holding such a number differ. Other numbers are cut to 15 fraction digits, standing in for JavaScript's shortest round-trip printing.
- `CellUtils.IsNumeric`: `Number(s)` on a string is modelled as an optionally signed decimal inside blanks, whose integer part or fraction part may be empty but not both (".5", "5.", "-.5"). Exponents ("1e3"), hexadecimal, binary and octal literals ("0x1F", "0b1", "0o7") and "Infinity" are not numeric here, though JavaScript reads them as numbers.
- `Text.Trim`, `Text.ToUpper`, `Text.ToLower`: ASCII blanks and ASCII letters only. There is no Unicode whitespace or case mapping.
- `RangeOps.FindAndReplace`: the search text is a literal pattern. Regular-expression metacharacters and `$` patterns in the replacement are not interpreted.
- `FormulaEval.SubstituteRefs`: a referenced cell's text is inserted literally. JavaScript's `replace` with a string replacement expands `$&`, `` $` ``, `$'` and `$$`; the model does not, so a cell text "$'" in "B1+2" gives "$'+2" here and "+2+2" in JavaScript.
- `CellUtils.ParseCellId`: `parseInt` is exact on arbitrarily long digit runs. Precision loss beyond 2^53 is not modelled.
- `FormulaEval.Evaluate`: the stack limit is the parameter `depth`, and the store uses 1000 (`Sheet.EvalDepth`). The real limit depends on the JavaScript engine.
- `Cascade.UpdateDependentCells`: the cascade is bounded by `Cascade.CascadeDepth` (1000). Overflowing it discards the whole write, because the thrown error escapes the immer producer. The method takes the evaluator as a parameter and needs only that it ignores display values.
- `Cascade.CascadeMeaning`: it is not proved that a grid without reference cycles never overflows. The stated property is exactly "no chain longer than the bound".
- `FormulaEval.Evaluate`: display values of range formulas are never read, so a stale display value cannot matter. This is proved in `FormulaEval.EvaluateSame`; other staleness is not modelled.
- `FormulaFunctions.ApplyTrim`, `FormulaFunctions.ApplyUpper`, `FormulaFunctions.ApplyLower`: the cells object is modelled as a map without the members it inherits from `Object.prototype`. In the source, an argument such as `constructor`, `toString` or `__proto__` finds an inherited member whose `.value` is `undefined`, so TRIM and LOWER give "undefined" and UPPER gives "UNDEFINED"; here no cell is found and the result is "". SUM, AVERAGE, MAX, MIN and COUNT are unaffected, since `isNumeric(undefined)` is false, and reference substitution only looks up `[A-Z]+\d+` ids.
- `RangeOps.Blanked`: a missing range cell that is blanked becomes `createEmptyCell(id)`. The source creates `{ value: null }` without the other fields.
- `Metadata.CopyKey`: copying a missing key stores `undefined` in the source. Here that is a removed key; a reader of the map cannot tell the two apart.
- `Store.Spreadsheet.AddRow`, `Store.Spreadsheet.DeleteRow`, `Store.Spreadsheet.AddColumn`, `Store.Spreadsheet.DeleteColumn`: their `ensures` states the cells through the relation `Sheet.Rekeyed`. When two cells are moved onto one key, the survivor depends on the iteration order of the object, which the model does not fix. `Sheet.CanonicalRekey` gives the exact result for grids of generated one-letter ids.
- `Sheet.FateOf`: column edits read only the first letter of a multi-letter column. This is modelled as written and shown by `Sheet.MultiLetterCollision`; it is not corrected.
- `Store.Spreadsheet.ApplyRemoveDuplicates`: uses the "|"-joined row keys of the source (`exact` is false). The `exact` variant exists only to state `RangeOps.SeparatorCollision`.
- The `dependencies` field of `Cell` is never read or written by the engine, so `Types.Cell` does not carry it.

## Findings

| source | as written | input that shows it | evidently intended | confidence | as-written member | corrected member |
|---|---|---|---|---|---|---|
| src/store/spreadsheetStore.ts:210-216 | `addRow(afterRow)` moves the cells of zero-based rows afterRow.. one row down. The heights loop, however, shifts from zero-based row afterRow + 1 and gives the default height to row afterRow + 1. | rows 0..2 with heights 10, 20, 30 and `addRow(1)`: the cells of row 1 move to row 2, which gets 25, and row 1, now empty, keeps 20 | each height moves with its row's cells and the new empty row gets the default | not executed | Metadata.AddRowHeightsMisaligned | Metadata.AddRowHeightsFollowCells |
| src/store/spreadsheetStore.ts:253-259 | `deleteRow(rowIndex)` deletes the cells of zero-based row rowIndex. The heights loop, however, starts copying at rowIndex + 1, so row rowIndex keeps the deleted row's height. | heights 10, 20, 30 and `deleteRow(0)`: the cells of row 1 move to row 0, which still has 10, and the height 20 moves nowhere | the deleted row's height goes, and each later height moves up with its cells | not executed | Metadata.DeleteRowHeightsMisaligned | Metadata.DeleteRowHeightsFollowCells |
| src/store/spreadsheetStore.ts:295-299 | `addColumn(afterColumn)` starts its width loop at the last column, `columnCount - 1`, so that column's width is overwritten and never copied to the new last column. | 3 columns with widths A=10, B=20, C=30 and `addColumn(0)`: the cells of C move to D, but D's width is whatever it held before, and 30 is lost | the loop starts at `columnCount`, so every width moves one column on | not executed | Metadata.AddColumnLosesLastWidth | Metadata.AddColumnWidthsFollowCells |

`Store.Spreadsheet.AddRow`, `Store.Spreadsheet.DeleteRow` and `Store.Spreadsheet.AddColumn` run
the height and width loops as the source writes them (`Metadata.AddRowHeightsAsWritten`,
`Metadata.DeleteRowHeightsAsWritten`, `Metadata.AddColumnWidthsAsWritten`), so the store's state
carries each misalignment above. The corrected shifts (`Metadata.AddRowHeights`,
`Metadata.DeleteRowHeights`, `Metadata.AddColumnWidths`) are stated beside them, and the
`*FollowCells` lemmas prove that they keep heights and widths with their cells.
