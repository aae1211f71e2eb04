/** The records of the spreadsheet: cell values, cells, the grid and the whole sheet. */
module Types {

  datatype Option<+T> = None | Some(value: T)

  /** A computation that either yields a value or fails with an error message. */
  datatype Result<+T> = Ok(value: T) | Err(message: string)

  /** What a cell holds: a string, a number or null. */
  datatype CellValue = Text(s: string) | Number(n: real) | Empty

  /** The cell type tag: 'text', 'number' or 'formula'. */
  datatype CellType = TextCell | NumberCell | FormulaCell

  datatype Align = Left | Center | Right

  /** Formatting; a field that is None is absent from the format object. */
  datatype CellFormat = CellFormat(
    bold: Option<bool>,
    italic: Option<bool>,
    fontSize: Option<int>,
    color: Option<string>,
    backgroundColor: Option<string>,
    textAlign: Option<Align>)

  /** The empty format `{}`. */
  const NoFormat := CellFormat(None, None, None, None, None, None)

  /** A cell; the optional `displayValue` and `formula` are Options, `kind` is the type tag. */
  datatype Cell = Cell(
    id: string,
    value: CellValue,
    displayValue: Option<CellValue>,
    kind: CellType,
    format: CellFormat,
    formula: Option<string>)

  /** All cells, keyed by cell id. */
  type Grid = map<string, Cell>

  /** The whole spreadsheet state. */
  datatype SpreadsheetData = SpreadsheetData(
    cells: Grid,
    columnWidths: map<string, int>,
    rowHeights: map<string, int>,
    selectedCell: Option<string>,
    selectedRange: Option<seq<string>>,
    columnCount: int,
    rowCount: int)
}
