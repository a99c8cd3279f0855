/** Values shared by every stage of the ZIP locale refresh: optional values,
    spreadsheet cells and spreadsheet rows. */
module Values {

  /** A value that may be missing: an unparseable date, an absent link, a
      marker file that does not exist. */
  datatype Option<+T> = None | Some(value: T)

  /** One cell of a decoded spreadsheet row, as the row-to-object conversion
      delivers it with formatted (non-raw) values and a `null` default:
      - Text: the formatted text of a non-empty cell;
      - Null: a blank cell under a header the sheet has;
      - Undefined: what reading a column the sheet does not have yields. */
  datatype Cell = Text(text: string) | Null | Undefined

  /** A decoded row: the sheet's header names mapped to that row's cells. */
  type Row = map<string, Cell>

  /** Reading `row[column]`: a column missing from the row reads as undefined. */
  function Lookup(row: Row, column: string): Cell {
    if column in row then row[column] else Undefined
  }

  /** JavaScript truthiness of a cell: only a non-empty string is truthy. */
  predicate Truthy(c: Cell) {
    c.Text? && c.text != ""
  }
}
