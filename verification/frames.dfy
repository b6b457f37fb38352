/** Tabular data as the loader sees it: a batch of rows with a header. */
module Frames {

  /** One tagged scalar. `Null` stands for a missing value, including NaN. */
  datatype Cell = Null | Int(i: int) | Num(x: real) | Text(s: string)

  /** One record: field name to value. */
  type Row = map<string, Cell>

  /** One batch (a chunk): the header and the rows in file order. */
  datatype Frame = Frame(columns: seq<string>, rows: seq<Row>)

  /** The value of `col` in `row`; a field the row does not carry reads as missing. */
  function Lookup(row: Row, col: string): Cell
  {
    if col in row then row[col] else Null
  }
}
