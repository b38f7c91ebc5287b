/**
 * The values that the CSV and spreadsheet decoders hand to the upload handler:
 * a row is a mapping from column header to cell value, and an absent key is a
 * column the row does not have.
 */
module Rows {

  /** A decoded cell: CSV yields only text, a spreadsheet may also yield numbers and booleans. */
  datatype Cell = Str(s: string) | Num(x: real) | Bool(b: bool)

  type Row = map<string, Cell>

  /** Database identifier of an agent. */
  type AgentId = string

  /** JavaScript truthiness of a cell value: the empty string, zero and false are falsy. */
  predicate Truthy(c: Cell)
  {
    match c
    case Str(s) => s != ""
    case Num(x) => x != 0.0
    case Bool(b) => b
  }

  /** `row[column]` as JavaScript reads it: truthy only when the column is present and truthy. */
  predicate TruthyAt(row: Row, column: string)
  {
    column in row && Truthy(row[column])
  }

  /** The record that distribution hands to an agent: `{firstName, phone, notes}`. */
  datatype Record = Record(firstName: string, phone: string, notes: Cell)
}
