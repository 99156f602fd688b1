/** The cells of an SQLite table. */
module Cells {

  datatype Cell = Null | Integer(value: int) | Text(text: string)
}
