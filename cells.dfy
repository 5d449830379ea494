/** Values as the data browser sees them once a CSV has been parsed. */
module Cells {

  datatype Option<+T> = None | Some(value: T)

  datatype Result<+T, +E> = Success(value: T) | Failure(error: E)

  /** One spreadsheet cell: its text, or None where pandas reads NaN. */
  type Cell = Option<string>

  /** Placeholder the application shows for a missing value (an em dash). */
  const Dash: string := "\U{2014}"

  /** Python's `str(v)` / `astype(str)` of a cell: a missing value becomes "nan". */
  function Str(c: Cell): string {
    match c
    case None => "nan"
    case Some(s) => s
  }
}
