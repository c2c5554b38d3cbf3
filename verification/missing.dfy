/** Cells that may hold no value. A missing cell is a pandas NaN in a column,
    or a blank prompt answer that leaves a setting at its default. */
module Missing {

  datatype Option<T> = None | Some(value: T)

  /** `fillna(fill)` on one cell. */
  function ValueOr<T>(cell: Option<T>, fill: T): T {
    if cell.Some? then cell.value else fill
  }
}
