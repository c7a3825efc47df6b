/**
 * The in-memory table the loader hands to the analysis: column names and
 * rows of cells. A cell is None where pandas holds NaN (an empty field read
 * by the CSV reader, or a position past the end of a short row).
 */
module Frame {
  import opened Wrappers

  type Cell = Option<string>

  datatype Table = Table(columns: seq<string>, rows: seq<seq<Cell>>)

  /** Cell `j` of a row; positions past the end of the row are NaN. */
  function CellAt(row: seq<Cell>, j: nat): Cell {
    if j < |row| then row[j] else None
  }

  /**
   * One row of the cleaned table: the index label the row had in the
   * loaded table, its normalised country, and its numeric weight.
   */
  datatype Holding = Holding(index: nat, country: string, weight: real)
}
