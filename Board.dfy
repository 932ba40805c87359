/** The playfield of the game: a fixed grid of ROWS rows of COLS cells, row 0 at
    the top. A cell is empty (the number 0 in the game) or holds the colour of
    the block that fills it. */
module Board {

  const ROWS: nat := 20
  const COLS: nat := 10

  /** The seven colours of the tetromino catalog. */
  datatype Color = Purple | Yellow | Red | Green | Orange | Pink | Cyan

  datatype Cell = Empty | Block(color: Color)

  type Row = seq<Cell>
  type Grid = seq<Row>

  /** The shape the grid has from creation on: ROWS rows, each COLS wide. */
  predicate WellFormedGrid(g: Grid) {
    |g| == ROWS && forall r :: 0 <= r < |g| ==> |g[r]| == COLS
  }

  function EmptyRow(): Row {
    seq(COLS, _ => Empty)
  }

  function EmptyRows(n: nat): seq<Row> {
    seq(n, _ => EmptyRow())
  }

  function EmptyGrid(): Grid {
    EmptyRows(ROWS)
  }

  /** A row every cell of which is non-empty. */
  predicate IsFull(row: Row) {
    forall c :: 0 <= c < |row| ==> row[c] != Empty
  }
}
