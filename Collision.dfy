/** When a placement of the falling piece is rejected. */
module Collision {
  import opened Board
  import opened Pieces

  /** Column x, row y cannot take a block of the piece: it is left or right of
      the grid, below the bottom row, or a non-empty cell of the grid. A row
      above the top (y < 0) is checked against the side walls only. */
  predicate Blocked(g: Grid, x: int, y: int)
    requires WellFormedGrid(g)
  {
    x < 0 || x >= COLS || y >= ROWS || (y >= 0 && g[y][x] != Empty)
  }

  /** Some occupied cell of the piece's shape, placed at (x + col, y + row),
      is blocked. */
  predicate Collides(g: Grid, p: Piece)
    requires WellFormedGrid(g)
  {
    exists r, c :: 0 <= r < |p.shape| && 0 <= c < |p.shape[r]| && p.shape[r][c] != 0 &&
      Blocked(g, p.x + c, p.y + r)
  }

  /** A well-formed piece whose bounding box lies inside the grid never
      collides with an all-empty grid. */
  lemma FitsEmptyGrid(p: Piece)
    requires WellFormedShape(p.shape)
    requires 0 <= p.x && p.x + |p.shape[0]| <= COLS
    requires 0 <= p.y && p.y + |p.shape| <= ROWS
    ensures !Collides(EmptyGrid(), p)
  {
    forall r, c | 0 <= r < |p.shape| && 0 <= c < |p.shape[r]| && p.shape[r][c] != 0
      ensures !Blocked(EmptyGrid(), p.x + c, p.y + r)
    {
      assert EmptyGrid()[p.y + r][p.x + c] == Empty;
    }
  }

  /** Every piece spawned from the catalog fits an all-empty grid. */
  lemma NewPieceFitsEmptyGrid(k: nat)
    requires k < |Catalog|
    ensures !Collides(EmptyGrid(), NewPiece(k))
  {
    CatalogWellFormed(k);
    FitsEmptyGrid(NewPiece(k));
  }
}
