/** Tetromino shapes, the catalog pieces are drawn from, spawning and the
    quarter-turn rotation of a shape. */
module Pieces {
  import opened Board

  /** A shape is a matrix of 0/1 entries; an entry other than 0 is an occupied
      cell of the piece. */
  type Shape = seq<seq<int>>

  datatype Tetromino = Tetromino(shape: Shape, color: Color)

  /** The falling piece: its shape, its colour and the grid position (column x,
      row y) of the top-left corner of the shape's bounding box. */
  datatype Piece = Piece(shape: Shape, color: Color, x: int, y: int)

  /** A non-empty rectangular matrix. */
  predicate WellFormedShape(s: Shape) {
    |s| > 0 && |s[0]| > 0 && forall r :: 0 <= r < |s| ==> |s[r]| == |s[0]|
  }

  const Catalog: seq<Tetromino> := [
    Tetromino([[1, 1, 1], [0, 1, 0]], Purple),  // T
    Tetromino([[1, 1], [1, 1]], Yellow),        // O
    Tetromino([[1, 1, 0], [0, 1, 1]], Red),     // S
    Tetromino([[0, 1, 1], [1, 1, 0]], Green),   // Z
    Tetromino([[1, 0, 0], [1, 1, 1]], Orange),  // L
    Tetromino([[0, 0, 1], [1, 1, 1]], Pink),    // J
    Tetromino([[1, 1, 1, 1]], Cyan)             // I
  ]

  /** Every catalog shape is a well-formed matrix that fits inside the grid. */
  lemma CatalogWellFormed(k: nat)
    requires k < |Catalog|
    ensures WellFormedShape(Catalog[k].shape)
    ensures |Catalog[k].shape| <= ROWS && |Catalog[k].shape[0]| <= COLS
  {
    if k == 0 {} else if k == 1 {} else if k == 2 {} else if k == 3 {}
    else if k == 4 {} else if k == 5 {} else {}
  }

  /** The piece spawned from catalog entry k (the random choice of entry is
      the parameter k): at the top row, horizontally centred, with the extra
      column going to the right when the margin is odd. */
  function NewPiece(k: nat): (p: Piece)
    requires k < |Catalog|
    ensures p.shape == Catalog[k].shape && p.color == Catalog[k].color
    ensures WellFormedShape(p.shape)
    ensures p.y == 0
    ensures 0 <= p.x && 0 <= COLS - |p.shape[0]| - 2 * p.x <= 1
  {
    CatalogWellFormed(k);
    var t := Catalog[k];
    Piece(t.shape, t.color, (COLS - |t.shape[0]|) / 2, 0)
  }

  /** The quarter turn of a shape: row i of the result is column i of s read
      from the bottom row up. */
  function Rotation(s: Shape): Shape
    requires WellFormedShape(s)
  {
    seq(|s[0]|, i requires 0 <= i < |s[0]| =>
      seq(|s|, k requires 0 <= k < |s| => s[|s| - 1 - k][i]))
  }

  /** The rotated shape has as many rows as s has columns and as many columns
      as s has rows, entry [i][k] is s[|s|-1-k][i], and it is again a
      well-formed matrix. */
  lemma RotationShape(s: Shape)
    requires WellFormedShape(s)
    ensures WellFormedShape(Rotation(s))
    ensures |Rotation(s)| == |s[0]| && |Rotation(s)[0]| == |s|
    ensures forall i, k :: 0 <= i < |s[0]| && 0 <= k < |s| ==>
      Rotation(s)[i][k] == s[|s| - 1 - k][i]
  {
  }

  /** Two quarter turns turn the shape upside down and mirror it. */
  lemma HalfTurn(s: Shape)
    requires WellFormedShape(s)
    ensures WellFormedShape(Rotation(Rotation(s)))
    ensures |Rotation(Rotation(s))| == |s|
    ensures forall i :: 0 <= i < |s| ==> |Rotation(Rotation(s))[i]| == |s[i]|
    ensures forall i, k :: 0 <= i < |s| && 0 <= k < |s[0]| ==>
      Rotation(Rotation(s))[i][k] == s[|s| - 1 - i][|s[0]| - 1 - k]
  {
    RotationShape(s);
    RotationShape(Rotation(s));
  }

  /** Four quarter turns give back the original shape. */
  lemma RotationFourTimes(s: Shape)
    requires WellFormedShape(s)
    ensures Rotation(Rotation(Rotation(Rotation(s)))) == s
  {
    var h := Rotation(Rotation(s));
    HalfTurn(s);
    HalfTurn(h);
    var f := Rotation(Rotation(h));
    assert |f| == |s|;
    forall i | 0 <= i < |s|
      ensures f[i] == s[i]
    {
      assert |f[i]| == |s[i]|;
      forall k | 0 <= k < |s[i]|
        ensures f[i][k] == s[i][k]
      {
        assert f[i][k] == h[|h| - 1 - i][|h[0]| - 1 - k];
      }
    }
  }
}
