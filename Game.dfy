/** The game state: the grid, the falling piece and the game-over flag, with
    the moves, the rotation and the row clearing that change them. The catalog
    entry of every spawned piece is a parameter k of the operation that spawns
    it. */
module Game {
  import opened Board
  import opened Pieces
  import opened Collision
  import opened LineClear

  class Tetris {
    var grid: Grid
    var currentPiece: Piece
    var gameOver: bool

    /** The grid keeps its ROWS x COLS shape and the piece's shape is a
        non-empty rectangular matrix (every catalog shape is one, and rotation
        keeps it one). */
    ghost predicate Valid()
      reads this
    {
      WellFormedGrid(grid) && WellFormedShape(currentPiece.shape)
    }

    /** While the game is not over, the falling piece sits where it fits. */
    ghost predicate Playable()
      reads this
      requires Valid()
    {
      !gameOver ==> !Collides(grid, currentPiece)
    }

    /** A new game: an all-empty grid and a piece spawned from catalog entry k. */
    constructor (k: nat)
      requires k < |Catalog|
      ensures Valid() && Playable()
      ensures grid == EmptyGrid() && currentPiece == NewPiece(k) && !gameOver
    {
      grid := EmptyGrid();
      currentPiece := NewPiece(k);
      gameOver := false;
      NewPieceFitsEmptyGrid(k);
    }

    /** Scans the shape row by row and returns at the first occupied cell that
        is blocked. */
    method HasCollision() returns (collides: bool)
      requires Valid()
      ensures collides == Collides(grid, currentPiece)
    {
      var piece := currentPiece;
      var row := 0;
      while row < |piece.shape|
        invariant 0 <= row <= |piece.shape|
        invariant forall r, c :: 0 <= r < row && 0 <= c < |piece.shape[r]| && piece.shape[r][c] != 0 ==>
          !Blocked(grid, piece.x + c, piece.y + r)
      {
        var col := 0;
        while col < |piece.shape[row]|
          invariant 0 <= col <= |piece.shape[row]|
          invariant forall r, c :: 0 <= r < row && 0 <= c < |piece.shape[r]| && piece.shape[r][c] != 0 ==>
            !Blocked(grid, piece.x + c, piece.y + r)
          invariant forall c :: 0 <= c < col && piece.shape[row][c] != 0 ==>
            !Blocked(grid, piece.x + c, piece.y + row)
        {
          if piece.shape[row][col] != 0 {
            var newX := piece.x + col;
            var newY := piece.y + row;
            if newX < 0 || newX >= COLS || newY >= ROWS {
              return true;
            }
            if newY >= 0 && grid[newY][newX] != Empty {
              return true;
            }
          }
          col := col + 1;
        }
        row := row + 1;
      }
      return false;
    }

    /** Shifts the piece one column to the left, and back if it then collides. */
    method MoveLeft()
      requires Valid()
      modifies this
      ensures Valid()
      ensures grid == old(grid) && gameOver == old(gameOver)
      ensures var shifted := old(currentPiece).(x := old(currentPiece).x - 1);
        if Collides(grid, shifted) then currentPiece == old(currentPiece)
        else currentPiece == shifted
      ensures old(Playable()) ==> Playable()
    {
      currentPiece := currentPiece.(x := currentPiece.x - 1);
      var hit := HasCollision();
      if hit {
        currentPiece := currentPiece.(x := currentPiece.x + 1);
      }
    }

    /** Shifts the piece one column to the right, and back if it then collides. */
    method MoveRight()
      requires Valid()
      modifies this
      ensures Valid()
      ensures grid == old(grid) && gameOver == old(gameOver)
      ensures var shifted := old(currentPiece).(x := old(currentPiece).x + 1);
        if Collides(grid, shifted) then currentPiece == old(currentPiece)
        else currentPiece == shifted
      ensures old(Playable()) ==> Playable()
    {
      currentPiece := currentPiece.(x := currentPiece.x + 1);
      var hit := HasCollision();
      if hit {
        currentPiece := currentPiece.(x := currentPiece.x - 1);
      }
    }

    /** Lowers the piece one row. If it then collides, it is put back and
        replaced by a piece spawned from catalog entry k (nothing is written
        into the grid), and the game is over when that new piece collides. */
    method MoveDown(k: nat)
      requires Valid() && k < |Catalog|
      modifies this
      ensures Valid()
      ensures grid == old(grid)
      ensures var lowered := old(currentPiece).(y := old(currentPiece).y + 1);
        if !Collides(grid, lowered) then
          currentPiece == lowered && gameOver == old(gameOver)
        else
          currentPiece == NewPiece(k) &&
          gameOver == (old(gameOver) || Collides(grid, NewPiece(k)))
      ensures old(gameOver) ==> gameOver
      ensures Playable()
    {
      currentPiece := currentPiece.(y := currentPiece.y + 1);
      var hit := HasCollision();
      if hit {
        currentPiece := currentPiece.(y := currentPiece.y - 1);
        currentPiece := NewPiece(k);
        var blocked := HasCollision();
        if blocked {
          gameOver := true;
        }
      }
    }

    /** Builds the quarter turn of the piece's shape column by column, installs
        it, and puts the original shape back if the turned piece collides. */
    method Rotate()
      requires Valid()
      modifies this
      ensures Valid()
      ensures grid == old(grid) && gameOver == old(gameOver)
      ensures currentPiece.x == old(currentPiece.x) && currentPiece.y == old(currentPiece.y)
      ensures currentPiece.color == old(currentPiece.color)
      ensures var turned := old(currentPiece).(shape := Rotation(old(currentPiece.shape)));
        if Collides(grid, turned) then currentPiece == old(currentPiece)
        else currentPiece == turned
      ensures old(Playable()) ==> Playable()
    {
      var shape := currentPiece.shape;
      var rotated: Shape := [];
      var i := 0;
      while i < |shape[0]|
        invariant 0 <= i <= |shape[0]|
        invariant |rotated| == i
        invariant forall a :: 0 <= a < i ==> rotated[a] == Rotation(shape)[a]
      {
        var row: seq<int> := [];
        var j := |shape| - 1;
        while j >= 0
          invariant -1 <= j < |shape|
          invariant |row| == |shape| - 1 - j
          invariant forall b :: 0 <= b < |row| ==> row[b] == shape[|shape| - 1 - b][i]
        {
          row := row + [shape[j][i]];
          j := j - 1;
        }
        rotated := rotated + [row];
        i := i + 1;
      }
      RotationShape(shape);
      assert rotated == Rotation(shape);

      var originalShape := currentPiece.shape;
      currentPiece := currentPiece.(shape := rotated);
      var hit := HasCollision();
      if hit {
        currentPiece := currentPiece.(shape := originalShape);
      }
    }

    /** Collects the full rows from the bottom up and, if there are any, for
        each collected index removes the row at that index of the current grid
        and puts an empty row on top; returns the number of rows collected. */
    method ClearLines() returns (linesCleared: nat)
      requires Valid()
      modifies this
      ensures Valid()
      ensures linesCleared == |LinesToClear(old(grid), 0)|
      ensures grid == ClearedAsWritten(old(grid))
      ensures currentPiece == old(currentPiece) && gameOver == old(gameOver)
    {
      linesCleared := 0;
      var linesToClear: seq<nat> := [];
      var row := ROWS - 1;
      while row >= 0
        invariant -1 <= row < ROWS
        invariant linesToClear == LinesToClear(grid, row + 1)
        invariant linesCleared == |linesToClear|
        invariant grid == old(grid) && currentPiece == old(currentPiece) && gameOver == old(gameOver)
      {
        if IsFull(grid[row]) {
          linesToClear := linesToClear + [row];
          linesCleared := linesCleared + 1;
        }
        row := row - 1;
      }

      ghost var start := grid;
      ClearLinesKeepsShape(start);
      if linesCleared > 0 {
        var i := 0;
        while i < |linesToClear|
          invariant 0 <= i <= |linesToClear|
          invariant grid == ApplyClears(start, linesToClear[..i])
          invariant currentPiece == old(currentPiece) && gameOver == old(gameOver)
        {
          assert linesToClear[..i + 1][..i] == linesToClear[..i];
          grid := ClearStep(grid, linesToClear[i]);
          i := i + 1;
        }
        assert linesToClear[..i] == linesToClear;
      } else {
        assert linesToClear == [];
      }
    }
  }
}
