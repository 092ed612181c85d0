/** Collision checking and stamping a piece into the board. */
module Placement {
  import opened Grids

  /** Whether one occupied piece cell may sit at board row `r`, column `c`: the
      column lies within the board width, the row is above the bottom edge, and,
      when the row is on the board (r >= 0), the board cell is empty. A row above
      the top edge (r < 0) is accepted without looking at the board. */
  predicate CellFits(board: Grid, r: int, c: int) {
    0 <= c < Width(board) && r < |board| &&
    (r >= 0 ==> c < |board[r]| && board[r][c] == 0)
  }

  /** Every occupied cell of `shape`, placed with its corner at `pos`, fits. */
  predicate Fits(board: Grid, shape: Grid, pos: Offset) {
    forall y, x | 0 <= y < |shape| && 0 <= x < |shape[y]| && shape[y][x] != 0 ::
      CellFits(board, pos.row + y, pos.col + x)
  }

  /** `valid_move`: scans the shape row by row and returns false at the first
      occupied cell that leaves the board sideways, falls below the bottom, or
      lands on an occupied board cell. */
  method ValidMove(board: Grid, shape: Grid, pos: Offset) returns (ok: bool)
    requires |board| > 0 && Rectangular(board)
    ensures ok == Fits(board, shape, pos)
  {
    var y := 0;
    while y < |shape|
      invariant 0 <= y <= |shape|
      invariant forall y', x | 0 <= y' < y && 0 <= x < |shape[y']| && shape[y'][x] != 0 ::
                  CellFits(board, pos.row + y', pos.col + x)
    {
      var row := shape[y];
      var x := 0;
      while x < |row|
        invariant 0 <= x <= |row|
        invariant forall x' | 0 <= x' < x && row[x'] != 0 :: CellFits(board, pos.row + y, pos.col + x')
      {
        if row[x] != 0 {
          var c, r := x + pos.col, y + pos.row;
          if c < 0 || c >= |board[0]| || r >= |board| {
            assert !CellFits(board, pos.row + y, pos.col + x);
            return false;
          }
          if r >= 0 && board[r][c] != 0 {
            assert !CellFits(board, pos.row + y, pos.col + x);
            return false;
          }
        }
        x := x + 1;
      }
      y := y + 1;
    }
    return true;
  }

  /** The board cell (r, c) lies under an occupied cell of the shape at `pos`. */
  predicate Covers(shape: Grid, pos: Offset, r: int, c: int) {
    var y, x := r - pos.row, c - pos.col;
    0 <= y < |shape| && 0 <= x < |shape[y]| && shape[y][x] != 0
  }

  /** The board after marking with 1 every cell the shape covers. */
  function Stamp(board: Grid, shape: Grid, pos: Offset): Grid {
    seq(|board|, r requires 0 <= r < |board| =>
      seq(|board[r]|, c requires 0 <= c < |board[r]| =>
        if Covers(shape, pos, r, c) then 1 else board[r][c]))
  }

  /** Every occupied cell of the shape lands on a cell of the board, with a row >= 0. */
  predicate Lands(board: Grid, shape: Grid, pos: Offset) {
    forall y, x | 0 <= y < |shape| && 0 <= x < |shape[y]| && shape[y][x] != 0 ::
      0 <= pos.row + y < |board| && 0 <= pos.col + x < |board[pos.row + y]|
  }

  /** Covered cells already written by the scan that has finished rows before `y`
      and, in row `y`, the cells before `x`. */
  predicate CoveredBefore(shape: Grid, pos: Offset, r: int, c: int, y: int, x: int) {
    Covers(shape, pos, r, c) && (r - pos.row < y || (r - pos.row == y && c - pos.col < x))
  }

  /** `place_shape`: writes 1 into the board under every occupied cell of the shape. */
  method PlaceShape(board: Board, shape: Grid, pos: Offset)
    requires Lands(board.rows, shape, pos)
    modifies board
    ensures board.rows == Stamp(old(board.rows), shape, pos)
  {
    ghost var b0 := board.rows;
    var y := 0;
    while y < |shape|
      invariant 0 <= y <= |shape|
      invariant |board.rows| == |b0|
      invariant forall r | 0 <= r < |b0| :: |board.rows[r]| == |b0[r]|
      invariant forall r, c | 0 <= r < |b0| && 0 <= c < |b0[r]| ::
                  board.rows[r][c] == if CoveredBefore(shape, pos, r, c, y, 0) then 1 else b0[r][c]
    {
      var row := shape[y];
      var x := 0;
      while x < |row|
        invariant 0 <= x <= |row|
        invariant |board.rows| == |b0|
        invariant forall r | 0 <= r < |b0| :: |board.rows[r]| == |b0[r]|
        invariant forall r, c | 0 <= r < |b0| && 0 <= c < |b0[r]| ::
                    board.rows[r][c] == if CoveredBefore(shape, pos, r, c, y, x) then 1 else b0[r][c]
      {
        if row[x] != 0 {
          var r, c := y + pos.row, x + pos.col;
          board.rows := board.rows[r := board.rows[r][c := 1]];
        }
        x := x + 1;
      }
      y := y + 1;
    }
    var stamped := Stamp(b0, shape, pos);
    assert |board.rows| == |stamped|;
    forall r | 0 <= r < |b0|
      ensures board.rows[r] == stamped[r]
    {
      assert |board.rows[r]| == |stamped[r]|;
      forall c | 0 <= c < |b0[r]|
        ensures board.rows[r][c] == stamped[r][c]
      {
        assert CoveredBefore(shape, pos, r, c, |shape|, 0) == Covers(shape, pos, r, c);
      }
    }
  }

  /** The board cells under the occupied cells of the shape. */
  ghost function Targets(shape: Grid, pos: Offset): set<(int, int)> {
    Image(Occupied(shape), (p: (int, int)) => (p.0 + pos.row, p.1 + pos.col))
  }

  /** A piece that fits with its corner on or below the top row lands on the board. */
  lemma FitsLands(board: Grid, shape: Grid, pos: Offset)
    requires Rectangular(board) && Fits(board, shape, pos) && pos.row >= 0
    ensures Lands(board, shape, pos)
  {
    forall y, x | 0 <= y < |shape| && 0 <= x < |shape[y]| && shape[y][x] != 0
      ensures 0 <= pos.row + y < |board| && 0 <= pos.col + x < |board[pos.row + y]|
    {
      assert CellFits(board, pos.row + y, pos.col + x);
    }
  }

  /** Stamping keeps the number of rows and every row's width. */
  lemma StampKeepsDimensions(board: Grid, shape: Grid, pos: Offset)
    ensures |Stamp(board, shape, pos)| == |board|
    ensures forall r | 0 <= r < |board| :: |Stamp(board, shape, pos)[r]| == |board[r]|
    ensures Rectangular(board) ==>
              Rectangular(Stamp(board, shape, pos)) && Width(Stamp(board, shape, pos)) == Width(board)
  {
  }

  /** Stamping writes only the marker 1, so a board of 0/1 cells stays one. */
  lemma StampKeepsBinary(board: Grid, shape: Grid, pos: Offset)
    requires Binary(board)
    ensures Binary(Stamp(board, shape, pos))
  {
  }

  /** The occupied cells after stamping are those before plus the cells under the piece. */
  lemma StampOccupied(board: Grid, shape: Grid, pos: Offset)
    requires Lands(board, shape, pos)
    ensures Occupied(Stamp(board, shape, pos)) == Occupied(board) + Targets(shape, pos)
  {
    var b := Stamp(board, shape, pos);
    var f := (p: (int, int)) => (p.0 + pos.row, p.1 + pos.col);
    forall q | q in Occupied(b)
      ensures q in Occupied(board) + Targets(shape, pos)
    {
      if Covers(shape, pos, q.0, q.1) {
        var p := (q.0 - pos.row, q.1 - pos.col);
        assert p in Occupied(shape) && f(p) == q;
      }
    }
    forall q | q in Targets(shape, pos)
      ensures q in Occupied(b)
    {
      var p :| p in Occupied(shape) && f(p) == q;
      assert Covers(shape, pos, q.0, q.1);
    }
  }

  /** Locking a piece that fits raises the number of occupied board cells by
      exactly the number of occupied cells of the piece. */
  lemma StampAddsPieceCells(board: Grid, shape: Grid, pos: Offset)
    requires Rectangular(board) && Fits(board, shape, pos) && pos.row >= 0
    ensures |Occupied(Stamp(board, shape, pos))| == |Occupied(board)| + |Occupied(shape)|
  {
    FitsLands(board, shape, pos);
    StampOccupied(board, shape, pos);
    var t := Targets(shape, pos);
    forall q | q in t
      ensures q !in Occupied(board)
    {
      var p :| p in Occupied(shape) && (p.0 + pos.row, p.1 + pos.col) == q;
      assert CellFits(board, pos.row + p.0, pos.col + p.1);
    }
    assert Occupied(board) * t == {};
    InjectiveImageSize(Occupied(shape), (p: (int, int)) => (p.0 + pos.row, p.1 + pos.col));
  }

  /** An occupied cell left of column 0, right of the last column, or below the
      bottom row makes the move invalid. */
  lemma OutOfBoundsRejected(board: Grid, shape: Grid, pos: Offset, y: int, x: int)
    requires 0 <= y < |shape| && 0 <= x < |shape[y]| && shape[y][x] != 0
    requires pos.col + x < 0 || pos.col + x >= Width(board) || pos.row + y >= |board|
    ensures !Fits(board, shape, pos)
  {
    assert !CellFits(board, pos.row + y, pos.col + x);
  }

  /** A cell above the top edge is never rejected for that: if every occupied cell
      lies within the columns and above row 0, the move is valid whatever the
      board holds. */
  lemma AboveTopAccepted(board: Grid, shape: Grid, pos: Offset)
    requires forall y, x | 0 <= y < |shape| && 0 <= x < |shape[y]| && shape[y][x] != 0 ::
               pos.row + y < 0 && 0 <= pos.col + x < Width(board)
    ensures Fits(board, shape, pos)
  {
  }
}
