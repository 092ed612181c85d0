/** Grids of integer cells shared by the board and the falling pieces.
    A board row or a shape row is a sequence of cells; 0 is an empty cell and
    any other value an occupied one (the game reads cells by truthiness). */
module Grids {

  /** A board or a shape: a sequence of rows of cells. */
  type Grid = seq<seq<int>>

  /** The position of a shape's top-left corner on the board, `[x, y]` in the game:
      `col` is the horizontal coordinate, `row` the vertical one (0 at the top). */
  datatype Offset = Offset(col: int, row: int)

  /** The width the game reads off a board: the length of its first row. */
  function Width(g: Grid): nat {
    if |g| == 0 then 0 else |g[0]|
  }

  /** Every row has the same length. */
  predicate Rectangular(g: Grid) {
    forall r | 0 <= r < |g| :: |g[r]| == Width(g)
  }

  /** Every cell holds 0 or the occupied marker 1. */
  predicate Binary(g: Grid) {
    forall r, c | 0 <= r < |g| && 0 <= c < |g[r]| :: g[r][c] == 0 || g[r][c] == 1
  }

  /** A row of `w` empty cells, `[0] * w`. */
  function EmptyRow(w: nat): seq<int> {
    seq(w, _ => 0)
  }

  /** `h` rows of `w` empty cells. */
  function EmptyGrid(h: nat, w: nat): Grid {
    seq(h, _ => EmptyRow(w))
  }

  /** Two grids with the same rows of the same lengths and the same cells are equal. */
  lemma SameCells(a: Grid, b: Grid)
    requires |a| == |b|
    requires forall r | 0 <= r < |a| :: |a[r]| == |b[r]|
    requires forall r, c | 0 <= r < |a| && 0 <= c < |a[r]| :: a[r][c] == b[r][c]
    ensures a == b
  {
    forall r | 0 <= r < |a|
      ensures a[r] == b[r]
    {
      assert |a[r]| == |b[r]|;
    }
  }

  /** The (row, column) coordinates of the occupied cells of a grid. */
  ghost function Occupied(g: Grid): set<(int, int)> {
    set r, c | 0 <= r < |g| && 0 <= c < |g[r]| && g[r][c] != 0 :: (r, c)
  }

  ghost function Image(s: set<(int, int)>, f: ((int, int)) -> (int, int)): set<(int, int)> {
    set p | p in s :: f(p)
  }

  /** A map that is one-to-one on a set keeps its number of elements. */
  lemma {:induction false} InjectiveImageSize(s: set<(int, int)>, f: ((int, int)) -> (int, int))
    requires forall p, q | p in s && q in s && f(p) == f(q) :: p == q
    ensures |Image(s, f)| == |s|
    decreases |s|
  {
    if s != {} {
      var p :| p in s;
      var rest := s - {p};
      InjectiveImageSize(rest, f);
      assert Image(s, f) == Image(rest, f) + {f(p)};
      assert f(p) !in Image(rest, f);
    }
  }

  /** The game's board: a list of rows that placing a piece and clearing lines
      update in place. */
  class Board {
    var rows: Grid

    constructor (g: Grid)
      ensures rows == g
    {
      rows := g;
    }
  }
}
