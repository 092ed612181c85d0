/** The tetromino catalog and clockwise rotation. */
module Shapes {
  import opened Grids

  /** The seven shapes I, O, T, S, Z, L, J, in their spawn orientation. */
  function Catalog(): seq<Grid> {
    [ [[1, 1, 1, 1]],
      [[1, 1], [1, 1]],
      [[0, 1, 0], [1, 1, 1]],
      [[1, 1, 0], [0, 1, 1]],
      [[0, 1, 1], [1, 1, 0]],
      [[1, 0, 0], [1, 1, 1]],
      [[0, 0, 1], [1, 1, 1]] ]
  }

  /** The number of tuples `zip(*s)` yields: the length of the shortest row
      (none at all when there are no rows). */
  function MinWidth(s: Grid): (w: nat)
    ensures forall r | 0 <= r < |s| :: w <= |s[r]|
    ensures |s| > 0 ==> exists r | 0 <= r < |s| :: w == |s[r]|
    ensures |s| == 0 ==> w == 0
  {
    if |s| == 0 then 0
    else if |s| == 1 then |s[0]|
    else
      var m := MinWidth(s[1..]);
      if |s[0]| <= m then |s[0]| else m
  }

  /** The `i`-th tuple of `zip(*s)`: column `i` read from top to bottom. */
  function Column(s: Grid, i: nat): seq<int>
    requires i < MinWidth(s)
  {
    seq(|s|, k requires 0 <= k < |s| => s[k][i])
  }

  /** `zip(*s)`: the columns of `s`, truncated to its shortest row. */
  function Zip(s: Grid): Grid {
    seq(MinWidth(s), i requires 0 <= i < MinWidth(s) => Column(s, i))
  }

  /** `reversed(r)` */
  function Reverse(r: seq<int>): (rev: seq<int>)
    ensures |rev| == |r|
    ensures forall k | 0 <= k < |r| :: rev[k] == r[|r| - 1 - k]
  {
    if r == [] then [] else Reverse(r[1..]) + [r[0]]
  }

  /** Clockwise rotation: transpose with `zip`, then reverse every row.
      Row `i` of the result is column `i` of `s` read from the bottom up. */
  function Rotate(s: Grid): (r: Grid)
    ensures |r| == MinWidth(s)
    ensures forall i | 0 <= i < |r| :: |r[i]| == |s|
    ensures forall i, j | 0 <= i < |r| && 0 <= j < |s| :: r[i][j] == s[|s| - 1 - j][i]
  {
    var cols := Zip(s);
    seq(|cols|, i requires 0 <= i < |cols| => Reverse(cols[i]))
  }

  /** On a rectangular grid `zip` keeps every column. */
  lemma MinWidthRectangular(s: Grid)
    requires Rectangular(s)
    ensures MinWidth(s) == Width(s)
  {
    if |s| > 0 {
      var r :| 0 <= r < |s| && MinWidth(s) == |s[r]|;
    }
  }

  /** Rotating a non-empty R x C shape gives a C x R shape. */
  lemma RotateDimensions(s: Grid)
    requires Rectangular(s) && |s| > 0 && Width(s) > 0
    ensures Rectangular(Rotate(s))
    ensures |Rotate(s)| == Width(s) && Width(Rotate(s)) == |s|
  {
    MinWidthRectangular(s);
  }

  /** Two rotations turn the shape upside down and mirror it. */
  lemma RotateTwice(s: Grid)
    requires Rectangular(s) && |s| > 0 && Width(s) > 0
    ensures Rectangular(Rotate(Rotate(s)))
    ensures |Rotate(Rotate(s))| == |s| && Width(Rotate(Rotate(s))) == Width(s)
    ensures forall i, j | 0 <= i < |s| && 0 <= j < Width(s) ::
              Rotate(Rotate(s))[i][j] == s[|s| - 1 - i][Width(s) - 1 - j]
  {
    RotateDimensions(s);
    RotateDimensions(Rotate(s));
  }

  /** Four rotations give back the original shape. */
  lemma RotateFourTimes(s: Grid)
    requires Rectangular(s) && |s| > 0 && Width(s) > 0
    ensures Rotate(Rotate(Rotate(Rotate(s)))) == s
  {
    var h := Rotate(Rotate(s));
    RotateTwice(s);
    RotateTwice(h);
    HalfTurnTwice(s, h, Rotate(Rotate(h)));
  }

  /** Turning a grid upside down and mirroring it twice gives it back. */
  lemma HalfTurnTwice(s: Grid, h: Grid, f: Grid)
    requires Rectangular(s) && Rectangular(h) && Rectangular(f)
    requires |h| == |f| == |s| > 0 && Width(h) == Width(f) == Width(s)
    requires forall i, j | 0 <= i < |s| && 0 <= j < Width(s) :: h[i][j] == s[|s| - 1 - i][Width(s) - 1 - j]
    requires forall i, j | 0 <= i < |s| && 0 <= j < Width(s) :: f[i][j] == h[|s| - 1 - i][Width(s) - 1 - j]
    ensures f == s
  {
    forall i, j | 0 <= i < |f| && 0 <= j < |f[i]|
      ensures f[i][j] == s[i][j]
    {
      assert f[i][j] == h[|s| - 1 - i][Width(s) - 1 - j];
    }
    SameCells(f, s);
  }

  /** Rotation moves the occupied cells one-to-one: (y, x) goes to (x, R - 1 - y). */
  lemma RotateOccupied(s: Grid)
    requires Rectangular(s)
    ensures Occupied(Rotate(s)) == Image(Occupied(s), (p: (int, int)) => (p.1, |s| - 1 - p.0))
  {
    MinWidthRectangular(s);
    var f := (p: (int, int)) => (p.1, |s| - 1 - p.0);
    var r := Rotate(s);
    forall q | q in Occupied(r)
      ensures q in Image(Occupied(s), f)
    {
      var p := (|s| - 1 - q.1, q.0);
      assert p in Occupied(s) && f(p) == q;
    }
    forall p | p in Occupied(s)
      ensures f(p) in Occupied(r)
    {
      assert r[p.1][|s| - 1 - p.0] == s[p.0][p.1];
    }
  }

  /** Rotation keeps the number of occupied cells. */
  lemma RotateKeepsCellCount(s: Grid)
    requires Rectangular(s)
    ensures |Occupied(Rotate(s))| == |Occupied(s)|
  {
    RotateOccupied(s);
    InjectiveImageSize(Occupied(s), (p: (int, int)) => (p.1, |s| - 1 - p.0));
  }

  /** Every catalog shape is a non-empty rectangle of 0/1 cells. */
  lemma CatalogWellFormed()
    ensures forall k | 0 <= k < |Catalog()| ::
              Rectangular(Catalog()[k]) && |Catalog()[k]| > 0 && Width(Catalog()[k]) > 0 &&
              Binary(Catalog()[k])
  {
  }
}
