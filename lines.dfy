/** Removing full rows from the board. */
module Lines {
  import opened Grids

  /** `all(row)`: every cell of the row is occupied (true of an empty row). */
  predicate IsFull(row: seq<int>) {
    forall c | 0 <= c < |row| :: row[c] != 0
  }

  /** The number of full rows of `b`. */
  function FullCount(b: Grid): nat {
    if |b| == 0 then 0
    else FullCount(b[..|b| - 1]) + (if IsFull(b[|b| - 1]) then 1 else 0)
  }

  /** The rows of `b` that are not full, in their original order. */
  function NonFull(b: Grid): (kept: Grid)
    ensures |kept| == |b| - FullCount(b)
  {
    if |b| == 0 then []
    else NonFull(b[..|b| - 1]) + (if IsFull(b[|b| - 1]) then [] else [b[|b| - 1]])
  }

  /** The board after clearing: one empty row for every full row, then the rows
      that were not full, in order. */
  function Cleared(b: Grid): Grid {
    EmptyGrid(FullCount(b), Width(b)) + NonFull(b)
  }

  /** `clear_lines`: scans the rows top to bottom; each full row is popped, an
      empty row as wide as the (new) first row is inserted at the top, and the
      counter goes up. The only failing case, a single full row (nothing left to
      read the width from after the pop), is excluded. */
  method ClearLines(board: Board) returns (fullLines: nat)
    requires Rectangular(board.rows)
    requires |board.rows| != 1 || !IsFull(board.rows[0])
    modifies board
    ensures fullLines == FullCount(old(board.rows))
    ensures board.rows == Cleared(old(board.rows))
  {
    ghost var b0 := board.rows;
    fullLines := 0;
    var n := |board.rows|;
    var y := 0;
    while y < n
      invariant 0 <= y <= n == |b0|
      invariant fullLines == FullCount(b0[..y])
      invariant board.rows == Scan(b0, fullLines, y)
    {
      ScanRow(b0, fullLines, y);
      if IsFull(board.rows[y]) {
        ScanPop(b0, fullLines, y);
        board.rows := Pop(board.rows, y);
        board.rows := [EmptyRow(|board.rows[0]|)] + board.rows;
        fullLines := fullLines + 1;
      } else {
        ScanKeep(b0, fullLines, y);
      }
      y := y + 1;
    }
    assert b0[..n] == b0;
    ScanDone(b0, fullLines);
  }

  /** The rows while `clear_lines` is at index `y` with `k` rows cleared so far:
      the inserted empty rows, the kept rows among the first `y`, then the rows
      not yet examined. */
  ghost function Scan(b0: Grid, k: nat, y: nat): Grid
    requires y <= |b0|
  {
    EmptyGrid(k, Width(b0)) + NonFull(b0[..y]) + b0[y..]
  }

  /** `rows.pop(y)`: the list without its element at index `y`. */
  function Pop(rows: Grid, y: nat): (rest: Grid)
    requires y < |rows|
    ensures |rest| == |rows| - 1
  {
    rows[..y] + rows[y + 1..]
  }

  /** At the end of the scan every row has been examined. */
  lemma ScanDone(b0: Grid, k: nat)
    ensures k == FullCount(b0) ==> Scan(b0, k, |b0|) == Cleared(b0)
  {
    assert b0[..|b0|] == b0;
    assert b0[|b0|..] == [];
    assert EmptyGrid(k, Width(b0)) + NonFull(b0) + [] == EmptyGrid(k, Width(b0)) + NonFull(b0);
  }

  /** Index `y` of the scanned board still holds the original row `y`. */
  lemma ScanRow(b0: Grid, k: nat, y: nat)
    requires y < |b0| && k == FullCount(b0[..y])
    ensures |Scan(b0, k, y)| == |b0| && Scan(b0, k, y)[y] == b0[y]
  {
  }

  /** A row that is not full stays where it is and is kept. */
  lemma ScanKeep(b0: Grid, k: nat, y: nat)
    requires y < |b0| && !IsFull(b0[y])
    ensures FullCount(b0[..y + 1]) == FullCount(b0[..y])
    ensures Scan(b0, k, y + 1) == Scan(b0, k, y)
  {
    PrefixStep(b0, y);
    assert b0[y..] == [b0[y]] + b0[y + 1..];
  }

  /** Popping full row `y` and inserting an empty row of the first remaining row's
      width gives the scan state one row further with one more row cleared. */
  lemma ScanPop(b0: Grid, k: nat, y: nat)
    requires Rectangular(b0) && |b0| != 1
    requires y < |b0| && IsFull(b0[y]) && k == FullCount(b0[..y])
    ensures |Scan(b0, k, y)| == |b0|
    ensures var rest := Pop(Scan(b0, k, y), y);
            |rest| > 0 && |rest[0]| == Width(b0) &&
            [EmptyRow(|rest[0]|)] + rest == Scan(b0, k + 1, y + 1)
    ensures FullCount(b0[..y + 1]) == k + 1
  {
    var w := Width(b0);
    var e := EmptyGrid(k, w);
    var kept := NonFull(b0[..y]);
    var rows := Scan(b0, k, y);
    assert b0[y..] == [b0[y]] + b0[y + 1..];
    assert rows == (e + kept) + ([b0[y]] + b0[y + 1..]);
    PopAfter(e + kept, b0[y], b0[y + 1..]);
    var rest := Pop(rows, y);
    RestWidth(b0, k, y, rest);
    PrefixStep(b0, y);
    EmptyGridStep(k, w);
    PushFront(EmptyRow(w), e + kept, b0[y + 1..]);
  }

  /** Inserting at index 0 before a concatenation. */
  lemma PushFront(row: seq<int>, a: Grid, c: Grid)
    ensures [row] + (a + c) == ([row] + a) + c
  {
  }

  /** Popping the row that follows `a` leaves `a` followed by what came after. */
  lemma PopAfter(a: Grid, row: seq<int>, c: Grid)
    ensures Pop(a + ([row] + c), |a|) == a + c
  {
    var s := a + ([row] + c);
    assert s[..|a|] == a;
    assert s[|a| + 1..] == c;
  }

  /** After the pop the first row is an inserted empty row, a kept row or an
      unexamined one, so it has the board's width. */
  lemma RestWidth(b0: Grid, k: nat, y: nat, rest: Grid)
    requires Rectangular(b0) && |b0| != 1 && y < |b0| && k == FullCount(b0[..y])
    requires rest == EmptyGrid(k, Width(b0)) + NonFull(b0[..y]) + b0[y + 1..]
    ensures |rest| > 0 && |rest[0]| == Width(b0)
  {
    var kept := NonFull(b0[..y]);
    if k == 0 && |kept| > 0 {
      NonFullRows(b0[..y]);
      assert rest[0] == kept[0];
      assert kept[0] in b0[..y];
    } else if k == 0 {
      assert rest[0] == b0[y + 1];
    }
  }

  /** Extending the examined prefix by one row. */
  lemma PrefixStep(b: Grid, y: nat)
    requires y < |b|
    ensures NonFull(b[..y + 1]) == NonFull(b[..y]) + (if IsFull(b[y]) then [] else [b[y]])
    ensures FullCount(b[..y + 1]) == FullCount(b[..y]) + (if IsFull(b[y]) then 1 else 0)
  {
    assert b[..y + 1][..y] == b[..y];
  }

  lemma EmptyGridStep(k: nat, w: nat)
    ensures EmptyGrid(k + 1, w) == [EmptyRow(w)] + EmptyGrid(k, w)
  {
  }

  /** The kept rows are exactly the rows of `b` that are not full. */
  lemma {:induction false} NonFullRows(b: Grid)
    ensures forall row | row in NonFull(b) :: row in b && !IsFull(row)
    ensures forall r | 0 <= r < |b| && !IsFull(b[r]) :: b[r] in NonFull(b)
  {
    if |b| > 0 {
      var init := b[..|b| - 1];
      NonFullRows(init);
      forall r | 0 <= r < |b| - 1
        ensures b[r] == init[r]
      {
      }
    }
  }

  /** The count agrees with the number of indices of full rows. */
  lemma {:induction false} FullCountCountsFullRows(b: Grid)
    ensures FullCount(b) == |set r | 0 <= r < |b| && IsFull(b[r])|
  {
    if |b| > 0 {
      var n := |b| - 1;
      var init := b[..n];
      FullCountCountsFullRows(init);
      var before := set r | 0 <= r < n && IsFull(init[r]);
      var all := set r | 0 <= r < |b| && IsFull(b[r]);
      assert n !in before;
      assert forall r | 0 <= r < n :: init[r] == b[r];
      if IsFull(b[n]) {
        assert all == before + {n};
      } else {
        assert all == before;
      }
    }
  }

  /** Clearing keeps the number of rows and the width of every row. */
  lemma ClearedDimensions(b: Grid)
    requires Rectangular(b)
    ensures |Cleared(b)| == |b|
    ensures Rectangular(Cleared(b)) && (|b| > 0 ==> Width(Cleared(b)) == Width(b))
  {
    NonFullRows(b);
    var c := Cleared(b);
    var k := FullCount(b);
    forall r | 0 <= r < |c|
      ensures |c[r]| == Width(b)
    {
      if r >= k {
        assert c[r] in NonFull(b);
      }
    }
  }

  /** After clearing a board of non-zero width no row is full. */
  lemma ClearedHasNoFullRow(b: Grid)
    requires Rectangular(b) && Width(b) > 0
    ensures forall r | 0 <= r < |Cleared(b)| :: !IsFull(Cleared(b)[r])
  {
    NonFullRows(b);
    var c := Cleared(b);
    var k := FullCount(b);
    forall r | 0 <= r < |c|
      ensures !IsFull(c[r])
    {
      if r < k {
        assert c[r][0] == 0;
      } else {
        assert c[r] in NonFull(b);
      }
    }
  }

  /** A board without full rows is left unchanged and nothing is counted. */
  lemma {:induction false} NoFullRowUnchanged(b: Grid)
    requires forall r | 0 <= r < |b| :: !IsFull(b[r])
    ensures FullCount(b) == 0 && NonFull(b) == b && Cleared(b) == b
  {
    if |b| > 0 {
      NoFullRowUnchanged(b[..|b| - 1]);
      assert b[..|b| - 1] + [b[|b| - 1]] == b;
    }
  }

  /** Clearing twice clears nothing more. */
  lemma ClearedIdempotent(b: Grid)
    requires Rectangular(b) && Width(b) > 0
    ensures Cleared(Cleared(b)) == Cleared(b)
  {
    ClearedHasNoFullRow(b);
    NoFullRowUnchanged(Cleared(b));
  }

  /** With exactly row `k` full, that row disappears, an empty row appears at the
      top, the rows above `k` move down by one and the rows below stay in place. */
  lemma OneFullRow(b: Grid, k: nat)
    requires k < |b| && IsFull(b[k])
    requires forall r | 0 <= r < |b| && r != k :: !IsFull(b[r])
    ensures FullCount(b) == 1
    ensures Cleared(b) == [EmptyRow(Width(b))] + (b[..k] + b[k + 1..])
  {
    OneFullRowKept(b, k);
    EmptyGridOne(Width(b));
  }

  lemma EmptyGridOne(w: nat)
    ensures EmptyGrid(1, w) == [EmptyRow(w)]
  {
    EmptyGridStep(0, w);
  }

  /** The rows above and below row `k` have no full row. */
  lemma AroundOneFullRow(b: Grid, k: nat)
    requires k < |b|
    requires forall r | 0 <= r < |b| && r != k :: !IsFull(b[r])
    ensures b == b[..k] + ([b[k]] + b[k + 1..])
    ensures NonFull(b[..k]) == b[..k] && FullCount(b[..k]) == 0
    ensures NonFull(b[k + 1..]) == b[k + 1..] && FullCount(b[k + 1..]) == 0
  {
    var above, below := b[..k], b[k + 1..];
    assert b == above + ([b[k]] + below);
    forall r | 0 <= r < |above|
      ensures !IsFull(above[r])
    {
      assert above[r] == b[r];
    }
    forall r | 0 <= r < |below|
      ensures !IsFull(below[r])
    {
      assert below[r] == b[k + 1 + r];
    }
    NoFullRowUnchanged(above);
    NoFullRowUnchanged(below);
  }

  lemma OneFullRowKept(b: Grid, k: nat)
    requires k < |b| && IsFull(b[k])
    requires forall r | 0 <= r < |b| && r != k :: !IsFull(b[r])
    ensures FullCount(b) == 1
    ensures NonFull(b) == b[..k] + b[k + 1..]
  {
    AroundOneFullRow(b, k);
    Splice(b[..k], b[k], b[k + 1..]);
  }

  /** A full row between two boards whose rows are all kept. */
  lemma Splice(above: Grid, row: seq<int>, below: Grid)
    requires IsFull(row)
    requires NonFull(above) == above && FullCount(above) == 0
    requires NonFull(below) == below && FullCount(below) == 0
    ensures NonFull(above + ([row] + below)) == above + below
    ensures FullCount(above + ([row] + below)) == 1
  {
    NonFullAppend(above, [row] + below);
    FullCountAppend(above, [row] + below);
    NonFullPrepend(row, below);
  }

  /** Putting one row in front of a board. */
  lemma NonFullPrepend(row: seq<int>, b: Grid)
    ensures NonFull([row] + b) == (if IsFull(row) then [] else [row]) + NonFull(b)
    ensures FullCount([row] + b) == (if IsFull(row) then 1 else 0) + FullCount(b)
  {
    NonFullAppend([row], b);
    FullCountAppend([row], b);
    assert [row][..0] == [];
  }

  lemma {:induction false} NonFullAppend(a: Grid, b: Grid)
    ensures NonFull(a + b) == NonFull(a) + NonFull(b)
    decreases |b|
  {
    if |b| == 0 {
      assert a + b == a;
    } else {
      var init, last := b[..|b| - 1], b[|b| - 1];
      var tail := if IsFull(last) then [] else [last];
      NonFullAppend(a, init);
      LastSplit(a, b);
      calc {
        NonFull(a + b);
        NonFull(a + init) + tail;
        (NonFull(a) + NonFull(init)) + tail;
        { assert (NonFull(a) + NonFull(init)) + tail == NonFull(a) + (NonFull(init) + tail); }
        NonFull(a) + NonFull(b);
      }
    }
  }

  /** The last row of `a + b` is the last row of `b`, and what precedes it is `a`
      followed by the rest of `b`. */
  lemma LastSplit(a: Grid, b: Grid)
    requires |b| > 0
    ensures (a + b)[..|a + b| - 1] == a + b[..|b| - 1]
    ensures (a + b)[|a + b| - 1] == b[|b| - 1]
  {
  }

  lemma {:induction false} FullCountAppend(a: Grid, b: Grid)
    ensures FullCount(a + b) == FullCount(a) + FullCount(b)
    decreases |b|
  {
    if |b| == 0 {
      assert a + b == a;
    } else {
      FullCountAppend(a, b[..|b| - 1]);
      LastSplit(a, b);
    }
  }

  /** Clearing inserts only empty rows, so a board of 0/1 cells stays one. */
  lemma ClearedKeepsBinary(b: Grid)
    requires Binary(b)
    ensures Binary(Cleared(b))
  {
    NonFullRows(b);
    var c := Cleared(b);
    var k := FullCount(b);
    forall r, col | 0 <= r < |c| && 0 <= col < |c[r]|
      ensures c[r][col] == 0 || c[r][col] == 1
    {
      if r >= k {
        assert c[r] in NonFull(b);
        var i :| 0 <= i < |b| && b[i] == c[r];
      }
    }
  }
}
