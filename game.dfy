/** The game: the board of the window's size, the falling piece, and one tick
    of the main loop (events, then gravity, lock, line clearing and spawn). */
module Tetris {
  import opened Grids
  import opened Shapes
  import opened Placement
  import opened Lines

  const ScreenWidth: nat := 300
  const ScreenHeight: nat := 600
  const BlockSize: nat := 30
  /** 10 columns and 20 rows of 30-pixel blocks. */
  const Columns: nat := ScreenWidth / BlockSize
  const Rows: nat := ScreenHeight / BlockSize

  /** Where every new piece appears: column 5, row 0. */
  const Spawn: Offset := Offset(5, 0)

  /** `init_game`: the board of `Rows` rows of `Columns` empty cells. */
  function InitGame(): (b: Grid)
    ensures |b| == Rows == 20 && Rectangular(b) && Width(b) == Columns == 10
    ensures Binary(b) && Occupied(b) == {}
  {
    EmptyGrid(Rows, Columns)
  }

  datatype Key = Left | Right | Down | Up | OtherKey

  /** One entry of the window's event queue. */
  datatype Event = Quit | KeyDown(key: Key) | OtherEvent

  /** The loop's variables: `board`, `current_shape`, `current_pos`, `game_over`. */
  datatype GameState = GameState(board: Grid, shape: Grid, pos: Offset, over: bool)

  /** The shape and position an arrow key asks for; other keys ask for nothing new. */
  function Proposed(s: GameState, k: Key): GameState {
    match k
    case Left => s.(pos := Offset(s.pos.col - 1, s.pos.row))
    case Right => s.(pos := Offset(s.pos.col + 1, s.pos.row))
    case Down => s.(pos := Offset(s.pos.col, s.pos.row + 1))
    case Up => s.(shape := Rotate(s.shape))
    case OtherKey => s
  }

  /** One event: QUIT ends the game; an arrow key is applied only when the piece
      fits where it asks to go. */
  function HandleEvent(s: GameState, e: Event): GameState {
    match e
    case Quit => s.(over := true)
    case OtherEvent => s
    case KeyDown(k) =>
      var p := Proposed(s, k);
      if Fits(s.board, p.shape, p.pos) then p else s
  }

  /** All events of one tick, in order. */
  function HandleEvents(s: GameState, es: seq<Event>): GameState {
    if |es| == 0 then s else HandleEvent(HandleEvents(s, es[..|es| - 1]), es[|es| - 1])
  }

  /** The piece locks where it is, full rows are cleared and `next` appears at
      the spawn position; the game is over when it does not fit there. */
  function Lock(s: GameState, next: Grid): GameState {
    var b := Cleared(Stamp(s.board, s.shape, s.pos));
    GameState(b, next, Spawn, !Fits(b, next, Spawn))
  }

  /** Gravity: one row down when the piece fits there, otherwise it locks. */
  function Fall(s: GameState, next: Grid): GameState {
    var down := Offset(s.pos.col, s.pos.row + 1);
    if Fits(s.board, s.shape, down) then s.(pos := down) else Lock(s, next)
  }

  /** One iteration of the main loop with the tick's events and the shape that
      would be drawn next. */
  function Step(s: GameState, es: seq<Event>, next: Grid): GameState {
    var t := HandleEvents(s, es);
    if t.over then t else Fall(t, next)
  }

  /** The input of one tick. */
  datatype TickInput = TickInput(events: seq<Event>, next: Grid)

  /** The main loop: ticks until the game is over or the inputs run out. */
  function Run(s: GameState, inputs: seq<TickInput>): GameState
    decreases |inputs|
  {
    if |inputs| == 0 || s.over then s
    else Run(Step(s, inputs[0].events, inputs[0].next), inputs[1..])
  }

  /** The board keeps the window's size and holds only 0 and 1, and while the
      game runs the piece is at a valid position on or below the top row. */
  predicate Inv(s: GameState) {
    |s.board| == Rows && Rectangular(s.board) && Width(s.board) == Columns && Binary(s.board) &&
    (!s.over ==> Fits(s.board, s.shape, s.pos) && s.pos.row >= 0)
  }

  /** A shape no wider than the columns right of the spawn column fits at the
      spawn position of the empty board. */
  lemma SpawnFitsOnEmptyBoard(shape: Grid)
    requires |shape| <= Rows
    requires forall y | 0 <= y < |shape| :: |shape[y]| <= Columns - Spawn.col
    ensures Fits(InitGame(), shape, Spawn)
  {
    var b := InitGame();
    forall y, x | 0 <= y < |shape| && 0 <= x < |shape[y]| && shape[y][x] != 0
      ensures CellFits(b, Spawn.row + y, Spawn.col + x)
    {
      assert b[y] == EmptyRow(Columns);
    }
  }

  /** Every catalog shape can start on the empty board: the first piece is valid. */
  lemma InitialStateValid(first: Grid)
    requires first in Catalog()
    ensures Inv(GameState(InitGame(), first, Spawn, false))
  {
    SpawnFitsOnEmptyBoard(first);
  }

  /** An arrow key whose target does not fit changes nothing; one whose target
      fits moves or turns the piece and nothing else. */
  lemma KeyOutcome(s: GameState, k: Key)
    ensures var p := Proposed(s, k);
            !Fits(s.board, p.shape, p.pos) ==> HandleEvent(s, KeyDown(k)) == s
    ensures var p := Proposed(s, k);
            var t := HandleEvent(s, KeyDown(k));
            Fits(s.board, p.shape, p.pos) ==>
              t.board == s.board && t.over == s.over &&
              (k != Up ==> t.shape == s.shape && t.pos == p.pos) &&
              (k == Up ==> t.pos == s.pos && t.shape == Rotate(s.shape))
  {
  }

  /** An event never touches the board, sets the flag only on QUIT, and keeps the invariant. */
  lemma HandleEventKeeps(s: GameState, e: Event)
    ensures HandleEvent(s, e).board == s.board
    ensures HandleEvent(s, e).over == (s.over || e == Quit)
    ensures Inv(s) ==> Inv(HandleEvent(s, e))
  {
  }

  /** The events of a tick never touch the board, end the game exactly when one
      of them is QUIT, and keep the invariant. */
  lemma {:induction false} HandleEventsKeeps(s: GameState, es: seq<Event>)
    ensures HandleEvents(s, es).board == s.board
    ensures HandleEvents(s, es).over == (s.over || Quit in es)
    ensures Inv(s) ==> Inv(HandleEvents(s, es))
  {
    if |es| > 0 {
      var init := es[..|es| - 1];
      HandleEventsKeeps(s, init);
      HandleEventKeeps(HandleEvents(s, init), es[|es| - 1]);
      assert es == init + [es[|es| - 1]];
    }
  }

  /** Locking a piece at a valid position adds exactly its cells to the board
      before lines are cleared. */
  lemma LockAddsPieceCells(s: GameState)
    requires Inv(s) && !s.over
    ensures |Occupied(Stamp(s.board, s.shape, s.pos))| == |Occupied(s.board)| + |Occupied(s.shape)|
  {
    StampAddsPieceCells(s.board, s.shape, s.pos);
  }

  /** Locking keeps the board's size and its 0/1 cells, and the new piece is valid
      unless the game is over. */
  lemma LockKeepsInv(s: GameState, next: Grid)
    requires Inv(s) && !s.over
    ensures Inv(Lock(s, next))
  {
    var stamped := Stamp(s.board, s.shape, s.pos);
    StampKeepsDimensions(s.board, s.shape, s.pos);
    StampKeepsBinary(s.board, s.shape, s.pos);
    ClearedDimensions(stamped);
    ClearedKeepsBinary(stamped);
  }

  /** A running game stays consistent over a tick. */
  lemma StepKeepsInv(s: GameState, es: seq<Event>, next: Grid)
    requires Inv(s) && !s.over
    ensures Inv(Step(s, es, next))
  {
    HandleEventsKeeps(s, es);
    var t := HandleEvents(s, es);
    if !t.over && !Fits(t.board, t.shape, Offset(t.pos.col, t.pos.row + 1)) {
      LockKeepsInv(t, next);
    }
  }

  /** The game ends in a tick exactly when a QUIT event arrives or the piece
      locks and the next shape does not fit at the spawn position. */
  lemma GameOverCause(s: GameState, es: seq<Event>, next: Grid)
    requires !s.over
    ensures var t := HandleEvents(s, es);
            Step(s, es, next).over <==>
              Quit in es ||
              (!Fits(t.board, t.shape, Offset(t.pos.col, t.pos.row + 1)) &&
               !Fits(Cleared(Stamp(t.board, t.shape, t.pos)), next, Spawn))
  {
    HandleEventsKeeps(s, es);
  }

  /** However many ticks run, the state stays consistent. */
  lemma {:induction false} RunKeepsInv(s: GameState, inputs: seq<TickInput>)
    requires Inv(s)
    ensures Inv(Run(s, inputs))
    decreases |inputs|
  {
    if |inputs| > 0 && !s.over {
      StepKeepsInv(s, inputs[0].events, inputs[0].next);
      RunKeepsInv(Step(s, inputs[0].events, inputs[0].next), inputs[1..]);
    }
  }

  /** The state `game_loop` keeps in its local variables. The colour of the
      falling piece only matters to drawing and is not kept. */
  class Game {
    const board: Board
    var shape: Grid
    var pos: Offset
    var gameOver: bool

    ghost function State(): GameState
      reads this, board
    {
      GameState(board.rows, shape, pos, gameOver)
    }

    ghost predicate Valid()
      reads this, board
    {
      Inv(State())
    }

    /** The start of `game_loop`: an empty board and the first shape at the spawn position. */
    constructor (first: Grid)
      requires first in Catalog()
      ensures Valid() && fresh(board)
      ensures State() == GameState(InitGame(), first, Spawn, false)
    {
      board := new Board(InitGame());
      shape := first;
      pos := Spawn;
      gameOver := false;
      new;
      InitialStateValid(first);
    }

    /** One iteration of the `while not game_over` loop, without drawing. */
    method Tick(events: seq<Event>, next: Grid)
      requires Valid() && !gameOver
      modifies this, board
      ensures Valid()
      ensures State() == Step(old(State()), events, next)
    {
      var i := 0;
      while i < |events|
        invariant 0 <= i <= |events|
        invariant Valid()
        invariant State() == HandleEvents(old(State()), events[..i])
      {
        ApplyEvent(events[i]);
        assert events[..i + 1][..i] == events[..i];
        i := i + 1;
      }
      assert events[..|events|] == events;
      if !gameOver {
        Gravity(next);
      }
    }

    /** The body of the event loop for one event. */
    method ApplyEvent(e: Event)
      requires Valid()
      modifies this
      ensures Valid()
      ensures State() == HandleEvent(old(State()), e)
    {
      match e {
        case Quit =>
          gameOver := true;
        case OtherEvent =>
        case KeyDown(k) =>
          match k {
            case Left =>
              TryPlace(shape, Offset(pos.col - 1, pos.row));
            case Right =>
              TryPlace(shape, Offset(pos.col + 1, pos.row));
            case Down =>
              TryPlace(shape, Offset(pos.col, pos.row + 1));
            case Up =>
              TryPlace(Rotate(shape), pos);
            case OtherKey =>
          }
      }
    }

    /** Moves or turns the piece only when `valid_move` accepts the new shape and position. */
    method TryPlace(newShape: Grid, newPos: Offset)
      requires Valid() && newPos.row >= pos.row
      modifies this
      ensures Valid()
      ensures State() == if Fits(old(board.rows), newShape, newPos)
                         then old(State()).(shape := newShape, pos := newPos)
                         else old(State())
    {
      var ok := ValidMove(board.rows, newShape, newPos);
      if ok {
        shape, pos := newShape, newPos;
      }
    }

    /** Gravity: one row down, or lock when the piece cannot go down. */
    method Gravity(next: Grid)
      requires Valid() && !gameOver
      modifies this, board
      ensures Valid()
      ensures State() == Fall(old(State()), next)
    {
      var down := Offset(pos.col, pos.row + 1);
      var ok := ValidMove(board.rows, shape, down);
      if ok {
        pos := down;
      } else {
        LockPiece(next);
      }
    }

    /** Place the piece, clear full lines, spawn the next shape; the game is over
        when that shape does not fit. */
    method LockPiece(next: Grid)
      requires Valid() && !gameOver
      modifies this, board
      ensures Valid()
      ensures State() == Lock(old(State()), next)
    {
      ghost var s := State();
      LockKeepsInv(s, next);
      FitsLands(board.rows, shape, pos);
      StampKeepsDimensions(board.rows, shape, pos);
      PlaceShape(board, shape, pos);
      var cleared := ClearLines(board);
      shape := next;
      pos := Spawn;
      var fits := ValidMove(board.rows, shape, pos);
      if !fits {
        gameOver := true;
      }
    }

    /** `game_loop`'s `while not game_over` loop over the given ticks; returns how
        many ticks ran. */
    method Play(inputs: seq<TickInput>) returns (ticks: nat)
      requires Valid()
      modifies this, board
      ensures Valid()
      ensures State() == Run(old(State()), inputs)
      ensures ticks <= |inputs| && (ticks < |inputs| ==> gameOver)
    {
      ticks := 0;
      while ticks < |inputs| && !gameOver
        invariant 0 <= ticks <= |inputs|
        invariant Valid()
        invariant Run(State(), inputs[ticks..]) == Run(old(State()), inputs)
      {
        assert inputs[ticks..][1..] == inputs[ticks + 1..];
        Tick(inputs[ticks].events, inputs[ticks].next);
        ticks := ticks + 1;
      }
    }
  }
}
