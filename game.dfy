/**
 * The live game: the board array, the move history, the side to move, the game-over flag and the two
 * win counters, with the drop, undo, reset and AI-move operations that update them in place.
 */
module Game {
  import opened Board
  import opened Terminal
  import opened Search
  import opened Engine

  /** One history entry: the row and column a token landed in and who dropped it. */
  datatype Move = Move(r: int, c: int, player: Player)

  /** What the game variables hold between moves: the grid, the game-over flag and the side to move. */
  datatype State = State(grid: Grid, over: bool, current: Player)

  /** resetBoard's state: an empty grid, the game running, red to move. */
  function Start(): State {
    State(EmptyGrid(), false, HUMAN)
  }

  /** The token of the side to move, written at (r, c), completes a line of four through that cell. */
  predicate Wins(s: State, r: int, c: int) {
    WinningAxis(SetCell(s.grid, r, c, s.current), r, c, s.current, AXES).Some?
  }

  /**
   * columnDrop once the token of the side to move has landed on (r, c): the game is over after a win
   * or when the top row is full, and otherwise the turn passes to the other side.
   */
  function Landed(s: State, r: int, c: int): State {
    var g := SetCell(s.grid, r, c, s.current);
    var over := Wins(s, r, c) || IsFull(g);
    State(g, over, if over then s.current else Opponent(s.current))
  }

  /** A drop is one columnDrop accepts: the game runs and the row is where gravity puts the token. */
  predicate CanLand(s: State, r: int, c: int) {
    !s.over && 0 <= c < COLS && LandingRow(s.grid, c) == Some(r)
  }

  /**
   * The state a move history leads to from resetBoard, or None when one of its moves is not a drop
   * columnDrop would make at that point (wrong player, wrong row, or after the game is over).
   */
  function Play(h: seq<Move>): Option<State>
    decreases |h|
  {
    if h == [] then Some(Start())
    else
      var m := h[|h| - 1];
      match Play(h[..|h| - 1])
      case None => None
      case Some(s) =>
        if m.player == s.current && CanLand(s, m.r, m.c) then Some(Landed(s, m.r, m.c)) else None
  }

  /** Who drops the n-th token (counting from 0): red first, then alternating. */
  function Turn(n: nat): Player {
    if n % 2 == 0 then HUMAN else AI
  }

  /** Turns alternate. */
  lemma TurnNext(n: nat)
    ensures Turn(n + 1) == Opponent(Turn(n))
  {
    if n % 2 == 0 {
      assert (n + 1) % 2 == 1;
    } else {
      assert (n + 1) % 2 == 0;
    }
  }

  /** The grid obtained by writing every recorded move, in order, onto an empty board. */
  function Replay(h: seq<Move>): Grid
    decreases |h|
  {
    if h == [] then EmptyGrid()
    else
      var m := h[|h| - 1];
      SetCell(Replay(h[..|h| - 1]), m.r, m.c, m.player)
  }

  /** The game is over after a move that completes a line through its cell, or that fills the top row. */
  predicate Ended(h: seq<Move>) {
    h != [] &&
    var m := h[|h| - 1];
    WinLine(Replay(h), m.r, m.c, m.player).Some? || IsFull(Replay(h))
  }

  /**
   * The drop lands where gravity puts it; the game then ends with a win exactly when the new token lies
   * on a four-in-a-row of its owner, and otherwise with a draw exactly when the top row is full.
   */
  lemma LandedSpec(s: State, r: int, c: int)
    requires 0 <= c < COLS && LandingRow(s.grid, c) == Some(r)
    ensures Landed(s, r, c).grid == Dropped(s.grid, c, s.current)
    ensures Wins(s, r, c) <==> OnFour(Landed(s, r, c).grid, r, c, s.current)
    ensures Landed(s, r, c).over <==> Wins(s, r, c) || IsFull(Landed(s, r, c).grid)
    ensures !Landed(s, r, c).over ==> Landed(s, r, c).current == Opponent(s.current)
  {
    LandingRowSpec(s.grid, c);
    var g := SetCell(s.grid, r, c, s.current);
    WinLineIffWinAt(g, r, c, s.current);
    WinAtSpec(g, r, c, s.current);
  }

  /** Clearing the cell of a drop gives back the grid from before it. */
  lemma LandedThenClear(s: State, r: int, c: int)
    requires 0 <= c < COLS && LandingRow(s.grid, c) == Some(r)
    ensures InBounds(r, c) && SetCell(Landed(s, r, c).grid, r, c, EMPTY) == s.grid
  {
    LandingRowSpec(s.grid, c);
    DropThenClear(s.grid, c, s.current);
  }

  /** Playing one more accepted drop extends the history by that move. */
  lemma PlayStep(h: seq<Move>, r: int, c: int)
    requires Play(h).Some? && CanLand(Play(h).value, r, c)
    ensures Play(h + [Move(r, c, Play(h).value.current)]) == Some(Landed(Play(h).value, r, c))
  {
    var h' := h + [Move(r, c, Play(h).value.current)];
    assert h'[..|h'| - 1] == h;
  }

  /** Once the game is over no history extends it. */
  lemma PlayFrozen(h: seq<Move>, m: Move)
    requires Play(h).Some? && Play(h).value.over
    ensures Play(h + [m]) == None
  {
    var h' := h + [m];
    assert h'[..|h'| - 1] == h;
  }

  /**
   * Popping the last move of a running game clears its cell, which is on the board, and gives back the
   * state before that move: the game running and that move's player to move.
   */
  lemma PlayUndo(h: seq<Move>)
    requires Play(h).Some? && h != [] && !Play(h).value.over
    ensures var m := h[|h| - 1];
      InBounds(m.r, m.c) &&
      Play(h[..|h| - 1]) == Some(State(SetCell(Play(h).value.grid, m.r, m.c, EMPTY), false, m.player))
  {
    var m := h[|h| - 1];
    var s := Play(h[..|h| - 1]).value;
    LandedThenClear(s, m.r, m.c);
  }

  /** The grid of a played history is the replay of its moves, and the game is over exactly when it ended. */
  lemma {:induction false} PlayReplays(h: seq<Move>)
    requires Play(h).Some?
    ensures Play(h).value.grid == Replay(h) && (Play(h).value.over <==> Ended(h))
    decreases |h|
  {
    if h != [] {
      PlayReplays(h[..|h| - 1]);
    }
  }

  /** No played history leaves a token floating above an empty cell. */
  lemma {:induction false} PlayNoFloating(h: seq<Move>)
    requires Play(h).Some?
    ensures NoFloating(Play(h).value.grid)
    decreases |h|
  {
    if h != [] {
      var m, s := h[|h| - 1], Play(h[..|h| - 1]).value;
      PlayNoFloating(h[..|h| - 1]);
      LandedSpec(s, m.r, m.c);
      DropKeepsNoFloating(s.grid, m.c, s.current);
    } else {
      assert forall r, c :: InBounds(r, c) ==> Play(h).value.grid[r][c] == EMPTY;
    }
  }

  /**
   * While the game runs it is Turn of the history's length to move; once it is over the side to move is
   * still the last mover.
   */
  lemma {:induction false} PlayToMove(h: seq<Move>)
    requires Play(h).Some?
    ensures var s := Play(h).value;
      s.current == if s.over then h[|h| - 1].player else Turn(|h|)
    decreases |h|
  {
    if h != [] {
      PlayToMove(h[..|h| - 1]);
      TurnNext(|h| - 1);
    }
  }

  /** The last move of a history that plays was made by the side whose turn it was. */
  lemma PlayLast(h: seq<Move>)
    requires h != [] && Play(h).Some?
    ensures h[|h| - 1].player == Turn(|h| - 1)
  {
    var prefix := h[..|h| - 1];
    assert Play(prefix).Some? && !Play(prefix).value.over && h[|h| - 1].player == Play(prefix).value.current;
    PlayToMove(prefix);
  }

  /** Moves alternate, red first: the i-th move is made by Turn(i). */
  lemma {:induction false} PlayAlternates(h: seq<Move>)
    requires Play(h).Some?
    ensures forall i :: 0 <= i < |h| ==> h[i].player == Turn(i)
    decreases |h|
  {
    if h != [] {
      var prefix := h[..|h| - 1];
      PlayAlternates(prefix);
      PlayLast(h);
      AlternatesStep(h);
    }
  }

  /** Moves 0..n-1 alternate when moves 0..n-2 do and move n-1 is Turn(n - 1). */
  lemma AlternatesStep(h: seq<Move>)
    requires h != [] && h[|h| - 1].player == Turn(|h| - 1)
    requires forall i :: 0 <= i < |h| - 1 ==> h[..|h| - 1][i].player == Turn(i)
    ensures forall i :: 0 <= i < |h| ==> h[i].player == Turn(i)
  {
    forall i | 0 <= i < |h| ensures h[i].player == Turn(i) {
      if i < |h| - 1 {
        assert h[i] == h[..|h| - 1][i];
      }
    }
  }

  /** All of the page's game variables: the state, the move stack and the two win counters. */
  datatype Session = Session(state: State, history: seq<Move>, p1: nat, p2: nat)

  /** The session's state is the one its move history leads to. */
  predicate Inv(s: Session) {
    Play(s.history) == Some(s.state)
  }

  /**
   * columnDrop once the lowest empty cell (r, c) of the column is found: the token of the side to move
   * lands there, the move is pushed, and a win gives its owner a point.
   */
  function Landing(s: Session, r: int, c: int): Session {
    var p := s.state.current;
    var won := Wins(s.state, r, c);
    Session(Landed(s.state, r, c), s.history + [Move(r, c, p)],
            s.p1 + (if won && p == HUMAN then 1 else 0), s.p2 + (if won && p == AI then 1 else 0))
  }

  /** columnDrop(col): None when it refuses (the game is over, or the column is off the board or full). */
  function ColumnDropped(s: Session, col: int): Option<Session> {
    if s.state.over || !(0 <= col < COLS) then None
    else
      match LandingRow(s.state.grid, col)
      case None => None
      case Some(r) => Some(Landing(s, r, col))
  }

  /**
   * The undo button: nothing with an empty history or once the game is over; otherwise the last move is
   * popped, its cell cleared, the game running and that move's player to move again.
   */
  function Undone(s: Session): Session {
    if s.history == [] || s.state.over then s
    else
      var m := s.history[|s.history| - 1];
      Session(State(SetCell(s.state.grid, m.r, m.c, EMPTY), false, m.player),
              s.history[..|s.history| - 1], s.p1, s.p2)
  }

  /**
   * columnDrop accepts a column exactly when the game runs and the column's top cell is empty; the new
   * session is again the one its history leads to.
   */
  lemma DropKeepsInv(s: Session, col: int)
    requires Inv(s)
    ensures ColumnDropped(s, col).Some? <==> !s.state.over && 0 <= col < COLS && s.state.grid[0][col] == EMPTY
    ensures ColumnDropped(s, col).Some? ==> Inv(ColumnDropped(s, col).value)
  {
    PlayNoFloating(s.history);
    if 0 <= col < COLS {
      LandingIffTopEmpty(s.state.grid, col);
      if ColumnDropped(s, col).Some? {
        PlayStep(s.history, LandingRow(s.state.grid, col).value, col);
      }
    }
  }

  /**
   * What an accepted drop does: the grid is the gravity drop, the move is pushed, the mover's own
   * counter (p1 for red, p2 for the AI) gains a point exactly when the new token lies on a four-in-a-row
   * of its owner and no other counter changes, the game is over exactly after such a win or when the top
   * row is full, and otherwise the turn passes.
   */
  lemma DropSpec(s: Session, col: int)
    requires ColumnDropped(s, col).Some?
    ensures var t, r, p := ColumnDropped(s, col).value, LandingRow(s.state.grid, col).value, s.state.current;
      t.state.grid == Dropped(s.state.grid, col, p) && t.history == s.history + [Move(r, col, p)] &&
      (OnFour(t.state.grid, r, col, p) ==>
        if p == HUMAN then t.p1 == s.p1 + 1 && t.p2 == s.p2 else t.p2 == s.p2 + 1 && t.p1 == s.p1) &&
      (!OnFour(t.state.grid, r, col, p) ==> t.p1 == s.p1 && t.p2 == s.p2) &&
      (t.state.over <==> OnFour(t.state.grid, r, col, p) || IsFull(t.state.grid)) &&
      (!t.state.over ==> t.state.current == Opponent(p))
  {
    LandedSpec(s.state, LandingRow(s.state.grid, col).value, col);
  }

  /** Undo keeps the session consistent with its history, and the cell it clears is on the board. */
  lemma UndoKeepsInv(s: Session)
    requires Inv(s)
    ensures s.history != [] ==> InBounds(s.history[|s.history| - 1].r, s.history[|s.history| - 1].c)
    ensures Inv(Undone(s))
  {
    if s.history != [] {
      var m, s0 := s.history[|s.history| - 1], Play(s.history[..|s.history| - 1]).value;
      LandingRowSpec(s0.grid, m.c);
      if !s.state.over {
        PlayUndo(s.history);
      }
    }
  }

  /**
   * Undo is the inverse of a drop that leaves the game running: it gives back the session from before
   * the drop. After a drop that ends the game, undo changes nothing.
   */
  lemma UndoAfterDrop(s: Session, col: int)
    requires ColumnDropped(s, col).Some?
    ensures !ColumnDropped(s, col).value.state.over ==> Undone(ColumnDropped(s, col).value) == s
    ensures ColumnDropped(s, col).value.state.over ==> Undone(ColumnDropped(s, col).value) == ColumnDropped(s, col).value
  {
    var r := LandingRow(s.state.grid, col).value;
    var t := ColumnDropped(s, col).value;
    LandedThenClear(s.state, r, col);
    assert t.history[..|t.history| - 1] == s.history;
  }

  class ConnectFour {
    var board: array2<Cell>
    var history: seq<Move>
    var current: Player
    var gameOver: bool
    var p1Score: nat
    var p2Score: nat

    /** The game variables as one value. */
    ghost function Now(): Session
      reads this, board
      requires IsBoard(board)
    {
      Session(State(Snapshot(board), gameOver, current), history, p1Score, p2Score)
    }

    /** The board array has the game's shape and the game variables are what the move history leads to. */
    ghost predicate Valid()
      reads this, board
    {
      IsBoard(board) && Inv(Now())
    }

    /** The initial page state: scores 0, then resetBoard. */
    constructor ()
      ensures Valid() && fresh(board) && Now() == Session(Start(), [], 0, 0)
    {
      board := new Cell[ROWS, COLS]((r, c) => EMPTY);
      history := [];
      current := HUMAN;
      gameOver := false;
      p1Score, p2Score := 0, 0;
      new;
      GridExt(Snapshot(board), EmptyGrid());
    }

    /** resetBoard: a fresh empty board, no history, red to move, the game running; the scores are kept. */
    method Reset()
      modifies this
      ensures Valid() && fresh(board) && Now() == Session(Start(), [], old(p1Score), old(p2Score))
    {
      board := new Cell[ROWS, COLS]((r, c) => EMPTY);
      history := [];
      current := HUMAN;
      gameOver := false;
      GridExt(Snapshot(board), EmptyGrid());
    }

    /** columnDrop(col): scans the column bottom-up and lands the token on the first empty cell. */
    method ColumnDrop(col: int) returns (ok: bool)
      requires Valid()
      modifies this, board
      ensures Valid() && board == old(board)
      ensures ok == ColumnDropped(old(Now()), col).Some?
      ensures Now() == if ok then ColumnDropped(old(Now()), col).value else old(Now())
    {
      if gameOver {
        return false;
      }
      ghost var g := Snapshot(board);
      var r := ROWS - 1;
      while r >= 0
        invariant -1 <= r < ROWS
        invariant 0 <= col < COLS ==> ScanUp(g, col, r) == LandingRow(g, col)
      {
        if 0 <= col < COLS && board[r, col] == EMPTY {
          Land(r, col);
          return true;
        }
        r := r - 1;
      }
      return false;
    }

    /** The body of columnDrop once the lowest empty cell (r, col) is found: place, push, settle. */
    method Land(r: int, col: int)
      requires Valid() && CanLand(Now().state, r, col)
      modifies this, board
      ensures Valid() && board == old(board) && Now() == Landing(old(Now()), r, col)
    {
      ghost var s := Now();
      PlayStep(history, r, col);
      var p := current;
      Store(board, r, col, p);
      history := history + [Move(r, col, p)];
      Settle(s, r, col);
    }

    /**
     * The rest of columnDrop once the token of the side to move is on (r, col) and pushed: a line through
     * it ends the game with a point to its owner, otherwise a full top row ends it, otherwise the turn
     * passes.
     */
    method Settle(ghost s: Session, r: int, col: int)
      requires IsBoard(board)
      requires Now() == Session(State(SetCell(s.state.grid, r, col, s.state.current), false, s.state.current),
                                s.history + [Move(r, col, s.state.current)], s.p1, s.p2)
      modifies this
      ensures board == old(board) && Now() == Landing(s, r, col)
    {
      var win := CheckWin(board, r, col, current);
      if win.Some? {
        gameOver := true;
        if current == HUMAN {
          p1Score := p1Score + 1;
        } else {
          p2Score := p2Score + 1;
        }
      } else {
        var full := IsBoardFull(board);
        if full {
          gameOver := true;
        } else {
          current := Opponent(current);
        }
      }
    }

    /** The undo button: refused with an empty history or once the game is over. */
    method Undo()
      requires Valid()
      modifies this, board
      ensures Valid() && board == old(board) && Now() == Undone(old(Now()))
    {
      if |history| == 0 || gameOver {
        return;
      }
      UndoKeepsInv(Now());
      Pop();
    }

    /** The accepted undo: pop the last move, clear its cell, hand the turn back to its player. */
    method Pop()
      requires IsBoard(board) && history != [] && !gameOver
      requires InBounds(history[|history| - 1].r, history[|history| - 1].c)
      modifies this, board
      ensures board == old(board) && Now() == Undone(old(Now()))
    {
      var last := history[|history| - 1];
      history := history[..|history| - 1];
      Store(board, last.r, last.c, EMPTY);
      current := last.player;
    }

    /**
     * aiMove: nothing while the game is over; otherwise the column the difficulty level chooses (a random
     * legal column for easy, getBestMove(2) for medium, getBestMove(4) for hard, a random legal column
     * when the search gives none) is dropped into. The drop is always accepted, and only a full board
     * leaves no column to drop into.
     */
    method AiMove(diff: Difficulty, pick: nat) returns (col: Option<int>, ok: bool)
      requires Valid()
      modifies this, board
      ensures Valid() && board == old(board)
      ensures col == if old(gameOver) then None else Choose(old(Snapshot(board)), diff, pick)
      ensures !old(gameOver) ==> (ok <==> !IsFull(old(Snapshot(board))))
      ensures ok == col.Some? && (ok ==> ColumnDropped(old(Now()), col.value).Some?)
      ensures Now() == if ok then ColumnDropped(old(Now()), col.value).value else old(Now())
    {
      if gameOver {
        return None, false;
      }
      ghost var s := Now();
      col := AiChoice(board, diff, pick);
      ChooseSpec(s.state.grid, diff, pick);
      if col.None? {
        return col, false;
      }
      DropKeepsInv(s, col.value);
      ok := ColumnDrop(col.value);
    }
  }
}
