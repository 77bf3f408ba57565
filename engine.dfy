/**
 * The engine's in-place routines over 6 x 7 board arrays: gravity drops on scratch boards, board
 * copies, the legal-column scan, checkWin's line walk, and the recursive alpha-beta search with its
 * root move choice. Each is proved against the value-level definitions of Board, Terminal and Search.
 */
module Engine {
  import opened Board
  import opened Terminal
  import opened Evaluator
  import opened Search

  predicate IsBoard(a: array2<Cell>) {
    a.Length0 == ROWS && a.Length1 == COLS
  }

  /** The grid an array currently holds. */
  function Snapshot(a: array2<Cell>): (g: Grid)
    requires IsBoard(a)
    reads a
    ensures forall r, c :: InBounds(r, c) ==> g[r][c] == a[r, c]
  {
    seq(ROWS, r requires 0 <= r < ROWS reads a => seq(COLS, c requires 0 <= c < COLS reads a => a[r, c]))
  }

  /** board.map(r => r.slice()): a fresh array with the same contents. */
  method CopyBoard(b: array2<Cell>) returns (t: array2<Cell>)
    requires IsBoard(b)
    ensures fresh(t) && IsBoard(t) && Snapshot(t) == Snapshot(b)
  {
    t := new Cell[ROWS, COLS]((r, c) requires 0 <= r < ROWS && 0 <= c < COLS reads b => b[r, c]);
    GridExt(Snapshot(t), Snapshot(b));
  }

  /** board[r][c] = v: one cell of the array rewritten, every other cell kept. */
  method Store(b: array2<Cell>, r: int, c: int, v: Cell)
    requires IsBoard(b) && InBounds(r, c)
    modifies b
    ensures Snapshot(b) == SetCell(old(Snapshot(b)), r, c, v)
  {
    ghost var g := Snapshot(b);
    b[r, c] := v;
    GridExt(Snapshot(b), SetCell(g, r, c, v));
  }

  /**
   * simulateDrop: scans column `col` from the bottom row up and writes `p` into the first empty cell.
   * Succeeds exactly when the column has an empty cell; the board becomes the gravity drop.
   */
  method SimulateDrop(tb: array2<Cell>, col: int, p: Player) returns (ok: bool)
    requires IsBoard(tb) && 0 <= col < COLS
    modifies tb
    ensures ok <==> LandingRow(old(Snapshot(tb)), col).Some?
    ensures Snapshot(tb) == Dropped(old(Snapshot(tb)), col, p)
  {
    ghost var g := Snapshot(tb);
    var r := ROWS - 1;
    while r >= 0
      invariant -1 <= r < ROWS
      invariant ScanUp(g, col, r) == LandingRow(g, col)
      invariant Snapshot(tb) == g
    {
      if tb[r, col] == EMPTY {
        Store(tb, r, col, p);
        return true;
      }
      r := r - 1;
    }
    return false;
  }

  /** The validCols loop: columns 0..6 whose top cell is empty, in index order. */
  method ValidColumns(b: array2<Cell>) returns (cols: seq<int>)
    requires IsBoard(b)
    ensures cols == ValidCols(Snapshot(b))
  {
    ghost var g := Snapshot(b);
    cols := [];
    var c := 0;
    while c < COLS
      invariant 0 <= c <= COLS
      invariant cols + ColsFrom(g, c) == ColsFrom(g, 0)
    {
      if b[0, c] == EMPTY {
        assert ColsFrom(g, c) == [c] + ColsFrom(g, c + 1);
        cols := cols + [c];
      }
      c := c + 1;
    }
  }

  /** isBoardFull: every top-row cell is occupied. */
  method IsBoardFull(b: array2<Cell>) returns (full: bool)
    requires IsBoard(b)
    ensures full == IsFull(Snapshot(b))
  {
    var c := 0;
    while c < COLS
      invariant 0 <= c <= COLS
      invariant forall j :: 0 <= j < c ==> b[0, j] != EMPTY
    {
      if b[0, c] == EMPTY {
        return false;
      }
      c := c + 1;
    }
    return true;
  }

  /** One of checkWin's inner while loops: the cells from (r, c) along d that hold `p`. */
  method Walk(b: array2<Cell>, r: int, c: int, d: Dir, p: Cell) returns (run: seq<Pos>)
    requires IsBoard(b) && IsStep(d)
    ensures run == Run(Snapshot(b), r, c, d, p)
  {
    ghost var g := Snapshot(b);
    run := [];
    var rr, cc := r, c;
    while InBounds(rr, cc) && b[rr, cc] == p
      invariant run + Run(g, rr, cc, d, p) == Run(g, r, c, d, p)
      decreases Span(rr, cc, d)
    {
      assert Run(g, rr, cc, d, p) == [Pos(rr, cc)] + Run(g, rr + d.dr, cc + d.dc, d, p);
      assert run + Run(g, rr, cc, d, p) == (run + [Pos(rr, cc)]) + Run(g, rr + d.dr, cc + d.dc, d, p);
      run := run + [Pos(rr, cc)];
      rr, cc := rr + d.dr, cc + d.dc;
    }
  }

  /**
   * checkWin(r, c, p): for the axes H, V, DR, DL in turn, the origin, the forward walk and the backward
   * walk; the first such line with at least four cells, or none.
   */
  method CheckWin(b: array2<Cell>, r: int, c: int, p: Cell) returns (line: Option<seq<Pos>>)
    requires IsBoard(b)
    ensures line == WinLine(Snapshot(b), r, c, p)
  {
    ghost var g := Snapshot(b);
    var k := 0;
    while k < |AXES|
      invariant 0 <= k <= |AXES|
      invariant WinningAxis(g, r, c, p, AXES[k..]) == WinningAxis(g, r, c, p, AXES)
    {
      var cand := AxisLine(b, r, c, AXES[k], p);
      if |cand| >= 4 {
        return Some(cand);
      }
      assert AXES[k..][1..] == AXES[k + 1..];
      k := k + 1;
    }
    return None;
  }

  /** One axis of checkWin: the origin, the forward walk and the backward walk; as long as checkWinTemp's count. */
  method AxisLine(b: array2<Cell>, r: int, c: int, d: Dir, p: Cell) returns (line: seq<Pos>)
    requires IsBoard(b) && IsStep(d)
    ensures line == LineThrough(Snapshot(b), r, c, d, p)
    ensures |line| == CountThrough(Snapshot(b), r, c, d, p)
  {
    var fwd := Walk(b, r + d.dr, c + d.dc, d, p);
    var bwd := Walk(b, r - d.dr, c - d.dc, Neg(d), p);
    line := [Pos(r, c)] + fwd + bwd;
    LineLength(Snapshot(b), r, c, d, p);
  }

  /** A value computed on the board after the drop into legal column i is the value of child i. */
  lemma KidValue(g: Grid, depth: nat, maximizing: bool, i: int, h: Grid, v: int, alpha: int, beta: int)
    requires depth >= 1 && !ImmediateWin(g, AI) && !ImmediateWin(g, HUMAN) && 0 <= i < |ValidCols(g)|
    requires h == Child(g, ValidCols(g)[i], maximizing)
    requires v == AlphaBeta(GameTree(h, Plies(depth), !maximizing), !maximizing, alpha, beta)
    ensures GameTree(g, depth, maximizing).Node? && i < |GameTree(g, depth, maximizing).kids|
    ensures v == AlphaBeta(GameTree(g, depth, maximizing).kids[i], !maximizing, alpha, beta)
  {
    GameTreeKid(g, depth, maximizing, i);
  }

  /**
   * One iteration's child search: a fresh copy of `tb`, the mover's drop into legal column `col`, and the
   * recursive call one ply shallower with the other side to move. Returns the alpha-beta value of child i.
   */
  method SearchChild(tb: array2<Cell>, depth: nat, maximizing: bool, i: int, col: int, alpha: int, beta: int)
    returns (v: int)
    requires IsBoard(tb) && depth >= 1
    requires !ImmediateWin(Snapshot(tb), AI) && !ImmediateWin(Snapshot(tb), HUMAN)
    requires 0 <= i < |ValidCols(Snapshot(tb))| && col == ValidCols(Snapshot(tb))[i]
    ensures GameTree(Snapshot(tb), depth, maximizing).Node? && i < |GameTree(Snapshot(tb), depth, maximizing).kids|
    ensures v == AlphaBeta(GameTree(Snapshot(tb), depth, maximizing).kids[i], !maximizing, alpha, beta)
    decreases depth, 0
  {
    ghost var g := Snapshot(tb);
    var child := CopyBoard(tb);
    var _ := SimulateDrop(child, col, if maximizing then AI else HUMAN);
    assert Snapshot(child) == Child(g, col, maximizing);
    v := Minimax(child, Plies(depth), !maximizing, alpha, beta);
    KidValue(g, depth, maximizing, i, Snapshot(child), v, alpha, beta);
  }

  /**
   * minimax(tempBoard, depth, maximizing, alpha, beta): evaluates at depth 0, scores an AI or human
   * four-in-a-row, returns 0 with no legal column, and otherwise searches a fresh copy per column with
   * the alpha-beta loop. It never writes to `tb`, and returns the alpha-beta value of tb's game tree.
   */
  method Minimax(tb: array2<Cell>, depth: nat, maximizing: bool, alpha: int, beta: int) returns (v: int)
    requires IsBoard(tb)
    ensures v == AlphaBeta(GameTree(Snapshot(tb), depth, maximizing), maximizing, alpha, beta)
    decreases depth, 1
  {
    var g := Snapshot(tb);
    if depth == 0 {
      return Evaluate(g);
    }
    if ImmediateWin(g, AI) {
      return WIN;
    }
    if ImmediateWin(g, HUMAN) {
      return -WIN;
    }
    var cols := ValidColumns(tb);
    if cols == [] {
      return 0;
    }
    ghost var t := GameTree(g, depth, maximizing);
    assert t.Node? && |t.kids| == |cols|;
    var i := 0;
    if maximizing {
      var value, a := -INF, alpha;
      while i < |cols|
        invariant 0 <= i <= |cols|
        invariant MaxLoop(t, i, value, a, beta) == MaxLoop(t, 0, -INF, alpha, beta)
      {
        var r := SearchChild(tb, depth, true, i, cols[i], a, beta);
        value := Max(value, r);
        a := Max(a, value);
        if a >= beta {
          break;
        }
        i := i + 1;
      }
      return value;
    } else {
      var value, b := INF, beta;
      while i < |cols|
        invariant 0 <= i <= |cols|
        invariant MinLoop(t, i, value, alpha, b) == MinLoop(t, 0, INF, alpha, beta)
      {
        var r := SearchChild(tb, depth, false, i, cols[i], alpha, b);
        value := Min(value, r);
        b := Min(b, value);
        if alpha >= b {
          break;
        }
        i := i + 1;
      }
      return value;
    }
  }

  /** One root iteration of getBestMove: the AI drops into `col` on a copy, then minimax(temp, plies, false, -inf, inf). */
  method ScoreColumn(b: array2<Cell>, ghost g: Grid, col: int, plies: nat) returns (score: int)
    requires IsBoard(b) && g == Snapshot(b) && 0 <= col < COLS
    ensures score == Score(g, col, plies)
  {
    var temp := CopyBoard(b);
    var _ := SimulateDrop(temp, col, AI);
    assert Snapshot(temp) == Child(g, col, true);
    score := Minimax(temp, plies, false, -INF, INF);
    FullWindowValue(Snapshot(temp), plies, score);
  }

  /** On the engine's trees the full-window search value is the plain minimax value. */
  lemma FullWindowValue(h: Grid, plies: nat, score: int)
    requires score == AlphaBeta(GameTree(h, plies, false), false, -INF, INF)
    ensures score == Value(h, plies, false)
  {
    GameTreeWellFormed(h, plies, false);
    FullWindowExact(GameTree(h, plies, false), false);
  }

  /** One step of getBestMove's loop: the strict `>` update on the score of column i. */
  lemma BestFromStep(g: Grid, cols: seq<int>, i: int, plies: nat, bestScore: int, bestCol: int, score: int)
    requires ColsInRange(cols) && 0 <= i < |cols| && score == Score(g, cols[i], plies)
    ensures BestFrom(g, cols[i..], plies, bestScore, bestCol) ==
      if score > bestScore then BestFrom(g, cols[i + 1..], plies, score, cols[i])
      else BestFrom(g, cols[i + 1..], plies, bestScore, bestCol)
  {
    assert cols[i..][1..] == cols[i + 1..];
  }

  /**
   * getBestMove(depth): null when no column is legal; otherwise the first legal column whose score is
   * strictly greater than every earlier one, starting from -inf. Equal to BestMove on the board.
   */
  method GetBestMove(b: array2<Cell>, depth: nat) returns (col: Option<int>)
    requires IsBoard(b) && depth >= 1
    ensures col == BestMove(Snapshot(b), depth)
  {
    var plies := Plies(depth);
    var cols := ValidColumns(b);
    ghost var g := Snapshot(b);
    if cols == [] {
      return None;
    }
    var bestScore, bestCol := -INF, cols[0];
    var i := 0;
    assert cols[i..] == cols;
    while i < |cols|
      invariant 0 <= i <= |cols|
      invariant BestFrom(g, cols[i..], plies, bestScore, bestCol) == BestFrom(g, cols, plies, -INF, cols[0])
    {
      var score := ScoreColumn(b, g, cols[i], plies);
      BestFromStep(g, cols, i, plies, bestScore, bestCol, score);
      if score > bestScore {
        bestScore, bestCol := score, cols[i];
      }
      i := i + 1;
    }
    return Some(bestCol);
  }

  /** getRandomMove with the random index supplied by the caller. */
  method RandomMove(b: array2<Cell>, pick: nat) returns (col: Option<int>)
    requires IsBoard(b)
    ensures col == RandomPick(Snapshot(b), pick)
  {
    var moves := ValidColumns(b);
    if moves == [] {
      return None;
    }
    return Some(moves[pick % |moves|]);
  }

  /** aiMove's column choice: the difficulty dispatch with getRandomMove as the fallback. */
  method AiChoice(b: array2<Cell>, diff: Difficulty, pick: nat) returns (col: Option<int>)
    requires IsBoard(b)
    ensures col == Choose(Snapshot(b), diff, pick)
  {
    if diff == Easy {
      col := RandomMove(b, pick);
    } else if diff == Medium {
      col := GetBestMove(b, 2);
    } else {
      col := GetBestMove(b, 4);
    }
    if col.None? {
      col := RandomMove(b, pick);
    }
  }
}
