/**
 * The game-tree search as values. GameTree is the tree the engine's minimax explores from a board
 * (terminal tests in the engine's order, children in column order); Value is plain minimax over it,
 * AlphaBeta the engine's loop with its cut and window updates, and BestFrom/BestMove the root choice.
 * The AI (-1) is the maximizing side; the human (1) is the minimizing side.
 */
module Search {
  import opened Board
  import opened Terminal
  import opened Evaluator

  /** The score of a position already won by the AI (negated for the human). */
  const WIN: int := 1000000
  /** Stands in for the unbounded initial window and accumulators; beyond every reachable score. */
  const INF: int := 2000000

  function Max(a: int, b: int): int { if a >= b then a else b }
  function Min(a: int, b: int): int { if a <= b then a else b }

  /** A search tree: a scored leaf, or an inner node whose children are in column order. */
  datatype Tree = Leaf(score: int) | Node(kids: seq<Tree>)

  /** The board after the AI (maximizing) or the human (minimizing) drops into `col`. */
  function Child(g: Grid, col: int, maximizing: bool): Grid
    requires 0 <= col < COLS
  {
    Dropped(g, col, if maximizing then AI else HUMAN)
  }

  /**
   * The tree explored from `g`: depth 0 is evaluated first, then an AI four-in-a-row scores WIN, a human
   * one -WIN, a full top row 0; otherwise one child per legal column, tried 0..6.
   */
  function GameTree(g: Grid, depth: nat, maximizing: bool): Tree
    decreases depth
  {
    if depth == 0 then Leaf(Evaluate(g))
    else if ImmediateWin(g, AI) then Leaf(WIN)
    else if ImmediateWin(g, HUMAN) then Leaf(-WIN)
    else
      var cols := ValidCols(g);
      if cols == [] then Leaf(0)
      else Node(seq(|cols|, i requires 0 <= i < |cols| =>
                  GameTree(Child(g, cols[i], maximizing), Plies(depth), !maximizing)))
  }

  /** Plain minimax without pruning over a tree whose root is a maximizing node when `maximizing`. */
  function MinimaxValue(t: Tree, maximizing: bool): int
    decreases t, 1
  {
    match t
    case Leaf(s) => s
    case Node(kids) => if maximizing then MaxFold(t, 0, -INF) else MinFold(t, 0, INF)
  }

  /** Math.max folded over the values of children i.. of a maximizing node, starting from `acc`. */
  function MaxFold(t: Tree, i: nat, acc: int): int
    requires t.Node? && i <= |t.kids|
    decreases t, 0, |t.kids| - i
  {
    if i == |t.kids| then acc else MaxFold(t, i + 1, Max(acc, MinimaxValue(t.kids[i], false)))
  }

  /** Math.min folded over the values of children i.. of a minimizing node, starting from `acc`. */
  function MinFold(t: Tree, i: nat, acc: int): int
    requires t.Node? && i <= |t.kids|
    decreases t, 0, |t.kids| - i
  {
    if i == |t.kids| then acc else MinFold(t, i + 1, Min(acc, MinimaxValue(t.kids[i], true)))
  }

  /** minimax(tempBoard, depth, maximizing, alpha, beta) on the tree of tempBoard. */
  function AlphaBeta(t: Tree, maximizing: bool, alpha: int, beta: int): int
    decreases t, 1
  {
    match t
    case Leaf(s) => s
    case Node(kids) => if maximizing then MaxLoop(t, 0, -INF, alpha, beta) else MinLoop(t, 0, INF, alpha, beta)
  }

  /** The maximizing loop: value = max(value, child); alpha = max(alpha, value); stop once alpha >= beta. */
  function MaxLoop(t: Tree, i: nat, value: int, alpha: int, beta: int): int
    requires t.Node? && i <= |t.kids|
    decreases t, 0, |t.kids| - i
  {
    if i == |t.kids| then value
    else
      var v := Max(value, AlphaBeta(t.kids[i], false, alpha, beta));
      var a := Max(alpha, v);
      if a >= beta then v else MaxLoop(t, i + 1, v, a, beta)
  }

  /** The minimizing loop: value = min(value, child); beta = min(beta, value); stop once alpha >= beta. */
  function MinLoop(t: Tree, i: nat, value: int, alpha: int, beta: int): int
    requires t.Node? && i <= |t.kids|
    decreases t, 0, |t.kids| - i
  {
    if i == |t.kids| then value
    else
      var v := Min(value, AlphaBeta(t.kids[i], true, alpha, beta));
      var b := Min(beta, v);
      if alpha >= b then v else MinLoop(t, i + 1, v, alpha, b)
  }

  /**
   * The fail-soft alpha-beta guarantee relating a pruned result `r` to the true value `f` for the
   * window (alpha, beta): a result at or below alpha is an upper bound, one at or above beta a lower
   * bound, and one strictly inside the window is exact.
   */
  predicate FailSoft(r: int, f: int, alpha: int, beta: int) {
    (r <= alpha ==> f <= r) && (r >= beta ==> r <= f) && (alpha < r < beta ==> r == f)
  }

  lemma {:induction false} MaxFoldAtLeast(t: Tree, i: nat, acc: int)
    requires t.Node? && i <= |t.kids|
    ensures MaxFold(t, i, acc) >= acc
    decreases |t.kids| - i
  {
    if i < |t.kids| {
      MaxFoldAtLeast(t, i + 1, Max(acc, MinimaxValue(t.kids[i], false)));
    }
  }

  lemma {:induction false} MinFoldAtMost(t: Tree, i: nat, acc: int)
    requires t.Node? && i <= |t.kids|
    ensures MinFold(t, i, acc) <= acc
    decreases |t.kids| - i
  {
    if i < |t.kids| {
      MinFoldAtMost(t, i + 1, Min(acc, MinimaxValue(t.kids[i], true)));
    }
  }

  /** Alpha-beta is a fail-soft approximation of plain minimax for every window inside [-INF, INF]. */
  lemma {:induction false} AlphaBetaFailSoft(t: Tree, maximizing: bool, alpha: int, beta: int)
    requires -INF <= alpha < beta <= INF
    ensures FailSoft(AlphaBeta(t, maximizing, alpha, beta), MinimaxValue(t, maximizing), alpha, beta)
    decreases t, 1
  {
    if t.Node? {
      if maximizing {
        MaxLoopFailSoft(t, 0, -INF, -INF, alpha, beta);
      } else {
        MinLoopFailSoft(t, 0, INF, INF, alpha, beta);
      }
    }
  }

  /**
   * The maximizing loop entered at child i with pruned value `value`, alpha = max(alpha0, value) and
   * true running maximum `m`: `value` bounds `m` from above, and equals it once it exceeds alpha0.
   */
  lemma {:induction false} MaxLoopFailSoft(t: Tree, i: nat, m: int, value: int, alpha0: int, beta: int)
    requires t.Node? && i <= |t.kids|
    requires -INF <= alpha0 < beta <= INF
    requires value < beta && m <= value && (value > alpha0 ==> m == value)
    ensures FailSoft(MaxLoop(t, i, value, Max(alpha0, value), beta), MaxFold(t, i, m), alpha0, beta)
    decreases t, 0, |t.kids| - i
  {
    if i < |t.kids| {
      var a := Max(alpha0, value);
      AlphaBetaFailSoft(t.kids[i], false, a, beta);
      var v := Max(value, AlphaBeta(t.kids[i], false, a, beta));
      var m' := Max(m, MinimaxValue(t.kids[i], false));
      if Max(a, v) >= beta {
        MaxFoldAtLeast(t, i + 1, m');
      } else {
        MaxLoopFailSoft(t, i + 1, m', v, alpha0, beta);
      }
    }
  }

  /** The mirror image of MaxLoopFailSoft for the minimizing loop. */
  lemma {:induction false} MinLoopFailSoft(t: Tree, i: nat, m: int, value: int, alpha: int, beta0: int)
    requires t.Node? && i <= |t.kids|
    requires -INF <= alpha < beta0 <= INF
    requires value > alpha && m >= value && (value < beta0 ==> m == value)
    ensures FailSoft(MinLoop(t, i, value, alpha, Min(beta0, value)), MinFold(t, i, m), alpha, beta0)
    decreases t, 0, |t.kids| - i
  {
    if i < |t.kids| {
      var b := Min(beta0, value);
      AlphaBetaFailSoft(t.kids[i], true, alpha, b);
      var v := Min(value, AlphaBeta(t.kids[i], true, alpha, b));
      var m' := Min(m, MinimaxValue(t.kids[i], true));
      if alpha >= Min(b, v) {
        MinFoldAtMost(t, i + 1, m');
      } else {
        MinLoopFailSoft(t, i + 1, m', v, alpha, beta0);
      }
    }
  }

  /** Every leaf scores within [-WIN, WIN] and every inner node has a child. */
  predicate WellFormed(t: Tree)
    decreases t
  {
    match t
    case Leaf(s) => -WIN <= s <= WIN
    case Node(kids) => |kids| > 0 && forall i :: 0 <= i < |kids| ==> WellFormed(kids[i])
  }

  /** Child i of an inner node of the search is the tree of the board after a drop into legal column i. */
  lemma GameTreeKid(g: Grid, depth: nat, maximizing: bool, i: int)
    requires depth >= 1 && !ImmediateWin(g, AI) && !ImmediateWin(g, HUMAN) && 0 <= i < |ValidCols(g)|
    ensures GameTree(g, depth, maximizing).Node? && |GameTree(g, depth, maximizing).kids| == |ValidCols(g)|
    ensures GameTree(g, depth, maximizing).kids[i] ==
      GameTree(Child(g, ValidCols(g)[i], maximizing), Plies(depth), !maximizing)
  {
  }

  /** The engine's trees are well formed: the evaluator stays far inside WIN and a node has a legal column. */
  lemma {:induction false} GameTreeWellFormed(g: Grid, depth: nat, maximizing: bool)
    ensures WellFormed(GameTree(g, depth, maximizing))
    decreases depth
  {
    if depth == 0 {
      EvaluateBounds(g);
    } else if !ImmediateWin(g, AI) && !ImmediateWin(g, HUMAN) && ValidCols(g) != [] {
      var cols := ValidCols(g);
      var t := GameTree(g, depth, maximizing);
      forall i | 0 <= i < |cols| ensures WellFormed(t.kids[i]) {
        GameTreeKid(g, depth, maximizing, i);
        GameTreeWellFormed(Child(g, cols[i], maximizing), Plies(depth), !maximizing);
      }
    }
  }

  /** Plain minimax of a well-formed tree stays within [-WIN, WIN]. */
  lemma {:induction false} ValueBounds(t: Tree, maximizing: bool)
    requires WellFormed(t)
    ensures -WIN <= MinimaxValue(t, maximizing) <= WIN
    decreases t, 1
  {
    if t.Node? {
      if maximizing {
        MaxFoldBounds(t, 0, -INF);
      } else {
        MinFoldBounds(t, 0, INF);
      }
    }
  }

  lemma {:induction false} MaxFoldBounds(t: Tree, i: nat, acc: int)
    requires WellFormed(t) && t.Node? && i <= |t.kids|
    requires acc <= WIN && (i == |t.kids| ==> -WIN <= acc)
    ensures -WIN <= MaxFold(t, i, acc) <= WIN
    decreases t, 0, |t.kids| - i
  {
    if i < |t.kids| {
      ValueBounds(t.kids[i], false);
      MaxFoldBounds(t, i + 1, Max(acc, MinimaxValue(t.kids[i], false)));
    }
  }

  lemma {:induction false} MinFoldBounds(t: Tree, i: nat, acc: int)
    requires WellFormed(t) && t.Node? && i <= |t.kids|
    requires acc >= -WIN && (i == |t.kids| ==> acc <= WIN)
    ensures -WIN <= MinFold(t, i, acc) <= WIN
    decreases t, 0, |t.kids| - i
  {
    if i < |t.kids| {
      ValueBounds(t.kids[i], true);
      MinFoldBounds(t, i + 1, Min(acc, MinimaxValue(t.kids[i], true)));
    }
  }

  /** With the full window (-INF, INF), alpha-beta returns exactly the plain minimax value. */
  lemma FullWindowExact(t: Tree, maximizing: bool)
    requires WellFormed(t)
    ensures AlphaBeta(t, maximizing, -INF, INF) == MinimaxValue(t, maximizing)
  {
    AlphaBetaFailSoft(t, maximizing, -INF, INF);
    ValueBounds(t, maximizing);
  }

  /** The minimizing fold is at most the value of every remaining child. */
  lemma {:induction false} MinFoldIsMin(t: Tree, i: nat, acc: int)
    requires t.Node? && i <= |t.kids|
    ensures MinFold(t, i, acc) <= acc
    ensures forall j :: i <= j < |t.kids| ==> MinFold(t, i, acc) <= MinimaxValue(t.kids[j], true)
    decreases |t.kids| - i
  {
    if i < |t.kids| {
      MinFoldIsMin(t, i + 1, Min(acc, MinimaxValue(t.kids[i], true)));
    }
  }

  /** The maximizing fold is at least the value of every remaining child. */
  lemma {:induction false} MaxFoldIsMax(t: Tree, i: nat, acc: int)
    requires t.Node? && i <= |t.kids|
    ensures MaxFold(t, i, acc) >= acc
    ensures forall j :: i <= j < |t.kids| ==> MinimaxValue(t.kids[j], false) <= MaxFold(t, i, acc)
    decreases |t.kids| - i
  {
    if i < |t.kids| {
      MaxFoldIsMax(t, i + 1, Max(acc, MinimaxValue(t.kids[i], false)));
    }
  }

  /** The plain minimax value of the board `g` searched `depth` plies deep. */
  function Value(g: Grid, depth: nat, maximizing: bool): int {
    MinimaxValue(GameTree(g, depth, maximizing), maximizing)
  }

  /** Every board value, searched to any depth, lies within [-WIN, WIN]. */
  lemma BoardValueBounds(g: Grid, depth: nat, maximizing: bool)
    ensures -WIN <= Value(g, depth, maximizing) <= WIN
  {
    GameTreeWellFormed(g, depth, maximizing);
    ValueBounds(GameTree(g, depth, maximizing), maximizing);
  }

  /** The score getBestMove gives column `col`: the AI drops there, then a `plies`-deep search with the human to move. */
  function Score(g: Grid, col: int, plies: nat): int
    requires 0 <= col < COLS
  {
    Value(Child(g, col, true), plies, false)
  }

  lemma {:induction false} ScoreBounds(g: Grid, col: int, plies: nat)
    requires 0 <= col < COLS
    ensures -WIN <= Score(g, col, plies) <= WIN
  {
    BoardValueBounds(Child(g, col, true), plies, false);
  }

  /** getBestMove's loop over the remaining columns: keep a column only when its score is strictly higher. */
  function BestFrom(g: Grid, cols: seq<int>, plies: nat, bestScore: int, bestCol: int): int
    requires ColsInRange(cols)
  {
    if cols == [] then bestCol
    else
      var s := Score(g, cols[0], plies);
      if s > bestScore then BestFrom(g, cols[1..], plies, s, cols[0])
      else BestFrom(g, cols[1..], plies, bestScore, bestCol)
  }

  /** One ply less: the depth of the children of a node searched to `depth`, and of the search below getBestMove(depth)'s root drop. */
  function Plies(depth: nat): nat
    requires depth >= 1
  {
    depth - 1
  }

  /** getBestMove(depth): null on a full top row, otherwise the loop over the valid columns in index order. */
  function BestMove(g: Grid, depth: nat): Option<int>
    requires depth >= 1
  {
    var cols := ValidCols(g);
    if cols == [] then None else Some(BestFrom(g, cols, Plies(depth), -INF, cols[0]))
  }

  /**
   * The loop keeps the initial column only if no score beats the initial best score; otherwise it
   * returns a listed column whose score is maximal, and strictly above every column listed before it.
   */
  lemma {:induction false} BestFromSpec(g: Grid, cols: seq<int>, plies: nat, bestScore: int, bestCol: int)
    requires ColsInRange(cols) && StrictlyIncreasing(cols)
    ensures var c := BestFrom(g, cols, plies, bestScore, bestCol);
      (c == bestCol && forall i :: 0 <= i < |cols| ==> Score(g, cols[i], plies) <= bestScore) ||
      (c in cols && Score(g, c, plies) > bestScore &&
       (forall i :: 0 <= i < |cols| ==> Score(g, cols[i], plies) <= Score(g, c, plies)) &&
       (forall i :: 0 <= i < |cols| && cols[i] < c ==> Score(g, cols[i], plies) < Score(g, c, plies)))
    decreases |cols|
  {
    if cols != [] {
      var s := Score(g, cols[0], plies);
      var rest := cols[1..];
      assert forall i :: 1 <= i < |cols| ==> cols[i] == rest[i - 1];
      if s > bestScore {
        BestFromSpec(g, rest, plies, s, cols[0]);
      } else {
        BestFromSpec(g, rest, plies, bestScore, bestCol);
      }
    }
  }

  /**
   * getBestMove(depth) returns null exactly when the top row is full; otherwise a column whose top
   * cell is empty, with the highest score among the legal columns, and the lowest-indexed such column.
   */
  lemma BestMoveSpec(g: Grid, depth: nat)
    requires depth >= 1
    ensures BestMove(g, depth).None? <==> IsFull(g)
    ensures BestMove(g, depth).Some? ==>
      var c := BestMove(g, depth).value;
      var plies := Plies(depth);
      0 <= c < COLS && g[0][c] == EMPTY &&
      (forall c' :: 0 <= c' < COLS && g[0][c'] == EMPTY ==> Score(g, c', plies) <= Score(g, c, plies)) &&
      (forall c' :: 0 <= c' < c && g[0][c'] == EMPTY ==> Score(g, c', plies) < Score(g, c, plies))
  {
    FullSpec(g);
    ValidColsSpec(g);
    var cols := ValidCols(g);
    var plies := Plies(depth);
    if cols != [] {
      ScoreBounds(g, cols[0], plies);
      BestFromSpec(g, cols, plies, -INF, cols[0]);
      var c := BestMove(g, depth).value;
      forall c' | 0 <= c' < COLS && g[0][c'] == EMPTY
        ensures Score(g, c', plies) <= Score(g, c, plies)
        ensures c' < c ==> Score(g, c', plies) < Score(g, c, plies)
      {
        assert c' in cols;
        var i :| 0 <= i < |cols| && cols[i] == c';
      }
    }
  }

  /** With at least one ply after the AI's drop, a column that completes an AI four-in-a-row scores WIN, the highest possible score. */
  lemma WinningColumnScoresWin(g: Grid, col: int, plies: nat)
    requires plies >= 1 && 0 <= col < COLS && ImmediateWin(Child(g, col, true), AI)
    ensures Score(g, col, plies) == WIN
    ensures forall c :: 0 <= c < COLS ==> Score(g, c, plies) <= WIN
  {
    forall c | 0 <= c < COLS ensures Score(g, c, plies) <= WIN {
      ScoreBounds(g, c, plies);
    }
  }

  /** A board where the AI can complete four in a row is worth WIN at any positive depth. */
  lemma AiWinValue(h: Grid, depth: nat, maximizing: bool)
    requires depth >= 1 && ImmediateWin(h, AI)
    ensures Value(h, depth, maximizing) == WIN
  {
  }

  /** Without an AI win on the board, a one-ply search with the human to move stays below WIN. */
  lemma OnePlyBelowWin(h: Grid)
    requires !ImmediateWin(h, AI)
    ensures Value(h, 1, false) < WIN
  {
    var t := GameTree(h, 1, false);
    if !ImmediateWin(h, HUMAN) && ValidCols(h) != [] {
      var cols := ValidCols(h);
      MinFoldIsMin(t, 0, INF);
      var first := Child(h, cols[0], false);
      EvaluateBounds(first);
      assert t.kids[0] == Leaf(Evaluate(first));
    }
  }

  /**
   * At the medium level (one ply after the AI's drop) a column scores WIN exactly when it completes an
   * AI four-in-a-row: one ply deeper only the evaluator is consulted, and it stays below WIN.
   */
  lemma DepthTwoWinIffImmediate(g: Grid, col: int)
    requires 0 <= col < COLS
    ensures Score(g, col, 1) == WIN <==> ImmediateWin(Child(g, col, true), AI)
  {
    var h := Child(g, col, true);
    if ImmediateWin(h, AI) {
      AiWinValue(h, 1, false);
    } else {
      OnePlyBelowWin(h);
    }
  }

  /** If some legal column wins at once, getBestMove(2) (the medium level) picks such a winning column. */
  lemma MediumTakesWin(g: Grid, col: int)
    requires 0 <= col < COLS && g[0][col] == EMPTY && ImmediateWin(Child(g, col, true), AI)
    ensures BestMove(g, 2).Some?
    ensures var c := BestMove(g, 2).value; 0 <= c < COLS && ImmediateWin(Child(g, c, true), AI)
  {
    BestMoveSpec(g, 2);
    WinningColumnScoresWin(g, col, 1);
    DepthTwoWinIffImmediate(g, BestMove(g, 2).value);
  }

  /** getRandomMove with the random draw as a parameter: the legal column at index pick mod |legal|. */
  function RandomPick(g: Grid, pick: nat): Option<int> {
    var moves := ValidCols(g);
    if moves == [] then None else Some(moves[pick % |moves|])
  }

  /** getRandomMove returns null exactly on a full board, and otherwise a column with an empty top cell. */
  lemma RandomPickSpec(g: Grid, pick: nat)
    ensures RandomPick(g, pick).None? <==> IsFull(g)
    ensures RandomPick(g, pick).Some? ==>
      var c := RandomPick(g, pick).value; 0 <= c < COLS && g[0][c] == EMPTY
  {
    FullSpec(g);
    ValidColsSpec(g);
    var moves := ValidCols(g);
    if moves != [] {
      assert moves[pick % |moves|] in moves;
    }
  }

  datatype Difficulty = Easy | Medium | Hard

  /** aiMove's choice: easy draws at random, medium searches depth 2, hard depth 4, falling back to a random draw. */
  function Choose(g: Grid, diff: Difficulty, pick: nat): Option<int> {
    var best := match diff
      case Easy => None
      case Medium => BestMove(g, 2)
      case Hard => BestMove(g, 4);
    if best.Some? then best else RandomPick(g, pick)
  }

  /**
   * The AI's choice is null exactly on a full board, and is otherwise a column with an empty top cell;
   * at the medium and hard levels it is getBestMove's column.
   */
  lemma ChooseSpec(g: Grid, diff: Difficulty, pick: nat)
    ensures Choose(g, diff, pick).None? <==> IsFull(g)
    ensures Choose(g, diff, pick).Some? ==>
      var c := Choose(g, diff, pick).value; 0 <= c < COLS && g[0][c] == EMPTY
    ensures diff == Medium && !IsFull(g) ==> Choose(g, diff, pick) == BestMove(g, 2)
    ensures diff == Hard && !IsFull(g) ==> Choose(g, diff, pick) == BestMove(g, 4)
  {
    RandomPickSpec(g, pick);
    BestMoveSpec(g, 2);
    BestMoveSpec(g, 4);
  }
}
