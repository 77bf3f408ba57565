/** The static evaluator: a center-column bonus plus a fixed score for every window of four cells. */
module Evaluator {
  import opened Board
  import opened Terminal

  /** Upper and lower bounds on what the evaluator can produce; the upper one is reached by a grid of AI tokens only (69 windows, 6 center cells). */
  const EVAL_MAX: int := 69018
  const EVAL_MIN: int := -5538

  /** Number of occurrences of `v` in `s`. */
  function Count(s: seq<Cell>, v: Cell): (n: nat)
    ensures n <= |s|
  {
    if s == [] then 0 else (if s[0] == v then 1 else 0) + Count(s[1..], v)
  }

  lemma {:induction false} CountAbsent(s: seq<Cell>, v: Cell)
    requires v !in s
    ensures Count(s, v) == 0
  {
    if s != [] {
      assert s == [s[0]] + s[1..];
      CountAbsent(s[1..], v);
    }
  }

  /** Every cell is AI, human or empty, so the three counts add up to the length. */
  lemma {:induction false} CountPartition(s: seq<Cell>)
    ensures Count(s, AI) + Count(s, HUMAN) + Count(s, EMPTY) == |s|
  {
    if s != [] {
      CountPartition(s[1..]);
    }
  }

  /**
   * windowScore: 1000 for four AI tokens, 50 for three AI and one empty, 10 for two AI and two empty;
   * then -80 for three human tokens and one empty, -5 for two human and two empty.
   */
  function WindowScore(w: seq<Cell>): int
    requires |w| == 4
  {
    var ai, pl, empty := Count(w, AI), Count(w, HUMAN), Count(w, EMPTY);
    var s := if ai == 4 then 1000 else if ai == 3 && empty == 1 then 50 else if ai == 2 && empty == 2 then 10 else 0;
    if pl == 3 && empty == 1 then s - 80 else if pl == 2 && empty == 2 then s - 5 else s
  }

  /**
   * A window scores one of six values; a window holding tokens of both owners scores 0, and so does a
   * window of four human tokens; it scores positive exactly when it holds two or more AI tokens and no
   * human token, and negative exactly when it holds two or three human tokens and no AI token.
   */
  lemma WindowScoreSpec(w: seq<Cell>)
    requires |w| == 4
    ensures WindowScore(w) in {1000, 50, 10, 0, -5, -80}
    ensures Count(w, AI) > 0 && Count(w, HUMAN) > 0 ==> WindowScore(w) == 0
    ensures Count(w, HUMAN) == 4 ==> WindowScore(w) == 0
    ensures WindowScore(w) > 0 <==> Count(w, HUMAN) == 0 && Count(w, AI) >= 2
    ensures WindowScore(w) < 0 <==> Count(w, AI) == 0 && 2 <= Count(w, HUMAN) <= 3
  {
    CountPartition(w);
  }

  /** The four cells from (r, c) along d are all on the board. */
  predicate WindowFits(r: int, c: int, d: Dir) {
    InBounds(r, c) && InBounds(r + d.dr, c + d.dc) &&
    InBounds(r + 2 * d.dr, c + 2 * d.dc) && InBounds(r + 3 * d.dr, c + 3 * d.dc)
  }

  /** The contents of the window starting at (r, c) along d, in walking order. */
  function WindowAt(g: Grid, r: int, c: int, d: Dir): (w: seq<Cell>)
    requires WindowFits(r, c, d)
    ensures |w| == 4
  {
    [g[r][c], g[r + d.dr][c + d.dc], g[r + 2 * d.dr][c + 2 * d.dc], g[r + 3 * d.dr][c + 3 * d.dc]]
  }

  predicate AllFit(starts: seq<Pos>, d: Dir) {
    forall i :: 0 <= i < |starts| ==> WindowFits(starts[i].r, starts[i].c, d)
  }

  /** No window start is listed twice. */
  predicate Distinct(starts: seq<Pos>) {
    forall i, j :: 0 <= i < j < |starts| ==> starts[i] != starts[j]
  }

  /** Horizontal window starts, rows 0..5 outer, columns 0..3 inner. */
  function HStarts(): (s: seq<Pos>)
    ensures |s| == 24 && AllFit(s, H)
    ensures forall r, c :: WindowFits(r, c, H) ==> Pos(r, c) in s
    ensures Distinct(s)
  {
    var s := seq(24, i => Pos(i / 4, i % 4));
    assert forall i :: 0 <= i < |s| ==> 4 * s[i].r + s[i].c == i;
    assert forall r, c :: WindowFits(r, c, H) ==> s[4 * r + c] == Pos(r, c);
    s
  }

  /** Vertical window starts, columns 0..6 outer, rows 0..2 inner. */
  function VStarts(): (s: seq<Pos>)
    ensures |s| == 21 && AllFit(s, V)
    ensures forall r, c :: WindowFits(r, c, V) ==> Pos(r, c) in s
    ensures Distinct(s)
  {
    var s := seq(21, i => Pos(i % 3, i / 3));
    assert forall i :: 0 <= i < |s| ==> 3 * s[i].c + s[i].r == i;
    VCover(s);
    s
  }

  /** Every vertical window start (r, c) sits at index 3c + r of the column-major listing. */
  lemma VCover(s: seq<Pos>)
    requires |s| == 21 && forall i :: 0 <= i < 21 ==> s[i] == Pos(i % 3, i / 3)
    ensures forall r, c :: WindowFits(r, c, V) ==> Pos(r, c) in s
  {
    forall r, c | WindowFits(r, c, V) ensures Pos(r, c) in s {
      var i := 3 * c + r;
      assert i / 3 == c && i % 3 == r;
      assert s[i] == Pos(r, c);
    }
  }

  /** Down-right diagonal window starts, rows 0..2 outer, columns 0..3 inner. */
  function DRStarts(): (s: seq<Pos>)
    ensures |s| == 12 && AllFit(s, DR)
    ensures forall r, c :: WindowFits(r, c, DR) ==> Pos(r, c) in s
    ensures Distinct(s)
  {
    var s := seq(12, i => Pos(i / 4, i % 4));
    assert forall i :: 0 <= i < |s| ==> 4 * s[i].r + s[i].c == i;
    assert forall r, c :: WindowFits(r, c, DR) ==> s[4 * r + c] == Pos(r, c);
    s
  }

  /** Down-left diagonal window starts, rows 0..2 outer, columns 3..6 inner. */
  function DLStarts(): (s: seq<Pos>)
    ensures |s| == 12 && AllFit(s, DL)
    ensures forall r, c :: WindowFits(r, c, DL) ==> Pos(r, c) in s
    ensures Distinct(s)
  {
    var s := seq(12, i => Pos(i / 4, 3 + i % 4));
    assert forall i :: 0 <= i < |s| ==> 4 * s[i].r + (s[i].c - 3) == i;
    assert forall r, c :: WindowFits(r, c, DL) ==> s[4 * r + (c - 3)] == Pos(r, c);
    s
  }

  /** Sum of the window scores of one family. */
  function FamilyScore(g: Grid, starts: seq<Pos>, d: Dir): int
    requires AllFit(starts, d)
  {
    if starts == [] then 0
    else WindowScore(WindowAt(g, starts[0].r, starts[0].c, d)) + FamilyScore(g, starts[1..], d)
  }

  /** Each window contributes between -80 and 1000. */
  lemma {:induction false} FamilyBounds(g: Grid, starts: seq<Pos>, d: Dir)
    requires AllFit(starts, d)
    ensures -80 * |starts| <= FamilyScore(g, starts, d) <= 1000 * |starts|
  {
    if starts != [] {
      WindowScoreSpec(WindowAt(g, starts[0].r, starts[0].c, d));
      FamilyBounds(g, starts[1..], d);
    }
  }

  /** The center-column contribution of rows r..5: +3 per AI token, -3 per human token. */
  function CenterFrom(g: Grid, r: int): int
    requires 0 <= r <= ROWS
    decreases ROWS - r
  {
    if r == ROWS then 0
    else (if g[r][3] == AI then 3 else if g[r][3] == HUMAN then -3 else 0) + CenterFrom(g, r + 1)
  }

  function CenterScore(g: Grid): int {
    CenterFrom(g, 0)
  }

  /** Column c of the grid, top to bottom. */
  function Column(g: Grid, c: int): (col: seq<Cell>)
    requires 0 <= c < COLS
    ensures |col| == ROWS && forall r :: 0 <= r < ROWS ==> col[r] == g[r][c]
  {
    seq(ROWS, r requires 0 <= r < ROWS => g[r][c])
  }

  lemma {:induction false} CenterFromCounts(g: Grid, r: int)
    requires 0 <= r <= ROWS
    ensures CenterFrom(g, r) == 3 * (Count(Column(g, 3)[r..], AI) - Count(Column(g, 3)[r..], HUMAN))
    decreases ROWS - r
  {
    if r < ROWS {
      CenterFromCounts(g, r + 1);
      assert Column(g, 3)[r..][1..] == Column(g, 3)[r + 1..];
    }
  }

  /** The center column contributes exactly 3 * (AI tokens - human tokens) in column 3. */
  lemma CenterScoreSpec(g: Grid)
    ensures CenterScore(g) == 3 * (Count(Column(g, 3), AI) - Count(Column(g, 3), HUMAN))
    ensures -18 <= CenterScore(g) <= 18
  {
    CenterFromCounts(g, 0);
    assert Column(g, 3)[0..] == Column(g, 3);
    CountPartition(Column(g, 3));
  }

  /** evaluateBoard: center bonus plus horizontal, vertical, down-right and down-left windows. */
  function Evaluate(g: Grid): int {
    CenterScore(g) + FamilyScore(g, HStarts(), H) + FamilyScore(g, VStarts(), V) +
    FamilyScore(g, DRStarts(), DR) + FamilyScore(g, DLStarts(), DL)
  }

  /** The evaluator never leaves [EVAL_MIN, EVAL_MAX], far inside the win score. */
  lemma EvaluateBounds(g: Grid)
    ensures EVAL_MIN <= Evaluate(g) <= EVAL_MAX
  {
    CenterScoreSpec(g);
    FamilyBounds(g, HStarts(), H);
    FamilyBounds(g, VStarts(), V);
    FamilyBounds(g, DRStarts(), DR);
    FamilyBounds(g, DLStarts(), DL);
  }

  /** A family of windows over an all-empty region scores 0. */
  lemma {:induction false} FamilyOfEmpty(starts: seq<Pos>, d: Dir)
    requires AllFit(starts, d)
    ensures FamilyScore(EmptyGrid(), starts, d) == 0
  {
    if starts != [] {
      var w := WindowAt(EmptyGrid(), starts[0].r, starts[0].c, d);
      WindowScoreSpec(w);
      assert w == [EMPTY, EMPTY, EMPTY, EMPTY];
      CountAbsent(w, AI);
      CountAbsent(w, HUMAN);
      FamilyOfEmpty(starts[1..], d);
    }
  }

  /** The empty board evaluates to 0. */
  lemma EvaluateEmpty()
    ensures Evaluate(EmptyGrid()) == 0
  {
    CenterScoreSpec(EmptyGrid());
    assert Column(EmptyGrid(), 3) == [EMPTY, EMPTY, EMPTY, EMPTY, EMPTY, EMPTY];
    FamilyOfEmpty(HStarts(), H);
    FamilyOfEmpty(VStarts(), V);
    FamilyOfEmpty(DRStarts(), DR);
    FamilyOfEmpty(DLStarts(), DL);
  }
}
