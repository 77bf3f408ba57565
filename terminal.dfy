/** Win detection: walking runs of one owner's tokens through a cell along the four axes. */
module Terminal {
  import opened Board

  datatype Pos = Pos(r: int, c: int)
  datatype Dir = Dir(dr: int, dc: int)

  /** The four axes, in the order the game tries them: horizontal, vertical, down-right, down-left. */
  const H: Dir := Dir(0, 1)
  const V: Dir := Dir(1, 0)
  const DR: Dir := Dir(1, 1)
  const DL: Dir := Dir(1, -1)

  predicate IsAxis(d: Dir) {
    d == H || d == V || d == DR || d == DL
  }

  predicate IsStep(d: Dir) {
    -1 <= d.dr <= 1 && -1 <= d.dc <= 1 && d != Dir(0, 0)
  }

  function Neg(d: Dir): Dir {
    Dir(-d.dr, -d.dc)
  }

  /** The cell (r, c) is on the board and holds `p`. */
  predicate Holds(g: Grid, r: int, c: int, p: Cell) {
    InBounds(r, c) && g[r][c] == p
  }

  /** Number of cells a walk from (r, c) in direction d can still visit; bounds every walk. */
  function Span(r: int, c: int, d: Dir): nat {
    if !InBounds(r, c) then 0
    else if d.dr == 1 then ROWS - r
    else if d.dr == -1 then r + 1
    else if d.dc == 1 then COLS - c
    else c + 1
  }

  /** The cells visited by walking from (r, c) in direction d while they hold `p`. */
  function Run(g: Grid, r: int, c: int, d: Dir, p: Cell): seq<Pos>
    requires IsStep(d)
    decreases Span(r, c, d)
  {
    if Holds(g, r, c, p) then [Pos(r, c)] + Run(g, r + d.dr, c + d.dc, d, p) else []
  }

  /** The same walk, counting the cells instead of listing them. */
  function RunLen(g: Grid, r: int, c: int, d: Dir, p: Cell): nat
    requires IsStep(d)
    decreases Span(r, c, d)
  {
    if Holds(g, r, c, p) then 1 + RunLen(g, r + d.dr, c + d.dc, d, p) else 0
  }

  /** The n cells after (r, c) in direction d: (r + k*dr, c + k*dc) for k = 1..n. */
  function Ray(r: int, c: int, d: Dir, n: nat): (ray: seq<Pos>)
    ensures |ray| == n
    decreases n
  {
    if n == 0 then [] else [Pos(r + d.dr, c + d.dc)] + Ray(r + d.dr, c + d.dc, d, n - 1)
  }

  /** A walk lists exactly RunLen cells. */
  lemma {:induction false} RunCount(g: Grid, r: int, c: int, d: Dir, p: Cell)
    requires IsStep(d)
    ensures |Run(g, r, c, d, p)| == RunLen(g, r, c, d, p)
    decreases Span(r, c, d)
  {
    if Holds(g, r, c, p) {
      RunCount(g, r + d.dr, c + d.dc, d, p);
    }
  }

  /** A walk visits consecutive cells along its direction. */
  lemma {:induction false} RunRay(g: Grid, r: int, c: int, d: Dir, p: Cell)
    requires IsStep(d)
    ensures Run(g, r, c, d, p) == Ray(r - d.dr, c - d.dc, d, |Run(g, r, c, d, p)|)
    decreases Span(r, c, d)
  {
    if Holds(g, r, c, p) {
      RunRay(g, r + d.dr, c + d.dc, d, p);
      assert r - d.dr + d.dr == r && c - d.dc + d.dc == c;
    }
  }

  /** Every cell a walk visits holds `p`. */
  lemma {:induction false} RunHolds(g: Grid, r: int, c: int, d: Dir, p: Cell)
    requires IsStep(d)
    ensures forall q :: q in Run(g, r, c, d, p) ==> Holds(g, q.r, q.c, p)
    decreases Span(r, c, d)
  {
    if Holds(g, r, c, p) {
      RunHolds(g, r + d.dr, c + d.dc, d, p);
    }
  }

  lemma JoinHolds(g: Grid, r1: int, c1: int, d: Dir, r2: int, c2: int, e: Dir, p: Cell)
    requires IsStep(d) && IsStep(e)
    ensures forall q :: q in Run(g, r1, c1, d, p) + Run(g, r2, c2, e, p) ==> Holds(g, q.r, q.c, p)
  {
    RunHolds(g, r1, c1, d, p);
    RunHolds(g, r2, c2, e, p);
  }

  lemma TailOfCons(x: Pos, s: seq<Pos>, t: seq<Pos>)
    ensures ([x] + s + t)[1..] == s + t
  {
  }

  /** checkWin's candidate line for one direction: the origin, the forward walk, then the backward walk. */
  function LineThrough(g: Grid, r: int, c: int, d: Dir, p: Cell): seq<Pos>
    requires IsStep(d)
  {
    [Pos(r, c)] + Run(g, r + d.dr, c + d.dc, d, p) + Run(g, r - d.dr, c - d.dc, Neg(d), p)
  }

  /** checkWinTemp's count for one direction. */
  function CountThrough(g: Grid, r: int, c: int, d: Dir, p: Cell): nat
    requires IsStep(d)
  {
    1 + RunLen(g, r + d.dr, c + d.dc, d, p) + RunLen(g, r - d.dr, c - d.dc, Neg(d), p)
  }

  /** The axes in checkWin's order. */
  const AXES: seq<Dir> := [H, V, DR, DL]

  predicate AllAxes(axes: seq<Dir>) {
    forall i :: 0 <= i < |axes| ==> IsAxis(axes[i])
  }

  /** The first of `axes` along which checkWinTemp's count through (r, c) reaches four. */
  function WinningAxis(g: Grid, r: int, c: int, p: Cell, axes: seq<Dir>): (d: Option<Dir>)
    requires AllAxes(axes)
    ensures d.Some? ==> IsAxis(d.value)
  {
    if axes == [] then None
    else if CountThrough(g, r, c, axes[0], p) >= 4 then Some(axes[0])
    else WinningAxis(g, r, c, p, axes[1..])
  }

  /**
   * checkWin: the line through (r, c) along the first axis, in the order H, V, DR, DL, whose line has at
   * least four cells (a line is as long as checkWinTemp's count, by LineLength).
   */
  function WinLine(g: Grid, r: int, c: int, p: Cell): Option<seq<Pos>> {
    match WinningAxis(g, r, c, p, AXES)
    case None => None
    case Some(d) => Some(LineThrough(g, r, c, d, p))
  }

  /** checkWin written out axis by axis. */
  lemma WinLineCases(g: Grid, r: int, c: int, p: Cell)
    ensures WinLine(g, r, c, p) ==
      if CountThrough(g, r, c, H, p) >= 4 then Some(LineThrough(g, r, c, H, p))
      else if CountThrough(g, r, c, V, p) >= 4 then Some(LineThrough(g, r, c, V, p))
      else if CountThrough(g, r, c, DR, p) >= 4 then Some(LineThrough(g, r, c, DR, p))
      else if CountThrough(g, r, c, DL, p) >= 4 then Some(LineThrough(g, r, c, DL, p))
      else None
  {
    assert AXES[1..] == [V, DR, DL] && [V, DR, DL][1..] == [DR, DL] && [DR, DL][1..] == [DL];
    assert WinningAxis(g, r, c, p, [DL]) == if CountThrough(g, r, c, DL, p) >= 4 then Some(DL) else None;
    assert WinningAxis(g, r, c, p, [DR, DL]) ==
      if CountThrough(g, r, c, DR, p) >= 4 then Some(DR) else WinningAxis(g, r, c, p, [DL]);
    assert WinningAxis(g, r, c, p, [V, DR, DL]) ==
      if CountThrough(g, r, c, V, p) >= 4 then Some(V) else WinningAxis(g, r, c, p, [DR, DL]);
  }

  /** checkWinTemp: the count through (r, c) reaches four on some axis. */
  predicate WinAt(g: Grid, r: int, c: int, p: Cell) {
    CountThrough(g, r, c, H, p) >= 4 || CountThrough(g, r, c, V, p) >= 4 ||
    CountThrough(g, r, c, DR, p) >= 4 || CountThrough(g, r, c, DL, p) >= 4
  }

  /** Four consecutive cells from (r, c) in direction d, all on the board and all holding `p`. */
  predicate Four(g: Grid, r: int, c: int, d: Dir, p: Cell) {
    Holds(g, r, c, p) && Holds(g, r + d.dr, c + d.dc, p) &&
    Holds(g, r + 2 * d.dr, c + 2 * d.dc, p) && Holds(g, r + 3 * d.dr, c + 3 * d.dc, p)
  }

  /** (r, c) is one of the four cells of some four-in-a-row of `p` along direction d. */
  predicate FourThrough(g: Grid, r: int, c: int, d: Dir, p: Cell) {
    Four(g, r, c, d, p) || Four(g, r - d.dr, c - d.dc, d, p) ||
    Four(g, r - 2 * d.dr, c - 2 * d.dc, d, p) || Four(g, r - 3 * d.dr, c - 3 * d.dc, d, p)
  }

  /** (r, c) is on a four-in-a-row of `p` along one of the four axes. */
  predicate OnFour(g: Grid, r: int, c: int, p: Cell) {
    FourThrough(g, r, c, H, p) || FourThrough(g, r, c, V, p) ||
    FourThrough(g, r, c, DR, p) || FourThrough(g, r, c, DL, p)
  }

  /** The forward walk from the cell after (r, c) reaches k cells exactly when those k cells hold `p`. */
  lemma ForwardAtLeast(g: Grid, r: int, c: int, d: Dir, p: Cell)
    requires IsStep(d)
    ensures var n := RunLen(g, r + d.dr, c + d.dc, d, p);
      var h1, h2, h3 := Holds(g, r + d.dr, c + d.dc, p), Holds(g, r + 2 * d.dr, c + 2 * d.dc, p),
                        Holds(g, r + 3 * d.dr, c + 3 * d.dc, p);
      (n >= 1 <==> h1) && (n >= 2 <==> h1 && h2) && (n >= 3 <==> h1 && h2 && h3)
  {
    var r1, c1 := r + d.dr, c + d.dc;
    var r2, c2 := r1 + d.dr, c1 + d.dc;
    assert r2 == r + 2 * d.dr && c2 == c + 2 * d.dc;
    assert r2 + d.dr == r + 3 * d.dr && c2 + d.dc == c + 3 * d.dc;
    if Holds(g, r1, c1, p) && Holds(g, r2, c2, p) {
      assert RunLen(g, r2, c2, d, p) == 1 + RunLen(g, r2 + d.dr, c2 + d.dc, d, p);
    }
  }

  /** The backward walk from the cell before (r, c) reaches k cells exactly when those k cells hold `p`. */
  lemma BackwardAtLeast(g: Grid, r: int, c: int, d: Dir, p: Cell)
    requires IsStep(d)
    ensures var n := RunLen(g, r - d.dr, c - d.dc, Neg(d), p);
      var h1, h2, h3 := Holds(g, r - d.dr, c - d.dc, p), Holds(g, r - 2 * d.dr, c - 2 * d.dc, p),
                        Holds(g, r - 3 * d.dr, c - 3 * d.dc, p);
      (n >= 1 <==> h1) && (n >= 2 <==> h1 && h2) && (n >= 3 <==> h1 && h2 && h3)
  {
    var e := Neg(d);
    ForwardAtLeast(g, r, c, e, p);
    assert r + 2 * e.dr == r - 2 * d.dr && c + 2 * e.dc == c - 2 * d.dc;
    assert r + 3 * e.dr == r - 3 * d.dr && c + 3 * e.dc == c - 3 * d.dc;
  }

  /** For one axis, checkWinTemp's count reaches four exactly when a four-in-a-row passes through the cell. */
  lemma CountThroughSpec(g: Grid, r: int, c: int, d: Dir, p: Cell)
    requires IsAxis(d) && Holds(g, r, c, p)
    ensures CountThrough(g, r, c, d, p) >= 4 <==> FourThrough(g, r, c, d, p)
  {
    if d == H {
      CountThroughH(g, r, c, p);
    } else if d == V {
      CountThroughV(g, r, c, p);
    } else if d == DR {
      CountThroughDR(g, r, c, p);
    } else {
      CountThroughDL(g, r, c, p);
    }
  }

  // One lemma per axis keeps the index arithmetic concrete for the solver.
  lemma CountThroughH(g: Grid, r: int, c: int, p: Cell)
    requires Holds(g, r, c, p)
    ensures CountThrough(g, r, c, H, p) >= 4 <==> FourThrough(g, r, c, H, p)
  {
    ForwardAtLeast(g, r, c, H, p);
    BackwardAtLeast(g, r, c, H, p);
  }

  lemma CountThroughV(g: Grid, r: int, c: int, p: Cell)
    requires Holds(g, r, c, p)
    ensures CountThrough(g, r, c, V, p) >= 4 <==> FourThrough(g, r, c, V, p)
  {
    ForwardAtLeast(g, r, c, V, p);
    BackwardAtLeast(g, r, c, V, p);
  }

  lemma CountThroughDR(g: Grid, r: int, c: int, p: Cell)
    requires Holds(g, r, c, p)
    ensures CountThrough(g, r, c, DR, p) >= 4 <==> FourThrough(g, r, c, DR, p)
  {
    ForwardAtLeast(g, r, c, DR, p);
    BackwardAtLeast(g, r, c, DR, p);
  }

  lemma CountThroughDL(g: Grid, r: int, c: int, p: Cell)
    requires Holds(g, r, c, p)
    ensures CountThrough(g, r, c, DL, p) >= 4 <==> FourThrough(g, r, c, DL, p)
  {
    ForwardAtLeast(g, r, c, DL, p);
    BackwardAtLeast(g, r, c, DL, p);
  }

  /** checkWinTemp is true exactly when the cell lies on a four-in-a-row of its owner along some axis. */
  lemma WinAtSpec(g: Grid, r: int, c: int, p: Cell)
    requires Holds(g, r, c, p)
    ensures WinAt(g, r, c, p) <==> OnFour(g, r, c, p)
  {
    CountThroughSpec(g, r, c, H, p);
    CountThroughSpec(g, r, c, V, p);
    CountThroughSpec(g, r, c, DR, p);
    CountThroughSpec(g, r, c, DL, p);
  }

  /** checkWin's line is as long as checkWinTemp's count. */
  lemma LineLength(g: Grid, r: int, c: int, d: Dir, p: Cell)
    requires IsStep(d)
    ensures |LineThrough(g, r, c, d, p)| == CountThrough(g, r, c, d, p)
  {
    RunCount(g, r + d.dr, c + d.dc, d, p);
    RunCount(g, r - d.dr, c - d.dc, Neg(d), p);
  }

  /** Every cell of checkWin's line after the origin holds `p`. */
  lemma LineHolds(g: Grid, r: int, c: int, d: Dir, p: Cell)
    requires IsStep(d)
    ensures forall q :: q in LineThrough(g, r, c, d, p)[1..] ==> Holds(g, q.r, q.c, p)
  {
    var fwd, bwd := Run(g, r + d.dr, c + d.dc, d, p), Run(g, r - d.dr, c - d.dc, Neg(d), p);
    JoinHolds(g, r + d.dr, c + d.dc, d, r - d.dr, c - d.dc, Neg(d), p);
    assert LineThrough(g, r, c, d, p)[1..] == fwd + bwd by {
      TailOfCons(Pos(r, c), fwd, bwd);
    }
  }

  /** checkWin's line is the origin followed by a forward and a backward ray along the axis. */
  lemma LineRays(g: Grid, r: int, c: int, d: Dir, p: Cell)
    requires IsStep(d)
    ensures LineThrough(g, r, c, d, p) ==
      [Pos(r, c)] + Ray(r, c, d, |Run(g, r + d.dr, c + d.dc, d, p)|) +
                    Ray(r, c, Neg(d), |Run(g, r - d.dr, c - d.dc, Neg(d), p)|)
  {
    var fwd, bwd := Run(g, r + d.dr, c + d.dc, d, p), Run(g, r - d.dr, c - d.dc, Neg(d), p);
    assert fwd == Ray(r, c, d, |fwd|) by {
      RunRay(g, r + d.dr, c + d.dc, d, p);
      assert r + d.dr - d.dr == r && c + d.dc - d.dc == c;
    }
    assert bwd == Ray(r, c, Neg(d), |bwd|) by {
      RunRay(g, r - d.dr, c - d.dc, Neg(d), p);
      assert r - d.dr - Neg(d).dr == r && c - d.dc - Neg(d).dc == c;
    }
  }

  /** checkWin finds a line exactly when checkWinTemp reports a win, on the same board. */
  lemma WinLineIffWinAt(g: Grid, r: int, c: int, p: Cell)
    ensures WinLine(g, r, c, p).Some? <==> WinAt(g, r, c, p)
  {
    WinLineCases(g, r, c, p);
  }

  /**
   * What a winning line promises: at least four cells, starting at (r, c), lying on one of the four axes
   * as the origin followed by a forward and a backward contiguous ray, with every cell but the origin
   * holding `p` (the origin too when it holds `p`, as it does right after a drop).
   */
  ghost predicate IsWinningLine(g: Grid, r: int, c: int, p: Cell, line: seq<Pos>) {
    |line| >= 4 && line[0] == Pos(r, c) &&
    (forall q :: q in line[1..] ==> Holds(g, q.r, q.c, p)) &&
    (Holds(g, r, c, p) ==> forall q :: q in line ==> Holds(g, q.r, q.c, p)) &&
    exists d, a: nat, b: nat :: IsAxis(d) && a + b + 1 == |line| &&
      line == [Pos(r, c)] + Ray(r, c, d, a) + Ray(r, c, Neg(d), b)
  }

  /** The line of one axis is a winning line once it reaches four cells. */
  lemma LineWins(g: Grid, r: int, c: int, d: Dir, p: Cell)
    requires IsAxis(d) && |LineThrough(g, r, c, d, p)| >= 4
    ensures IsWinningLine(g, r, c, p, LineThrough(g, r, c, d, p))
  {
    var line := LineThrough(g, r, c, d, p);
    LineHolds(g, r, c, d, p);
    LineRays(g, r, c, d, p);
    assert line == [line[0]] + line[1..];
    var a, b := |Run(g, r + d.dr, c + d.dc, d, p)|, |Run(g, r - d.dr, c - d.dc, Neg(d), p)|;
    assert a + b + 1 == |line| && line == [Pos(r, c)] + Ray(r, c, d, a) + Ray(r, c, Neg(d), b);
  }

  /** Whatever checkWin returns is a winning line. */
  lemma WinLineSound(g: Grid, r: int, c: int, p: Cell)
    requires WinLine(g, r, c, p).Some?
    ensures IsWinningLine(g, r, c, p, WinLine(g, r, c, p).value)
  {
    WinLineCases(g, r, c, p);
    var d := if CountThrough(g, r, c, H, p) >= 4 then H else if CountThrough(g, r, c, V, p) >= 4 then V
             else if CountThrough(g, r, c, DR, p) >= 4 then DR else DL;
    LineLength(g, r, c, d, p);
    LineWins(g, r, c, d, p);
  }

  /** checkImmediateWin: some cell holding `p` passes checkWinTemp (the scan stops at the first one). */
  predicate ImmediateWin(g: Grid, p: Cell) {
    exists r, c :: 0 <= r < ROWS && 0 <= c < COLS && g[r][c] == p && WinAt(g, r, c, p)
  }

  /** Some four-in-a-row of `p` exists anywhere on the board, along one of the four axes. */
  ghost predicate FourAnywhere(g: Grid, p: Cell) {
    exists r, c, d :: IsAxis(d) && Four(g, r, c, d, p)
  }

  lemma FourThroughWitness(g: Grid, r: int, c: int, d: Dir, p: Cell)
    requires FourThrough(g, r, c, d, p)
    ensures exists r0, c0 :: Four(g, r0, c0, d, p)
  {
    if Four(g, r, c, d, p) {
    } else if Four(g, r - d.dr, c - d.dc, d, p) {
    } else if Four(g, r - 2 * d.dr, c - 2 * d.dc, d, p) {
    } else {
      assert Four(g, r - 3 * d.dr, c - 3 * d.dc, d, p);
    }
  }

  /** checkImmediateWin is true exactly when the board holds a four-in-a-row of `p` along some axis. */
  lemma ImmediateWinSpec(g: Grid, p: Cell)
    ensures ImmediateWin(g, p) <==> FourAnywhere(g, p)
  {
    if ImmediateWin(g, p) {
      var r, c :| 0 <= r < ROWS && 0 <= c < COLS && g[r][c] == p && WinAt(g, r, c, p);
      WinAtSpec(g, r, c, p);
      var d := if FourThrough(g, r, c, H, p) then H else if FourThrough(g, r, c, V, p) then V
               else if FourThrough(g, r, c, DR, p) then DR else DL;
      FourThroughWitness(g, r, c, d, p);
      var r0, c0 :| Four(g, r0, c0, d, p);
      assert IsAxis(d);
    }
    if FourAnywhere(g, p) {
      var r, c, d :| IsAxis(d) && Four(g, r, c, d, p);
      assert FourThrough(g, r, c, d, p);
      WinAtSpec(g, r, c, p);
      assert 0 <= r < ROWS && 0 <= c < COLS && g[r][c] == p && WinAt(g, r, c, p);
    }
  }
}
