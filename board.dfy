/** The 6 x 7 Connect-Four grid as a value: cell states, gravity, legal columns. */
module Board {

  const ROWS: int := 6
  const COLS: int := 7

  /** Cell contents as the game stores them: 1 = red (player 1), -1 = yellow (the AI), 0 = empty. */
  type Cell = x: int | -1 <= x <= 1
  type Player = x: int | x == 1 || x == -1 witness 1

  /** The other side: the game flips the turn by multiplying by -1. */
  function Opponent(p: Player): (q: Player)
    ensures q != p && q * -1 == p
  {
    -1 * p
  }

  const EMPTY: Cell := 0
  const HUMAN: Player := 1
  const AI: Player := -1

  /** A grid of ROWS rows (row 0 on top) of COLS cells each. */
  type Grid = g: seq<seq<Cell>> | |g| == ROWS && forall r :: 0 <= r < |g| ==> |g[r]| == COLS
    witness seq(6, _ => seq(7, _ => 0))

  datatype Option<T> = None | Some(value: T)

  predicate InBounds(r: int, c: int) {
    0 <= r < ROWS && 0 <= c < COLS
  }

  function EmptyGrid(): (g: Grid)
    ensures forall r, c :: InBounds(r, c) ==> g[r][c] == EMPTY
  {
    seq(ROWS, _ => seq(COLS, _ => EMPTY))
  }

  /** The grid with one cell rewritten; positions outside the board leave it unchanged. */
  function SetCell(g: Grid, r: int, c: int, v: Cell): (g': Grid)
    ensures InBounds(r, c) ==> g'[r][c] == v
    ensures forall r', c' :: InBounds(r', c') && (r', c') != (r, c) ==> g'[r'][c'] == g[r'][c']
  {
    if InBounds(r, c) then
      var row: seq<Cell> := g[r][c := v];
      g[r := row]
    else g
  }

  lemma GridExt(g: Grid, h: Grid)
    requires forall r, c :: InBounds(r, c) ==> g[r][c] == h[r][c]
    ensures g == h
  {
    forall r | 0 <= r < ROWS ensures g[r] == h[r] {
      assert forall c :: 0 <= c < COLS ==> g[r][c] == h[r][c];
    }
  }

  /** Scans column `col` from row `r` upward (towards row 0) for the first empty cell. */
  function ScanUp(g: Grid, col: int, r: int): (res: Option<int>)
    requires 0 <= col < COLS && -1 <= r < ROWS
    ensures res.Some? ==> 0 <= res.value <= r
    decreases r + 1
  {
    if r < 0 then None
    else if g[r][col] == EMPTY then Some(r)
    else ScanUp(g, col, r - 1)
  }

  lemma {:induction false} ScanUpSpec(g: Grid, col: int, r: int)
    requires 0 <= col < COLS && -1 <= r < ROWS
    ensures ScanUp(g, col, r).None? <==> forall k :: 0 <= k <= r ==> g[k][col] != EMPTY
    ensures ScanUp(g, col, r).Some? ==>
      var k := ScanUp(g, col, r).value;
      0 <= k <= r && g[k][col] == EMPTY && forall j :: k < j <= r ==> g[j][col] != EMPTY
    decreases r + 1
  {
    if r >= 0 && g[r][col] != EMPTY {
      ScanUpSpec(g, col, r - 1);
    }
  }

  /** The row a token dropped into `col` lands in: the lowest empty cell, found by a bottom-up scan. */
  function LandingRow(g: Grid, col: int): Option<int>
    requires 0 <= col < COLS
  {
    ScanUp(g, col, ROWS - 1)
  }

  /** Lands on the largest empty row, and fails exactly when the column has no empty cell. */
  lemma LandingRowSpec(g: Grid, col: int)
    requires 0 <= col < COLS
    ensures LandingRow(g, col).None? <==> forall r :: 0 <= r < ROWS ==> g[r][col] != EMPTY
    ensures LandingRow(g, col).Some? ==>
      var r := LandingRow(g, col).value;
      0 <= r < ROWS && g[r][col] == EMPTY && forall j :: r < j < ROWS ==> g[j][col] != EMPTY
  {
    ScanUpSpec(g, col, ROWS - 1);
  }

  /** The grid after a gravity drop of `p` into `col` (unchanged when the column is full). */
  function Dropped(g: Grid, col: int, p: Player): Grid
    requires 0 <= col < COLS
  {
    match LandingRow(g, col)
    case None => g
    case Some(r) => SetCell(g, r, col, p)
  }

  /** Tokens never float: every cell below an occupied cell is occupied too. */
  predicate NoFloating(g: Grid) {
    forall r, j, c :: 0 <= r <= j < ROWS && 0 <= c < COLS && g[r][c] != EMPTY ==> g[j][c] != EMPTY
  }

  /** A gravity drop keeps the no-floating invariant. */
  lemma DropKeepsNoFloating(g: Grid, col: int, p: Player)
    requires 0 <= col < COLS && NoFloating(g)
    ensures NoFloating(Dropped(g, col, p))
  {
    LandingRowSpec(g, col);
  }

  /** Under the no-floating invariant a column accepts a drop exactly when its top cell is empty. */
  lemma LandingIffTopEmpty(g: Grid, col: int)
    requires 0 <= col < COLS && NoFloating(g)
    ensures LandingRow(g, col).Some? <==> g[0][col] == EMPTY
  {
    LandingRowSpec(g, col);
    if g[0][col] != EMPTY {
      assert forall r :: 0 <= r < ROWS ==> g[r][col] != EMPTY;
    }
  }

  /** Every listed column is a column index of the board. */
  predicate ColsInRange(cols: seq<int>) {
    forall i :: 0 <= i < |cols| ==> 0 <= cols[i] < COLS
  }

  /** Columns 0..COLS-1, from `c` on, whose top cell is empty, in increasing order. */
  function ColsFrom(g: Grid, c: int): (cols: seq<int>)
    requires 0 <= c <= COLS
    ensures ColsInRange(cols)
    decreases COLS - c
  {
    if c == COLS then []
    else if g[0][c] == EMPTY then [c] + ColsFrom(g, c + 1)
    else ColsFrom(g, c + 1)
  }

  /** The legal drop targets, tried in index order 0..6. */
  function ValidCols(g: Grid): (cols: seq<int>)
    ensures ColsInRange(cols)
  {
    ColsFrom(g, 0)
  }

  predicate StrictlyIncreasing(s: seq<int>) {
    forall i, j :: 0 <= i < j < |s| ==> s[i] < s[j]
  }

  lemma {:induction false} ColsFromMembers(g: Grid, c: int)
    requires 0 <= c <= COLS
    ensures forall x :: x in ColsFrom(g, c) <==> c <= x < COLS && g[0][x] == EMPTY
    ensures |ColsFrom(g, c)| <= COLS - c
    decreases COLS - c
  {
    if c < COLS {
      ColsFromMembers(g, c + 1);
      var rest := ColsFrom(g, c + 1);
      forall x ensures x in ColsFrom(g, c) <==> c <= x < COLS && g[0][x] == EMPTY {
        assert x in rest <==> c + 1 <= x < COLS && g[0][x] == EMPTY;
      }
    }
  }

  lemma {:induction false} ColsFromSorted(g: Grid, c: int)
    requires 0 <= c <= COLS
    ensures StrictlyIncreasing(ColsFrom(g, c))
    ensures forall j :: 0 <= j < |ColsFrom(g, c)| ==> c <= ColsFrom(g, c)[j]
    decreases COLS - c
  {
    if c < COLS {
      ColsFromSorted(g, c + 1);
    }
  }

  /** A column is listed exactly when its top cell is empty; the list is sorted without repeats. */
  lemma ValidColsSpec(g: Grid)
    ensures forall x :: x in ValidCols(g) <==> 0 <= x < COLS && g[0][x] == EMPTY
    ensures StrictlyIncreasing(ValidCols(g))
    ensures |ValidCols(g)| <= COLS
  {
    ColsFromMembers(g, 0);
    ColsFromSorted(g, 0);
  }

  /** The board is full when no top-row cell is empty. */
  predicate IsFull(g: Grid) {
    forall c :: 0 <= c < COLS ==> g[0][c] != EMPTY
  }

  /** Full exactly when there is no legal column; under no-floating, exactly when every cell is occupied. */
  lemma FullSpec(g: Grid)
    ensures IsFull(g) <==> ValidCols(g) == []
    ensures NoFloating(g) ==> (IsFull(g) <==> forall r, c :: InBounds(r, c) ==> g[r][c] != EMPTY)
  {
    ValidColsSpec(g);
    if ValidCols(g) != [] {
      assert ValidCols(g)[0] in ValidCols(g);
    }
    if NoFloating(g) && IsFull(g) {
      assert forall r, c :: InBounds(r, c) ==> g[0][c] != EMPTY && g[r][c] != EMPTY;
    }
  }

  /** A drop into a column with an empty top cell always lands, and lands in that column only. */
  lemma DropIntoValid(g: Grid, col: int, p: Player)
    requires 0 <= col < COLS && g[0][col] == EMPTY
    ensures LandingRow(g, col).Some?
    ensures var r := LandingRow(g, col).value;
      Dropped(g, col, p)[r][col] == p &&
      forall r', c' :: InBounds(r', c') && (r', c') != (r, col) ==> Dropped(g, col, p)[r'][c'] == g[r'][c']
  {
    LandingRowSpec(g, col);
  }

  /** Clearing the cell a drop filled gives back the grid from before the drop. */
  lemma DropThenClear(g: Grid, col: int, p: Player)
    requires 0 <= col < COLS && LandingRow(g, col).Some?
    ensures SetCell(Dropped(g, col, p), LandingRow(g, col).value, col, EMPTY) == g
  {
    LandingRowSpec(g, col);
    var r := LandingRow(g, col).value;
    GridExt(SetCell(Dropped(g, col, p), r, col, EMPTY), g);
  }
}
