# Connect-Four engine, modelled and verified in Dafny

This project models the game engine of a browser Connect-Four game (`script.js`).

**The board.** It is 6 rows by 7 columns of cells holding `1` (red, player 1), `-1` (yellow, the AI) or `0` (empty). Row 0 is the top row.

**Moves.** A token dropped into a column falls to the lowest empty cell. After every drop the game checks four directions through the new token: horizontal, vertical, down-right and down-left.
- If one of them holds four or more of the mover's tokens, the game is over and the mover's win counter goes up.
- Otherwise, if the top row is full, the game ends in a draw.
- Otherwise the turn passes to the other side.

**Undo.** Undo pops the last move of the history, as long as the game is still running.

**The AI.** It chooses its column by difficulty:
- easy picks a random legal column;
- medium runs a depth-2 search;
- hard runs a depth-4 search.

The search is minimax with alpha-beta pruning over copied boards. Its leaves are scored by a static evaluator: a centre-column bonus plus a fixed score for every window of four cells.

## Modules

**Data model.**
- `Board` (board.dfy): cells, the grid as a value, gravity (`LandingRow`, `Dropped`), legal columns, a full board, and the no-floating-token invariant.
- `Terminal` (terminal.dfy): the walks of `checkWin` and `checkWinTemp` and the full-board scan of `checkImmediateWin`. Each is related to an independent definition of a four-in-a-row (`Four`, `OnFour`, `FourAnywhere`).

**Search.**
- `Evaluator` (evaluator.dfy): `evaluateBoard` and `windowScore`.
- `Search` (search.dfy): the values behind the search.
  - `GameTree` is the tree `minimax` explores.
  - `MinimaxValue` is plain minimax over that tree.
  - `AlphaBeta`, `MaxLoop` and `MinLoop` are the engine's loops, with their `break`s.
  - `BestFrom` and `BestMove` are the root loop of `getBestMove`.
  - `Choose` is the difficulty dispatch.

**Imperative code.**
- `Engine` (engine.dfy): the engine's routines on `array2` boards, each proved equal to its value-level counterpart: `simulateDrop`, the board copy, the valid-column loop, `isBoardFull`, `checkWin`, `minimax`, `getBestMove` and `getRandomMove`.
- `Game` (game.dfy): the live game.
  - `Play` replays a move history from the initial state and rejects any move `columnDrop` would not make.
  - `Landing`, `ColumnDropped` and `Undone` are what a drop and an undo do to the game variables.
  - The class `ConnectFour` holds the page's variables: `board`, `history`, `current`, `gameOver`, `p1Score` and `p2Score`. Its methods update them in place. Its invariant is that the board, `gameOver` and `current` are exactly what the move history leads to. The two score counters are not fixed by the history: they count wins across games and survive `Reset`.

**Modelling choices.**
- The random draw of `getRandomMove` is a parameter `pick`: the result is the legal column at index `pick mod |legal|`.
- JavaScript's `±Infinity` is the sentinel `INF = 2000000`. This lies beyond the win score `1000000` plus the bound 69018 on the evaluator's magnitude.

**Win tests.** They are modelled by counts (`CountThrough`), as `checkWinTemp` does. `checkWin`'s line is the origin, the forward walk and the backward walk. `LineLength` proves that line is exactly as long as the count, so `checkWin` finds a line exactly when `checkWinTemp` reports a win (`WinLineIffWinAt`).

**Behaviour of the code the model keeps:**
- Columns are tried in index order 0..6, both at the root and inside the search (script.js:277, 302).
- `minimax` tests `depth === 0` before the two immediate-win tests, so a leaf is scored by the evaluator even when someone has already won there (script.js:295).
- With no legal column, `minimax` returns 0 directly, without evaluating (script.js:303).
- `windowScore` has a case for four AI tokens but none for four human tokens, so such a window scores 0 (script.js:226-232).
- Medium is a depth-2 call of `getBestMove` (script.js:194), which the source's own comment at script.js:183-188 describes as a two-move lookahead. The model proves that medium always takes a one-move win (`MediumTakesWin`). It proves no blocking guarantee. Because `depth === 0` is tested first and four human tokens score 0, a human win one ply below the AI's drop is scored by the evaluator and is not treated as a loss.
- The `hard` branch is taken for any difficulty value other than `easy` and `medium`.

## Model

| member | source | states |
|---|---|---|
| Board.Opponent | script.js:87 | `current *= -1` gives the other player, and multiplying again by -1 gives back the original one |
| Board.EmptyGrid | script.js:33 | every cell of the fresh board is 0 |
| Board.SetCell | script.js:70 | writing a cell changes that cell to the value and leaves every other cell unchanged |
| Board.ScanUpSpec | script.js:68-69 | the bottom-up scan from row r fails iff rows 0..r of the column are all occupied; otherwise it finds an empty cell with every cell below it (up to r) occupied |
| Board.LandingRowSpec | script.js:68-70 | a token lands in the largest empty row of the column; the drop fails exactly when the column has no empty cell |
| Board.DropKeepsNoFloating | script.js:68-70 | a gravity drop keeps every cell below an occupied cell occupied |
| Board.LandingIffTopEmpty | script.js:68-69 | on a board without floating tokens, a column accepts a drop exactly when its top cell (the one the valid-column lists test) is empty |
| Board.ValidColsSpec | script.js:277 | the valid-column list holds exactly the columns whose top cell is empty, in strictly increasing order, at most 7 of them |
| Board.FullSpec | script.js:101-103 | isBoardFull holds iff the valid-column list is empty; on a board without floating tokens, iff every cell is occupied |
| Board.DropIntoValid | script.js:267-272 | a drop into a column with an empty top cell lands, writes the player's token at the landing cell and changes no other cell |
| Board.DropThenClear | script.js:145 | clearing the cell a drop filled gives back the board from before the drop |
| Terminal.RunCount | script.js:116-117 | the list of cells a walk collects is as long as the count checkWinTemp's walk adds up |
| Terminal.CountThroughSpec | script.js:340-347 | for one axis, the count through a cell holding p reaches four iff four consecutive cells of p on that axis include the cell |
| Terminal.WinAtSpec | script.js:338-349 | checkWinTemp at a cell holding p is true iff the cell lies on a four-in-a-row of p along one of the four axes |
| Terminal.LineLength | script.js:114-121 | checkWin's line for an axis has exactly as many cells as checkWinTemp's count for that axis |
| Terminal.LineHolds | script.js:117-120 | every cell of checkWin's line after the origin is on the board and holds p |
| Terminal.LineRays | script.js:114-120 | checkWin's line is the origin followed by a contiguous forward ray and a contiguous backward ray along the axis |
| Terminal.WinLineIffWinAt | script.js:111-124 | checkWin returns a line iff checkWinTemp returns true on the same board and cell |
| Terminal.LineWins | script.js:121 | an axis line of at least four cells is a winning line: it starts at the origin, is collinear, and holds p |
| Terminal.WinLineSound | script.js:111-124 | whatever checkWin returns is a winning line: at least four cells, starting at (r, c), collinear along one axis, all holding p after the origin and the origin too when it holds p |
| Terminal.ImmediateWinSpec | script.js:329-337 | checkImmediateWin is true iff the board holds a four-in-a-row of p along some axis |
| Evaluator.CountPartition | script.js:220-225 | the AI, player and empty counts of a window add up to its length |
| Evaluator.WindowScoreSpec | script.js:219-233 | a window scores one of {1000, 50, 10, 0, -5, -80}; mixed windows and four human tokens score 0; positive iff no human token and at least two AI tokens; negative iff no AI token and two or three human tokens |
| Evaluator.HStarts | script.js:236-241 | the horizontal loop visits 24 window starts, each once, all on the board, and every horizontal window of the board is among them |
| Evaluator.VStarts | script.js:243-248 | the vertical loop visits 21 window starts, each once, all on the board, and every vertical window of the board is among them |
| Evaluator.DRStarts | script.js:250-255 | the down-right loop visits 12 window starts, each once, all on the board, and every down-right window of the board is among them |
| Evaluator.DLStarts | script.js:257-262 | the down-left loop visits 12 window starts, each once, all on the board, and every down-left window of the board is among them |
| Evaluator.FamilyBounds | script.js:236-262 | a family of n windows sums to between -80n and 1000n |
| Evaluator.CenterScoreSpec | script.js:212-217 | the centre column contributes exactly 3 * (AI tokens - player tokens) in column 3, which lies in [-18, 18] |
| Evaluator.EvaluateBounds | script.js:209-264 | evaluateBoard always lies in [-5538, 69018], far inside the win score |
| Evaluator.EvaluateEmpty | script.js:209-264 | the empty board evaluates to 0 |
| Search.AlphaBetaFailSoft | script.js:293-326 | for every window inside the sentinels, alpha-beta's result r is related to plain minimax f: r <= alpha implies f <= r, r >= beta implies r <= f, and a result inside the window is exact |
| Search.MaxLoopFailSoft | script.js:305-314 | the maximizing loop with its alpha update and break is a fail-soft bound on the running maximum of the children's minimax values |
| Search.MinLoopFailSoft | script.js:315-325 | the minimizing loop with its beta update and break is a fail-soft bound on the running minimum of the children's minimax values |
| Search.GameTreeWellFormed | script.js:295-303 | every leaf of the search scores within [-1000000, 1000000], and every inner node has a legal column |
| Search.ValueBounds | script.js:293-326 | plain minimax over such a tree stays within [-1000000, 1000000] |
| Search.FullWindowExact | script.js:284 | with the full window (-inf, inf) that getBestMove passes, alpha-beta returns exactly the plain minimax value |
| Search.MaxFoldIsMax | script.js:310 | the maximizing fold is at least every child's value |
| Search.MinFoldIsMin | script.js:320 | the minimizing fold is at most every child's value |
| Search.BoardValueBounds | script.js:293-326 | every board value at every depth lies within [-1000000, 1000000] |
| Search.ScoreBounds | script.js:282-284 | the score of any root column lies within [-1000000, 1000000] |
| Search.BestFromSpec | script.js:280-289 | the root loop keeps its initial column only if nothing beats the initial best; otherwise it returns a listed column with maximal score, strictly better than every column listed before it |
| Search.BestMoveSpec | script.js:275-290 | getBestMove returns null iff the top row is full; otherwise a legal column with the maximum score over all legal columns, the lowest-indexed such column |
| Search.WinningColumnScoresWin | script.js:283-286 | with at least one ply below the AI's drop, a column that completes an AI four-in-a-row scores 1000000, the highest score any column can have |
| Search.AiWinValue | script.js:298 | a board holding an AI four-in-a-row is worth 1000000 at any positive depth |
| Search.OnePlyBelowWin | script.js:295-324 | without an AI four-in-a-row, a one-ply search with the human to move stays below 1000000 |
| Search.DepthTwoWinIffImmediate | script.js:194 | at the medium level a column scores 1000000 iff it completes an AI four-in-a-row |
| Search.MediumTakesWin | script.js:194 | if a legal column wins at once, getBestMove(2) returns a column that wins at once |
| Search.RandomPickSpec | script.js:201-206 | getRandomMove returns null iff the top row is full, otherwise a column with an empty top cell |
| Search.ChooseSpec | script.js:189-196 | aiMove's choice is null iff the board is full, otherwise a legal column; for medium and hard on a non-full board it is getBestMove(2) or getBestMove(4) |
| Engine.CopyBoard | script.js:282 | the copy is a fresh array with the same contents |
| Engine.Store | script.js:70 | an array cell write changes exactly that cell of the board |
| Engine.SimulateDrop | script.js:267-272 | simulateDrop returns true iff the column has an empty cell, and leaves the board as the gravity drop (unchanged when the column is full) |
| Engine.ValidColumns | script.js:277 | the valid-column loop computes the legal columns in index order |
| Engine.IsBoardFull | script.js:101-103 | isBoardFull is true iff no top-row cell is empty |
| Engine.Walk | script.js:116-117 | a walk loop collects exactly the cells from the start along the direction while they are on the board and hold p |
| Engine.AxisLine | script.js:114-120 | one axis of checkWin builds the origin, forward and backward walks, with length equal to checkWinTemp's count |
| Engine.CheckWin | script.js:111-124 | checkWin on the array returns the value-level checkWin of its contents |
| Engine.SearchChild | script.js:308-310 | one loop iteration searches a fresh copy after the mover's drop and returns the alpha-beta value of child i, leaving the board untouched |
| Engine.Minimax | script.js:293-326 | minimax on the array returns the alpha-beta value of the board's game tree, and never writes to the board it is given |
| Engine.ScoreColumn | script.js:282-284 | one root iteration returns the column's score: the plain minimax value after the AI's drop |
| Engine.FullWindowValue | script.js:284 | a full-window search of a board from the engine equals its plain minimax value |
| Engine.GetBestMove | script.js:275-290 | getBestMove on the live board returns BestMove of its contents, and never writes to the live board |
| Engine.RandomMove | script.js:201-206 | getRandomMove returns the legal column at the drawn index, or null |
| Engine.AiChoice | script.js:191-196 | aiMove's dispatch returns the difficulty's choice with getRandomMove as fallback |
| Game.TurnNext | script.js:87 | consecutive turns belong to opposite players |
| Game.LandedSpec | script.js:74-94 | a drop leaves the gravity-dropped board; the mover wins iff the new token lies on a four-in-a-row of theirs; the game is over iff it wins or the top row is full; otherwise the turn passes |
| Game.LandedThenClear | script.js:145 | clearing a drop's cell restores the board from before it |
| Game.PlayStep | script.js:68-71 | an accepted drop extends the history by `{r, c: col, player: current}` |
| Game.PlayFrozen | script.js:67 | once the game is over no further move is accepted |
| Game.PlayUndo | script.js:143-148 | popping the last move of a running game clears its cell and gives back the previous state with that move's player to move |
| Game.PlayReplays | script.js:70-85 | the board is the history's moves written onto an empty board, and the game is over iff its last move completed a line or filled the top row |
| Game.PlayNoFloating | script.js:68-70 | no reachable board has a token above an empty cell |
| Game.PlayToMove | script.js:84-88 | while the game runs the side to move is the one whose turn the history length gives; once it is over it is still the last mover |
| Game.PlayAlternates | script.js:71 | the moves in the history alternate, red first: the n-th token (from 0) is red's when n is even and the AI's when n is odd |
| Game.DropKeepsInv | script.js:66-99 | columnDrop succeeds iff the game runs and the column's top cell is empty, and the new variables are again what the history leads to |
| Game.DropSpec | script.js:66-99 | an accepted drop leaves the gravity-dropped board and pushes exactly one entry; the mover's own counter (p1 for red, p2 for the AI) gains one point iff the new token lies on a four-in-a-row, and the other counter is unchanged; the game is over iff it won or filled the top row; otherwise the turn passes |
| Game.UndoKeepsInv | script.js:142-148 | undo keeps the variables consistent with the history, and the cell it clears is on the board |
| Game.UndoAfterDrop | script.js:142-151 | undo right after a drop that leaves the game running restores the board, history, turn and scores from before the drop; after a drop that ends the game it changes nothing |
| Game.ConnectFour.constructor | script.js:6-11 | the game starts with an empty board, empty history, red to move, not over, and scores 0 |
| Game.ConnectFour.Reset | script.js:32-40 | resetBoard gives a fresh empty board, empty history, red to move and the game running, and keeps the scores |
| Game.ConnectFour.ColumnDrop | script.js:66-99 | columnDrop returns true exactly when the drop is accepted, and the new variables are then ColumnDropped of the old ones; otherwise nothing changes |
| Game.ConnectFour.Land | script.js:69-71 | the found cell receives the token and the move is pushed; the new variables are Landing of the old ones |
| Game.ConnectFour.Settle | script.js:74-94 | a win sets gameOver and increments the mover's score; otherwise a full top row sets gameOver; otherwise the turn passes |
| Game.ConnectFour.Undo | script.js:142-151 | the undo handler leaves the variables as Undone of the old ones: a no-op with an empty history or once the game is over |
| Game.ConnectFour.Pop | script.js:144-148 | an accepted undo pops the last move, clears its cell and gives its player the turn |
| Game.ConnectFour.AiMove | script.js:189-198 | aiMove does nothing once the game is over; otherwise it drops into the difficulty's column, a drop that is always accepted; only a full board leaves no column |

## Left out

- Rendering, the status text, win highlighting and the blocking of board clicks through `boardEl.style`: `renderBoard`, `animateDrop`, `updateStatus`, `highlightWin`. These are presentation only.
- Sound and the mute toggle (`playSound`, `muteBtn`): I/O only.
- Event-listener registration. The bodies of the undo, reset and column-click handlers are modelled as `Undo`, `Reset` and `ColumnDrop`. Changing the game mode only calls `resetBoard`, which is `Reset`.
- `isPvP` and the `setTimeout` that starts `aiMove` after a human move in AI mode. They read the DOM and schedule asynchronously. `AiMove` is a separate operation that the caller invokes.
- The score counters' text output. Only the counters themselves are modelled.
- `Math.random` in `getRandomMove`. The draw is a parameter `pick`, so the model states which column each draw yields, not the distribution of draws. For the fallback draw inside `aiMove` the choice of draw does not matter: the fallback runs only on a full board, where every draw gives null.
- Game.ConnectFour.ColumnDrop does not model non-integer column values. The model takes an integer column; an out-of-range column is rejected, as the source's undefined cell lookup makes it.
- Engine.GetBestMove requires a depth of at least 1, because its only callers pass 2 and 4.
- Search.ChooseSpec models the difficulty as three values. The source compares strings, and any value other than `easy` and `medium` selects the hard branch.
- Arithmetic is unbounded, with no floating point. Every reachable score lies between -2000000 and 2000000, so JavaScript's numbers are exact there.
