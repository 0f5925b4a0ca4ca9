# Trinca match-3 board engine in Dafny

A model of the board engine of the Trinca match-3 game (`script.js`), with
proofs about it. The board is an 8 x 8 grid. Each cell holds one of the six
pieces or, between a clear and the refill that follows it, nothing. The
model covers:

- **Board generation** (`createGrid`). Each cell takes a random piece that
  does not complete three in a row with the two cells to its left or the two
  cells above it.
- **Match detection** (`findMatches`). A run-length scan of every row and
  every column collects the cells that lie in a run of three or more equal
  cells.
- **Clear step** (`clearMatches`). The matched cells are emptied, and then
  gravity and refill run (`dropPieces`): each column is compacted toward the
  bottom with a write cursor, and the cells left at the top get fresh pieces.
- **Swaps** (`swap`, `areAdjacent`, `trySwap`). A swap is kept and counted
  as a move only if it creates a match; otherwise a timer undoes it.
- **Clicks** (`onCellClick`). A state machine of selection and the `busy`
  flag.
- **New game and shuffle** (`newGame`, `shuffle`). Shuffle is a
  Fisher–Yates permutation of the flattened board, rebuilt row by row.

The model has four modules:

- `Board`: cells, coordinates and the grid as a value (`seq<seq<Cell>>`),
  with the pure helpers (`idx`, `areAdjacent`), the effect of `swap`, and
  `flat()` together with the rebuild into rows.
- `Runs`: maximal runs along a line, and `Matched`, the set `findMatches` is
  specified to return.
- `Gravity`: what `dropPieces` does to one column (`Survivors`, `Origin`,
  `Settled`) and to the board (`Dropped`), and what the clear does
  (`Cleared`).
- `Engine`: the module state of the script as the class `Game`. The grid is
  an `array2<Cell>` updated in place, and `selected`, `busy`, `moves` are
  fields. Every function of the script that changes state is a method
  whose contract ties the new state to the value-level functions above. The
  functions that loop in the script (`createGrid`, `findMatches`, the
  `forEach` of `clearMatches`, `dropPieces` and `shuffle`) keep their loops,
  with invariants. `Snapshot` reads the array as a value.

The two `setTimeout` callbacks work as follows:

- A callback that is scheduled but has not run yet is the field `pending`:
  `Revert(a, b)` for the undo of `trySwap`, or `Clear(cells)` for the
  callback of `clearMatches`.
- `Game.OnTimer` runs that callback.
- `Game.Valid` holds between any two events. It says that `busy` holds
  exactly while a callback is pending, that nothing is selected while busy,
  and that the board has no empty cell.
- So each cascade step `clearMatches` → `dropPieces` → `clearMatches` is one
  `OnTimer` call.

Randomness (`Math.random` in `randomPiece`, in the rejection loop of
`createGrid` and in `shuffle`) is a nondeterministic choice (`:|`). The
proofs therefore hold for every sequence of random draws.

## Model

| member | source | states |
|---|---|---|
| Board.InBounds | script.js:16 | `inBounds(r, c)`: both coordinates lie in 0 .. SIZE-1; `IdxBijection` pairs exactly these coordinates with the positions of the flattened board |
| Board.Idx | script.js:17 | `idx(r, c)`: an in-bounds coordinate has a position in 0 .. SIZE*SIZE-1 |
| Board.IdxBijection | script.js:16-17 | `idx(r, c)` maps the in-bounds coordinates one-to-one onto 0 .. SIZE*SIZE-1, and `(i / SIZE, i % SIZE)` is its inverse |
| Board.AreAdjacent | script.js:69-72 | adjacent exactly when `|Δr| + |Δc| = 1`: same row and neighbouring columns, or same column and neighbouring rows, never diagonal |
| Board.AdjacentSymmetric | script.js:69-72 | `areAdjacent(a, b) == areAdjacent(b, a)` |
| Board.Swapped | script.js:74-75 | the two named cells exchange their contents and every other cell keeps its own |
| Board.SwapInvolution | script.js:74-75 | swapping the same two cells twice gives back the original grid |
| Board.SwapSymmetric | script.js:74-75 | `swap(a, b)` and `swap(b, a)` give the same grid |
| Board.SwappedFull | script.js:74-75 | a swap on a board without empty cells leaves no empty cell |
| Board.Flatten | script.js:199 | `grid.flat()`: a board of rows of SIZE cells flattens to exactly SIZE cells per row |
| Board.Rows | script.js:204-205 | the `splice` loop of `shuffle`: one row per started slice of SIZE pieces (`ceil(n / SIZE)` rows), each holding 1 to SIZE pieces |
| Board.FlattenAt | script.js:199 | `grid.flat()` has SIZE*SIZE entries, and cell (r, c) is entry `idx(r, c)` |
| Board.FlattenRows | script.js:204-205 | flattening the rows rebuilt from a sequence gives the sequence back |
| Board.RowsFlatten | script.js:204-205 | rebuilding the rows of a flattened grid gives the grid back |
| Board.RowsAt | script.js:204-205 | SIZE*SIZE pieces are rebuilt into a SIZE x SIZE grid whose cell (r, c) is piece `idx(r, c)` |
| Board.FullIffFlatPieces | script.js:199 | a board has no empty cell exactly when its flattening holds only pieces |
| Runs.RunBounds | script.js:84-93 | `RunStart(k)` .. `RunEnd(k)` is a maximal run of equal cells that contains k |
| Runs.RunOf | script.js:84-93 | the run scanned from `start` to `c` (all equal, different from the cells next to it) is the maximal run of each of its cells; its cells are reported exactly when its length is at least 3 |
| Runs.InRunIffCovered | script.js:80-109 | a cell lies in a maximal run of length 3 or more exactly when three consecutive equal cells cover it (an independent reference definition) |
| Runs.PairIsNotARun | script.js:88 | a maximal run of two cells contributes nothing |
| Runs.Matched | script.js:80-109 | (r, c) is matched exactly when it is on the board and lies in a run of 3 or more in its row or in its column |
| Runs.NoMatchIffNoThree | script.js:80-109 | `findMatches` returns the empty set exactly when no row and no column has three consecutive equal cells |
| Runs.ExampleRow | script.js:83-94 | in a row `A A B B B C ...` exactly the three B cells are reported |
| Gravity.Survivors | script.js:130-135 | the pieces of a column, top to bottom, without its empty cells: no longer than the column, and pieces only |
| Gravity.SurvivorsKeepPieces | script.js:130-135 | compaction loses only empty cells: every piece occurs among the survivors as often as in the column |
| Gravity.SurvivorsOfFull | script.js:130-135 | a column with no empty cell survives whole |
| Gravity.Origin | script.js:130-135 | the row the i-th survivor came from holds it, and lies at or above the row the survivor is written to |
| Gravity.OriginIncreasing | script.js:130-135 | survivors keep their top-to-bottom order (the compaction is stable) |
| Gravity.SettledColumn | script.js:128-140 | after the drop no cell of the column is empty, and survivor i sits at row holes + i, at or below the row it came from |
| Gravity.SettledFullColumn | script.js:128-140 | a column with no empty cell is left unchanged |
| Gravity.Cleared | script.js:117-122 | the listed cells are empty; every other cell is unchanged |
| Gravity.DroppedIsFull | script.js:127-140 | after `dropPieces` no cell of the board is empty |
| Gravity.DroppedFullBoard | script.js:127-140 | `dropPieces` on a board with no empty cell changes nothing |
| Engine.RandomPiece | script.js:19-21 | the result is one of the pieces |
| Engine.Rejects | script.js:30-33 | the `do`/`while` condition of `createGrid`; `AcceptedPieceExists` shows it never rejects every piece |
| Engine.AcceptedPieceExists | script.js:29-33 | the loop condition rejects at most one piece for the row and one for the column, so one of the first three pieces is accepted |
| Engine.PlacePiece | script.js:26-34 | the cell (r, c) gets a piece that the loop condition accepts, and every other cell keeps its content |
| Engine.FilledBoard | script.js:23-37 | a board filled cell by cell under the rejection rule is full, has no three in a row and has no match |
| Engine.CompactStep | script.js:130-135 | one pass of the compaction loop: the rows above `r` are untouched, and the survivors of the rows below `r` sit below `write` |
| Engine.CompactDone | script.js:129-135 | when the compaction loop ends, `write` is one above the survivors of the whole column |
| Engine.FisherYates | script.js:200-203 | the array after the loop is a permutation of the array before |
| Engine.FlatCopy | script.js:199 | a new array equal to `grid.flat()` |
| Engine.Rebuild | script.js:204-205 | the new board is the pieces cut into rows of SIZE, and flattening it gives the pieces back |
| Engine.ShuffledBoard | script.js:199-205 | a new SIZE x SIZE board holding the same multiset of cells; a board with no empty cell stays so |
| Engine.ShuffledIsFull | script.js:199-205 | a board whose flattening is a permutation of a full board's is full |
| Engine.Game.constructor | script.js:4-8 | the initial state followed by `newGame()` (script.js:213): no selection, not busy, no timer, 0 moves, a full board without match |
| Engine.Game.NewGame | script.js:187-194 | moves is 0, nothing is selected, and the new board is full with no three in a row and no match; `busy` and a pending timer are left as they were |
| Engine.Game.NewGameDuringRevert | script.js:187-194 | newGame while trySwap's revert is pending, then the timer: the idle board is the board newGame created (full, no match) with the reverted pair exchanged |
| Engine.StaleRevertMatches | script.js:152-155 | there is a board createGrid may build (full, no match) on which the revert of the adjacent pair (0, 0), (0, 1) creates a match |
| Engine.Game.NewGameWhenIdle | script.js:187-194 | corrected newGame: while busy nothing changes; otherwise moves is 0, nothing is selected, no timer is pending and the new board has no match |
| Engine.Game.NewGameThenTimer | script.js:187-194 | with the corrected newGame, the next timer leaves the new board exactly as created, and the board is idle |
| Engine.Game.CreateGrid | script.js:23-37 | a new SIZE x SIZE board, every cell a piece, no row or column with three consecutive equal pieces, hence no match |
| Engine.Game.SetSelected | script.js:58-62 | (r, c) becomes the selection |
| Engine.Game.ClearSelection | script.js:64-67 | nothing is selected |
| Engine.Game.Swap | script.js:74-78 | the board becomes `Swapped(old board, a, b)` |
| Engine.Game.FindMatches | script.js:80-109 | returns exactly `Matched(board)`, every returned coordinate is in bounds, and the board is not changed |
| Engine.Game.ScanRows | script.js:83-94 | returns exactly the cells in a run of 3 or more within their row |
| Engine.Game.ScanRow | script.js:84-93 | adds exactly the cells of row r that lie in a run of 3 or more |
| Engine.Game.ScanColumns | script.js:96-107 | adds exactly the cells in a run of 3 or more within their column |
| Engine.Game.ScanColumn | script.js:97-106 | adds exactly the cells of column c that lie in a run of 3 or more |
| Engine.Game.NullCells | script.js:117-122 | the board becomes `Cleared(old board, cells)`, whatever order the cells are visited in |
| Engine.Game.ClearMatches | script.js:111-125 | schedules the clear of `cells` (the callback runs in `OnTimer`) |
| Engine.Game.DropColumn | script.js:128-140 | column c is `Settled` from the old column; the other columns are unchanged |
| Engine.Game.Compact | script.js:129-135 | the write cursor ends one above the survivors, which fill the rows below it in order; other columns are unchanged |
| Engine.Game.Refill | script.js:136-139 | every row from the cursor up gets a piece; the rows below it and the other columns are unchanged |
| Engine.Game.DropPieces | script.js:127-145 | the board is `Dropped` from the old one (so it is full); then the matches of the new board are scheduled for clearing, or, when there are none, `busy` becomes false |
| Engine.Game.TrySwap | script.js:147-161 | the board is swapped and busy; with no match a revert of the same pair is scheduled and moves is unchanged; with a match moves grows by exactly one and the matched cells are scheduled for clearing |
| Engine.Game.SwapRejected | script.js:147-161 | a swap that makes no match, followed by its revert timer, leaves the board and moves as they were and ends not busy |
| Engine.Game.OnTimer | script.js:116-124 | runs the pending callback. For the clear of `clearMatches`, the board becomes `Dropped` from the cleared board, and then a new clear is scheduled exactly when it has a match. For the revert of `trySwap` (script.js:152-155), the pair is swapped back and `busy` becomes false. With nothing pending, nothing changes |
| Engine.Game.OnCellClick | script.js:163-180 | nothing changes while busy; otherwise it selects with no selection, deselects the selected cell, swaps through `trySwap` with an adjacent selected cell (clearing the selection), or moves the selection to any other cell |
| Engine.Game.Shuffle | script.js:196-208 | nothing changes while busy; otherwise a new SIZE x SIZE board with the same multiset of cells (no empty cell), and not busy afterwards |

## Left out

- DOM rendering and events are left out: `render`, `getCellEl`, `updateHUD`, the `classList`/`textContent` updates and the listeners (script.js:10-14, 39-56, 182-185, 210-213). They only display state.
- `score` is left out: it is only ever reset to 0.
- The 200 ms delays of `setTimeout` are left out. A scheduled callback is the `pending` field and runs when `OnTimer` is called; the model has nothing about time.
- `Math.random` is a nondeterministic choice. The distribution of pieces and the uniformity of the Fisher–Yates shuffle are not modelled.
- The `do`/`while` rejection loop of `createGrid` only ends with probability 1. `PlacePiece` picks an accepted piece directly, after proving that one exists. That termination is not claimed.
- The cascade `clearMatches` → `dropPieces` → `clearMatches` is not claimed to terminate. Each `OnTimer` call is one step of it.
- The `"r,c"` string keys of the `Set` are modelled as a set of `Coord` values.
- The six emoji of `PIECES` are modelled by their indices 0..5. They are pairwise distinct, so `===` on pieces is equality of indices.
- `grid = []` before the first `newGame()` is modelled by an empty 0 x 0 array, which the constructor replaces at once.
- Engine.Game.Shuffle: the rebuilt board is a new array, as in the source, but the model does not say which permutation was drawn. It states only that the multiset of cells is kept.

## Findings

| source | as written | input that shows it | evidently intended | confidence | as-written member | corrected member |
|---|---|---|---|---|---|---|
| script.js:187-194 | `newGame` neither checks nor resets `busy`, so a timer of the previous game fires on the new board: trySwap's revert (script.js:152-155) swaps two of its cells and releases the board, and a pending clear empties its cells | select (0, 0), then (0, 1) on a board where that swap makes no match, press New Game within 200 ms, and let `createGrid` draw `StaleBoard`: after the revert the idle board has three equal pieces at the top of column 0 | `newGame` does nothing while the board is busy, as `shuffle` (script.js:197) and `onCellClick` (script.js:164) do; cancelling the pending timer would fix it as well | medium, not executed | Engine.Game.NewGameDuringRevert with Engine.StaleRevertMatches | Engine.Game.NewGameWhenIdle with Engine.Game.NewGameThenTimer |
