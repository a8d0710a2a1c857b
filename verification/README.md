# N-ary Sudoku generator: a Dafny model of its core

The system builds random, fully solved Sudoku grids of box order `n` (an `n²×n²` grid,
`L = n²`) by randomized backtracking (`fillIn`). It then hides cells one at a time in random
order (`makeMask`). After each hide it asks a bounded solution counter (`solveCount`)
whether the puzzle still has a single solution, and un-hides the cell when the answer is
more than one. This project models that core as pure Dafny functions and proves what each
step guarantees.

Modelling conventions:

- A grid `Integer[][]` is `seq<seq<Option<int>>>`, with `None` for `null`. A mask
  `boolean[][]` is `seq<seq<bool>>`. Java's in-place mutation becomes a function that
  returns the new grid.
- `System.currentTimeMillis()` and `Collections.shuffle` become an `Oracle`. The oracle's
  `expired(t)` answers "has the time limit passed?" at the t-th impure call. Its
  `shuffle(t, s)` gives the order the t-th call produces. The only assumption is that a
  shuffle returns a permutation of its input. Every function threads the tape position
  `t` and returns the next free one.
- `fillIn`, `solveCount` and their `for` loops are mutually recursive functions. The loop
  is a function over the loop index.
- `solveCount` returns a log of the writes it made. `makeMask` returns a log of its probes,
  each a place and the count returned for it. The logs let the contracts talk about what
  happened in which order.
- `makeMask` and one pass of `Board(Integer)` take a `Counter`. `AsWritten` probes with
  `solveCount` as the program has it, which is the program itself. `Corrected` probes with
  the corrected counter of the Findings row. Every structural guarantee is proved for both;
  uniqueness of the puzzle is proved for `Corrected` only, since it fails for `AsWritten`.
- Coordinates follow the source. In `makePossible(b, x, y)` x is the row. In
  `isValidPlacement(b, x, y)` x is the column and the cell is `b[y][x]`. In `makeMask` a
  place `p` names `mask[p % L][p / L]`.

## Model

| member | source | states |
|---|---|---|
| Boards.MaskBoard | src/Board.java:22-31 | the result is an L×L grid that is `null` on every masked cell and equal to the board on every other cell (also what `getMaskedBoard`, line 236, returns) |
| Boards.MaskInPlace | src/Board.java:34-41 | masking in place nulls exactly the masked cells and keeps every unmasked cell (the else branch is a self-assignment) |
| Boards.MaskRowsFrom | src/Board.java:35-40 | after the outer loop from row i, rows from i on are masked and earlier rows are as given |
| Boards.MaskCellsFrom | src/Board.java:36-39 | after the inner loop from column j, cells from j on are masked and earlier cells are as given |
| Boards.MaskViewsAgree | src/Board.java:22-41 | the in-place masking and the fresh masked copy give the same grid |
| Boards.MaskIdempotent | src/Board.java:34-41 | masking twice with the same mask equals masking once |
| Boards.MaskHidesExactly | src/Board.java:20-31 | on a grid without `null` cells, the masked copy is `null` exactly where the mask is true |
| Boards.BoxStartBounds | src/Board.java:59-63 | the box start `(x / n) * n` is at most x, and the n cells from it lie inside the grid, so the box loops index in bounds |
| Boards.InBand | src/Board.java:59-64 | a row (or column) lies in the box band of x exactly when it has the same quotient by n as x |
| Candidates.Range | src/Board.java:46 | the list `1..L` (or `0..L²-1`) is increasing and holds exactly the integers of the range |
| Candidates.DistinctPermuted | src/Board.java:125 | a shuffle of the increasing candidate list has no repeated value |
| Candidates.RemoveFirst | src/Board.java:51 | `ArrayList.remove(Object)` on an increasing list keeps it increasing and removes exactly that value |
| Candidates.RemoveEach | src/Board.java:49-57 | after one scan, the list holds exactly the values of the input list that no scanned cell holds |
| Candidates.BoxRows | src/Board.java:61-66 | the box scan visits exactly the cells of the n×n box |
| Candidates.MakePossible | src/Board.java:44-69 | the candidate list is increasing, so it has no duplicates, and v is in it exactly when 1 <= v <= L and no cell of row x, column y or the box of (x, y) holds v |
| Candidates.IsValidPlacement | src/Board.java:72-92 | true exactly when `board[y][x]` is not `null` and no other cell of its row, column or box holds the same value |
| Fill.FillIn | src/Board.java:95-114 | returns -1, 0 or 1. It returns -1 with the board unchanged when the clock has expired at entry. It never changes a cell before the cursor. On 1, every cell from the cursor on holds a value in 1..L that no earlier peer holds, and the cursor cell holds a value `makePossible` offered on the grid the call started from. A 0 from the candidate branch leaves the cursor cell `null` |
| Fill.TryCandidates | src/Board.java:104-113 | the candidate loop keeps cells before the cursor. A success places every cell from the cursor on, with one of the shuffled candidates in the cursor cell, and a 0 after the last candidate leaves the cell `null` |
| Fill.FillFromStartSolves | src/Board.java:95-114 | a fill started at (0, 0) that returns 1 leaves a solved grid: every cell in 1..L, and no two cells of one row, column or box equal |
| Fill.PlacedIsPossible | src/Board.java:100-106 | a cell holds a fresh value exactly when it holds a value `makePossible` offers for it on the grid with every cell from that cell on emptied |
| Fill.MakeBoardAttempt | src/Board.java:178-183 | one attempt of `makeBoard` fills a fresh all-`null` grid from (0, 0). A success is a solved grid |
| Count.SolveCount | src/Board.java:117-135 | returns -1 with nothing written when the clock has expired at entry. At `row == L` it returns 1 with the masked cells nulled and the others kept. It never changes a filled unmasked cell. Every write went into a cell that was `null` when visited, with a value `makePossible` offered then. Every changed cell is either nulled and masked or holds a logged value |
| Count.SolveEmpty | src/Board.java:123-126 | at an empty cell, whether or not there are candidates, every write is a value `makePossible` offered, and every filled unmasked cell is kept |
| Count.CountCandidates | src/Board.java:127-134 | the candidate loop writes only values `makePossible` offered for the visited empty cell. It keeps every other filled unmasked cell. Once `count >= 2` it writes nothing and tries no more candidates |
| Masking.PlaceCol | src/Board.java:206-207 | for every place `0 <= p < L²`, `p / L` (and `p % L`) is an index of the mask |
| Masking.PlacesApart | src/Board.java:206-208 | different places name different cells `mask[p % L][p / L]` |
| Masking.PermutedRange | src/Board.java:201-203 | the shuffled list of places has L² distinct entries, each in `0..L²-1`, and contains each of them |
| Masking.MakeMask | src/Board.java:192-215 | with the program's counter (`AsWritten`, the `solveCount` of line 209) and with the corrected one alike: returns 1 or -1. It probes distinct places only, in the order the shuffle of line 202 gave them. On 1 it has probed every place in `0..L²-1` exactly once. On -1 the last probe, and only that one, returned -1. A probed place stays hidden exactly when its probe returned at most 1. A place never probed is not hidden, since the mask starts all false. Only with the corrected counter, a 1 on a solved board also means the board is the only solution of the puzzle the mask leaves |
| Masking.MaskPlaces | src/Board.java:196-214 | the same guarantees as `MakeMask`, for either counter, once the places are shuffled: the probes name a prefix of the shuffled places, in order, starting from an all-false mask |
| Masking.MaskLoop | src/Board.java:205-214 | for either counter, from any point of the loop: the probes so far are kept, every further probe follows the shuffled order, and the mask records each probe's outcome |
| Masking.MaskTurn | src/Board.java:206-210 | for either counter, one turn hides the place's cell and probes. A probe of -1 ends the loop with -1 |
| Masking.MaskNext | src/Board.java:211 | for either counter, a count above 1 un-hides the cell and any other count keeps it hidden; the loop then goes on with the next place |
| Masking.ProbeUnique | src/Board.java:209-211 | with the corrected counter as the probe (the corrected half of the Findings row): on a solved board a probe that does not time out counts at least one solution, and a count of at most one means the board is the only solution of the masked puzzle |
| Masking.LoopUnique | src/Board.java:205-214 | with the corrected counter (the corrected half of the Findings row), the loop keeps uniqueness: from a mask whose puzzle has the board as only solution, a loop that ends with 1 leaves such a mask again |
| Masking.KeptHides | src/Board.java:208-211 | for either counter, a turn whose probe counts 0 or 1 keeps its hide and every earlier hide to the end of a loop that returns 1 |
| Masking.NothingHiddenUnique | src/Board.java:198-200 | with the all-false starting mask, a solved board is the only solution of its own puzzle |
| Masking.HideShow | src/Board.java:208-211 | hiding a visible cell and then showing it again gives back the mask before the turn |
| Masking.Retarget | src/Board.java:208-211 | writing the cell of one place changes the mask entry of that place only |
| Puzzle.BuildAttempt | src/Board.java:157-164 | one pass of building a puzzle, for either counter: on success the board is solved, every place was probed, and a cell is hidden exactly when its probe counted at most 1. Only with the corrected counter is the board also the only solution of the puzzle shown |
| Solutions.CountSolutions | src/Board.java:116-135 | the corrected counter returns -1 whenever the clock has expired at entry, never less than -1, and a count that is never negative when the clock never expires |
| Solutions.CountEach | src/Board.java:127-134 | its candidate loop never lowers the count. Once the count reaches two it stops there |
| Solutions.CountFinds | src/Board.java:116-135 | completeness: from a cursor with every earlier cell filled, one solution makes the count at least 1 and two different solutions make it at least 2, unless the clock expires |
| Solutions.EmptyCellFinds | src/Board.java:123-126 | at an empty cell the candidate list is not empty when a solution exists, and the loop over the shuffled candidates finds what `CountFinds` promises |
| Solutions.CountEachFinds | src/Board.java:127-131 | from loop index i the count reaches what it already holds plus one per solution whose value at the cursor is still to be tried, capped at two |
| Solutions.SolutionIsCandidate | src/Board.java:123 | at an empty cell, a solution's value there is among the values `makePossible` offers |
| Solutions.SameWhereFilled | src/Board.java:119 | once the cursor has passed every cell, the grid has at most one solution |
| Counterexample.AsWrittenCountsOne | src/Board.java:117-135 | the 4×4 grid `Given` has two different solutions, yet `solveCount` as written returns 1 on it for every shuffle while the clock does not expire |
| Counterexample.CorrectedCountsTwo | src/Board.java:117-135 | on the same grid the corrected counter reaches two |
| Counterexample.AsWrittenProbeKeeps | src/Board.java:209-211 | the program's probe on the puzzle `Hide` leaves of `First` returns 1, so `makeMask` keeps that hide, although `Second` also solves the puzzle |
| Counterexample.AsWrittenKeepsHide | src/Board.java:205-214 | in the program's `makeMask` on `First`, once a turn completes the hides of `Hide`, a loop that returns 1 leaves a puzzle that does not have `First` as its only solution |
| Counterexample.FilledRow | src/Board.java:120-121 | as written, from a running count of 0 and with a clock that never expires, a cursor on a row filled from column col on passes to the start of the next row with the same result |
| Counterexample.LoneCandidate | src/Board.java:123-134 | as written, from a running count of 0 and with a clock that never expires, an empty cell with a single candidate is filled with it and the search goes on at (row + 1, col) with the same result |
| Puzzle.CheckBoard | src/Board.java:224-231 | true exactly when every cell passes `checkBox`, that is no box holds a value other than the solution's |
| Puzzle.CheckMeansSolved | src/Board.java:218-231 | with every box filled in, the check passes exactly when the entered grid is the solution. On a solved board a passing check means the entered grid is solved |

## Left out

- The JavaFX shell is not part of this model: `Main.java`, the constructor
  `Board(Integer, GridPane)` and `newBox`. `checkBox` reads JavaFX choice boxes. Its
  boxes become a grid of `Entry` values: `Given` for a cell without a box, `Blank` for a
  box with no value, `Chosen(v)` for a chosen value.
- `Tester.java` is not part of this model; it only times and prints.
- `getLimit` uses floating-point `Math.pow`. The limit only decides when the clock
  reports expiry, so it lives inside the `expired` oracle.
- The retry loops of `makeBoard` and `Board(Integer)` have no bound. `MakeBoardAttempt`
  and `BuildAttempt` model one pass of each.
- Console printing in `makeBoard` is left out.
- SolveCount: the unused `int n` parameter is dropped.
- SolveCount: counts are unbounded integers. Java's `int` cannot overflow here, since
  every count is at most a small multiple of the recursion depth.
- Puzzle.CheckBoard: when a chosen box sits on a `null` cell of the solution, Java would
  throw `NullPointerException`. The model reports the cell as wrong. The object's board
  is always solved, so this never happens.
- Count.SolveCount: its contract does not claim that the result is the number of
  solutions of the masked grid. As written, it is not (see Findings).
- Fill.PlacedIsPossible: it ties a placed value to `makePossible` on the grid with every
  later cell emptied, not on the grid as it stood at placement time. A fill that times
  out inside an abandoned branch can leave later cells filled, and the model keeps no log
  of the grids `fillIn` saw. `Fill.FillIn` states the placement-time fact for the cursor
  cell only.

## Findings

| source | as written | input that shows it | evidently intended | confidence | as-written member | corrected member |
|---|---|---|---|---|---|---|
| src/Board.java:120-131 | after writing a candidate, `solveCount` recurses to (row + 1, col) instead of (row, col + 1). It hands the running count down and adds it back on return, and a write is not undone when its branch dead-ends | the box-order-2 grid `Counterexample.Given`, which has the two solutions `First` and `Second`: the count is 1, so `makeMask` on `First` keeps the hides of `Counterexample.Hide` although the puzzle is no longer unique | count the solutions of the masked grid and stop at two | not executed | Counterexample.AsWrittenCountsOne, Counterexample.AsWrittenProbeKeeps, Counterexample.AsWrittenKeepsHide | Solutions.CountSolutions, Solutions.CountFinds, Masking.LoopUnique |
