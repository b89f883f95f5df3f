# Sudoku backtracking solvers, modelled in Dafny

This project models the solving core of a Sudoku program. The board is n-by-n
with rectangular blocks of `blockRows` by `blockCols` cells. A cell holds a
value (0 means empty) and a flag saying whether it was a clue; writes to a clue
are ignored. The board answers "may v go at (row, col)?" (`is_valid_cell`) and
"where is the first empty cell?" (`find_empty_cell`).

Three recursive backtracking solvers work on it:

- the plain solver (`Solver.solve`) branches on the first empty cell and tries
  1..n;
- the MRV solver (`MRVSolver.solve`) branches on the first empty cell with the
  fewest candidates, returning at once at a cell with none;
- the LCV solver (`LCVSolver.solve`) selects a cell like MRV but also returns
  at once at a cell with exactly one candidate. It tries the candidates in
  ascending order of how many empty neighbours still accept them, ties kept in
  ascending value order, and takes the neighbour sets from a precomputed table
  or recomputes them on each call.

All three re-check validity before each write and reset the cell to 0 after a
failed branch.

The board is an immutable value: every write is `Boards.SetCell`, which returns
a new board. The three solvers are one function, `Solvers.Solve` with
`Solvers.TryValues`, parameterised by a `Strategy` that chooses the cell and the
value order. What is proved:

- success yields a completion of the input board (`Completions.IsCompletion`);
- failure gives back the input board unchanged, because each reset undoes its
  write exactly;
- each solver succeeds exactly when a completion exists;
- a successful solve leaves no empty cell; it is a solved Sudoku exactly when
  the clues are consistent, since no solver checks the clues against each other;
- the two neighbour modes of the LCV solver produce the same outcome (both
  modes compute their sets with one function; see below);
- the value ordering is a stable sort by constraint score, and any stable sort
  gives the same order.

Modules:

- `Cells`: the cell and its write;
- `Boards`: layout, construction, blocks, validity query, first-empty scan,
  write, and the empty-cell count that the recursion decreases;
- `Completions`: what a solved board is;
- `Mrv`: candidate lists and the minimum-count scan;
- `ScoreSort`: the stable sort;
- `Lcv`: neighbours, LCV selection and value ordering;
- `Solvers`: the shared backtracking and the three entry points;
- `Wrappers`: `Option`.

## Model

| member | source | states |
|---|---|---|
| Cells.NewCell | board.py:5-10 | the cell keeps its initial value and is a clue exactly when that value is nonzero, so a clue is never empty |
| Cells.SetValue | board.py:12-14 | a write never changes whether a cell is a clue; a clue comes back unchanged; a non-clue takes the new value; the clue invariant is preserved |
| Cells.WritesKeepClues | board.py:5-14 | after any sequence of writes a clue still holds its original value, and a cell built from 0 never becomes a clue |
| Boards.NewBoard | board.py:23-27 | the board is n-by-n with the given block sizes (9, 3 and 3 by default); cell (r, c) holds grid_init[r][c] and is a clue iff that is nonzero; when the blocks tile the grid the board is well formed |
| Boards.BlockIndexIsDiv | board.py:33-34 | the block index of a non-negative coordinate is its floor quotient x // size |
| Boards.AnchorRange | board.py:33-37 | the block rectangle anchored at (x // size) * size lies inside the grid, contains x, and holds exactly the non-negative coordinates with the same block index as x |
| Boards.RowColClear | board.py:30-32 | the row-and-column loop from index i succeeds iff no cell of the row or column at index >= i holds v |
| Boards.BlockClear | board.py:33-38 | the block double loop from (x, y) succeeds iff no block cell at or after (x, y) in row-major order holds v |
| Boards.IsValidCell | board.py:29-39 | true iff no cell in the same row, column or block, including the cell itself, holds v; so a valid v is never the cell's own value |
| Boards.FindEmptyFrom | board.py:42-46 | the scan from (row, col) finds nothing iff every cell from there on is filled; otherwise it returns the first empty cell from there on in row-major order |
| Boards.FindEmptyCell | board.py:41-46 | None iff the board has no empty cell; otherwise an in-range empty cell such that every cell before it in row-major order is filled |
| Boards.SetCell | board.py:79-83 | the target cell becomes the result of set_value on the old cell; every other cell and the layout are unchanged; well-formedness is preserved |
| Boards.SetCellUndo | solve.py:25-28 | writing v into an empty free cell and then writing 0 back restores the board exactly |
| Boards.FillDecreasesEmptyCount | solve.py:24-26 | filling an empty free cell with a nonzero value lowers the number of empty cells by exactly one, so the recursion terminates |
| Mrv.ValidValues | solve_lcv.py:62-65 | the candidate list (built the same way at solve_lcv.py:84, and only counted at solve_mrv.py:31-34) is exactly the values 1..n valid at the cell, in strictly ascending order |
| Mrv.CandidateCountCounts | solve_mrv.py:31-34 | the count loop's result is the number of values in 1..n valid at the cell; it is at most n, and it is 0 exactly when no value is valid there |
| Mrv.ScanMin | solve_mrv.py:26-40 | the row-major scan with early return at a count <= stopAt returns None iff the board is full; otherwise every earlier empty cell has a larger count and more than stopAt candidates, and, unless it stopped early, no empty cell has fewer candidates |
| Mrv.FindEmptyCellMrv | solve_mrv.py:25-40 | None iff the board is full; otherwise an empty cell with the minimum candidate count, and every empty cell before it has strictly more candidates |
| Mrv.MrvSelectsFirstDeadCell | solve_mrv.py:35-36 | if some empty cell has no candidate, MRV selects a cell with no candidate that is not after it: the first dead cell |
| Lcv.RowNeighbors | solve_lcv.py:37-39 | the row loop lists exactly the cells of the row from index k on, other than the cell itself |
| Lcv.ColNeighbors | solve_lcv.py:40-42 | the column loop lists exactly the cells of the column from index k on, other than the cell itself |
| Lcv.BlockNeighbors | solve_lcv.py:45-48 | the block loop lists exactly the cells of the block rectangle from (x, y) on, other than the cell itself |
| Lcv.LazyNeighbors | solve_lcv.py:34-49 | the deduplicated neighbour set is exactly the in-range peers: cells other than the cell itself that share its row, column or block |
| Lcv.PrecomputeFrom | solve_lcv.py:16-31 | filling the table in row-major order yields one entry per cell, each equal to the lazily computed neighbour set |
| Lcv.PrecomputeNeighbors | solve_lcv.py:10-12 | the eager table has exactly the cells of the grid as keys, each mapped to its lazy neighbour set |
| Lcv.GetNeighbors | solve_lcv.py:33-51 | in either mode the neighbours of a cell are exactly its in-range peers |
| Lcv.NewLcvSolver | solve_lcv.py:4-12 | the constructed solver keeps the requested mode (lazy by default) and suits the layout: in eager mode its table holds every cell's neighbour set |
| Lcv.NeighborsAgree | solve_lcv.py:33-51 | any two solvers suited to the layout, so in particular the table lookup and the recomputation, return the same neighbour set for every cell |
| Lcv.SelectUnassignedCell | solve_lcv.py:53-75 | None iff the board is full; otherwise the scan choice with early return at count <= 1, carrying exactly the valid values of that cell in ascending order |
| Lcv.SelectionCases | solve_lcv.py:67-75 | if some empty cell has at most one candidate, the selected cell has at most one and every empty cell before it has two or more; otherwise the selected cell has the minimum count and every earlier empty cell has strictly more |
| Lcv.CandidatesOrValid | solve_lcv.py:83-84 | a given candidate list is used as is; without one, the list is exactly the values 1..n valid at the cell, in ascending order |
| Lcv.ConstraintLoop | solve_lcv.py:85-90 | looping over any duplicate-free listing of the neighbour set and counting the neighbours that are empty and where v is still valid gives Constraint, the size of the set of such neighbours |
| Lcv.OrderValues | solve_lcv.py:77-92 | the ordered list is a permutation of the given candidate list, or of the valid values when none is given |
| Lcv.OrderValuesSortedStable | solve_lcv.py:85-92 | the ordered list is ascending in constraint score, and for every score its values appear in their order in the candidate list |
| Lcv.OrderAgree | solve_lcv.py:81 | the value order is the same for any two solvers suited to the layout, so in both neighbour modes |
| ScoreSort.SortByScore | solve_lcv.py:91 | the sort's output is ascending by score and a permutation of its input |
| ScoreSort.SortByScoreStable | solve_lcv.py:91 | for every score, the elements with that score keep their input order |
| ScoreSort.StableSortUnique | solve_lcv.py:91 | two sequences that are both sorted by score and agree per score are equal, so every stable sort gives this order |
| Solvers.ChooseFirstEmpty | solve.py:16-23 | None iff the board is full; otherwise find_empty_cell's cell, the first empty cell in row-major order, with the values 1..n in ascending order |
| Solvers.ChooseMinRemaining | solve_mrv.py:43-49 | None iff the board is full; otherwise find_empty_cell_mrv's cell, which has the fewest candidates of any empty cell, with the values 1..n in ascending order |
| Solvers.ChooseLeastConstraining | solve_lcv.py:96-102 | None iff the board is full; otherwise the cell _select_unassigned_cell selects, an empty free cell, with order_values_lcv's order of that cell's candidates; the values lie in 1..n and include every valid value |
| Solvers.Solve | solve.py:13-29 | success yields a completion of b; failure returns b itself; a full board is solved at once and unchanged |
| Solvers.TryValues | solve.py:23-29 | the loop over the remaining values either completes b or leaves it exactly as it was |
| Solvers.CompletionValueIndex | solve.py:23-24 | the value a completion puts in the chosen cell is one of the values the loop tries there |
| Solvers.SolveComplete | solve.py:13-29 | if b has any completion, the search succeeds |
| Solvers.TryComplete | solve.py:23-29 | if a completion's value for the cell is still ahead in the order, the loop succeeds |
| Solvers.SolvedIffSolvable | solve.py:13-29 | every strategy succeeds exactly on the boards that have a completion |
| Solvers.SolveDfs | solve.py:13-29 | succeeds iff a completion exists; on success the board is completed, on failure unchanged, and a full board returns (True, unchanged) |
| Solvers.SolveMrv | solve_mrv.py:42-61 | the same four promises for the MRV solver |
| Solvers.SolveLcv | solve_lcv.py:94-115 | the same four promises for the LCV solver, in either neighbour mode |
| Solvers.UniqueCompletionAllAgree | solve_mrv.py:42-61 | when a board has exactly one completion, all three solvers succeed with that same board |
| Solvers.SolvedIsSolution | solve.py:17-20 | with consistent clues, a solved board is full and has no two equal peers |
| Solvers.SolvedIsFull | solve.py:13-29 | a successful solve leaves no empty cell, whatever the clues |
| Solvers.SolutionNeedsConsistentClues | solve.py:17-20 | if a solve ends in a solved Sudoku, the starting clues were consistent; with SolvedIsSolution, a solved board is a solved Sudoku exactly when the clues are consistent |
| Solvers.DuplicateClueSolved | solve.py:16-20 | a full 2-by-2 board whose rows repeat a clue is well formed, has inconsistent clues, and is reported solved, unchanged |
| Solvers.NoValidValueFails | solve.py:23-29 | when no remaining value is valid, the loop fails and writes nothing |
| Solvers.FirstSuccess | solve.py:23-29 | the reference for the loop's choice: the index of the first remaining value that passes the validity check and whose branch is solved, every earlier value failing, or the end of the order when none succeeds |
| Solvers.TryValuesFirst | solve.py:23-29 | the loop returns the outcome of the branch of the first value in order that succeeds, and fails with b unchanged when none does, so the order decides which completion is returned |
| Solvers.SolveFirst | solve_lcv.py:101-115 | on a board with an empty cell, each solver returns the branch of the first value in its own order (1..n for DFS and MRV, least-constraining first for LCV) that succeeds at its chosen cell |
| Solvers.MrvFailsAtDeadCell | solve_mrv.py:35-36 | with an empty cell without candidates, MRV branches on a dead cell no later than it, where no value of 1..n passes the validity check, so no value succeeds and the solver fails with the board unchanged, without entering any branch |
| Solvers.SelectAgree | solve_lcv.py:96-102 | two LCV solvers suited to the board's layout choose the same cell and the same value order |
| Solvers.SolveAgree | solve_lcv.py:94-115 | two LCV solvers suited to the board's layout return the same outcome, success flag and board alike |
| Solvers.EagerLazySolveAgree | solve_lcv.py:4-12 | the eager and lazy LCV solvers return the same outcome on every well-formed board |
| Completions.PlaceThenComplete | solve.py:24-27 | placing a valid value in an empty cell and completing the result completes the original board |
| Completions.CompletionValueValid | board.py:29-39 | a completion's value in an empty cell lies in 1..n and is valid there on the original board |
| Completions.CompletionOfPlaced | solve.py:24-26 | a completion of b also completes b with its own value placed in one empty cell |
| Completions.CompletionOfConsistentIsSolution | solve.py:17-20 | when no two peers share a clue, every completion is full and has no two equal peers |

## Left out

- draw_grid and color_text: console rendering only. The drawFlag branches of
  the solvers and update_cell_draw perform the same cell write as set_value,
  so one write models both. The clear-screen call and the sleep in
  update_cell_draw are commented out in the code.
- get_value and isfixed are plain reads of the cell's fields, so they are the
  datatype fields `value` and `isFixed`.
- main.py, gen_input.py, gen_testcase.py, performance_eval.py and Evaluation.py
  are not part of this model. They hold file input, puzzle generation, timing
  and memory measurement.
- Mutation of the shared board is modelled by returning new boards. Aliasing
  between a solver and its caller's board is not modelled.
- Boards.IsValidCell: requires blocks that tile the grid (n divisible by both
  block sizes). Other layouts make the code index past the grid or miss cells,
  and the program only uses tiling layouts.
- Boards.NewBoard: requires grid_init to have at least n rows of at least n
  entries; a shorter input raises an IndexError.
- Boards.BlockIndex: computes x // size by repeated subtraction; BlockIndexIsDiv
  proves it equal to floor division for non-negative x, and coordinates are
  never negative.
- Solvers.SolvedIsSolution: requires consistent clues. No solver compares two
  clues, and is_valid_cell is only asked about empty cells. So a board with a
  repeated clue is reported solved whenever its empty cells can be filled
  (Solvers.DuplicateClueSolved), not rejected as a stated promise of the
  program says. The model follows the code.
- Lcv.PrecomputeFrom: the eager table is filled with Lcv.LazyNeighbors itself.
  The code's two neighbour loops (solve_lcv.py:18-31 and solve_lcv.py:36-49)
  are the same line for line, so one function models both. Lcv.NeighborsAgree
  and Solvers.EagerLazySolveAgree therefore show that the table and its lookup
  are right, not that two independent computations agree.
- Cell values are unbounded integers. The code never writes a value outside
  0..n.
- Mrv.FindEmptyCellMrv: the code starts best_count at n + 1. The model starts
  with no best cell. These agree because a count is never above n.
- Lcv.SelectUnassignedCell returns at once at the first empty cell with one
  candidate, as the code does. So it can pick that cell even when a later cell
  has none; Lcv.SelectionCases states both readings.
- ScoreSort.SortByScore is an insertion sort, not Python's Timsort. Both are
  stable sorts by score, and StableSortUnique shows that any two such sorts give
  the same sequence.
- Lcv.Constraint: counts the neighbour set directly. The code iterates over a
  tuple made from that same set; Lcv.ConstraintLoop shows the loop over any
  duplicate-free listing of the set gives the same count.
- Performance (the point of the eager table) and recursion depth limits are not
  modelled.
