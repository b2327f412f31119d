# N-Queens visualizer: a verified model of the solver

The N-Queens visualizer opens a window that shows the solutions of the N-Queens puzzle one after
another. Its logic is a backtracking search, `solveNQueens`. The search places queens row by row on an
`N`×`N` board of `int` cells (1 = queen, 0 = empty). It asks `isSafe` whether a square is attacked by
a queen on an earlier row. At a full board it reads back each row's queen column and appends that
array to the `solutions` list. A cursor, `nextSolution`, then steps the displayed index round that
list.

The repository holds this logic twice, in `Main.java` and `NQueen.java`. `NQueen.java` also declares a
class `Main`, without the Start/Stop buttons. The two copies of the solver, the safety scan and the
cursor are identical line for line. This project models them once:

| logic | Main.java | NQueen.java |
|---|---|---|
| fields `N`, `board`, `solutions`, `currentSolutionIndex` | 8-11 | 6-9 |
| constructor: allocate the board, run the search from row 0 | 15-22 | 11-18 |
| `solveNQueens`: full board read back | 55-67 | 24-36 |
| `solveNQueens`: place, recurse, undo | 70-76 | 39-45 |
| `isSafe` | 80-95 | 49-64 |
| `nextSolution` | 144-147 | 93-96 |

Files:

- `queens.dfy`, module `Queens`: the puzzle and the search order, stated on values. It holds the attack relation, non-attacking placements
  (`cols[r]` = column of the queen on row `r`) and lexicographic order. `Completions(n, cols)` enumerates
  the completions of a partial placement in the order the search tries its columns. The lemmas prove
  that the enumeration is exactly the set of solutions, each found once, in strictly increasing
  lexicographic order, and they give the results for boards of size 0 to 4.
- `visualizer.dfy`, module `NQueensVisualizer`: the solver state as a class `Visualizer`. The board is
  an `array2<int>` updated in place and `solutions` is a `seq<seq<int>>` that only grows. `IsSafe`,
  `SolveNQueens` (with the read-back loop as `ReadPlacement`) and `NextSolution` are methods proved
  against the functions of `Queens`. `NextIndex` and `IndexAfter` describe the cursor.

The search invariant is `Holds(cols) && NonAttacking(cols)`, carried by a ghost parameter `cols` of
`SolveNQueens`. `Holds(cols)` says the board has a queen exactly on the squares `(r, cols[r])` for
`r < |cols| == row` and that all other cells are 0. `NonAttacking(cols)`, a separate precondition, says no
two of those queens attack each other. From it the model proves:

- every recorded solution is a placement of `N` pairwise non-attacking queens on the board;
- every solution is recorded exactly once, in increasing lexicographic order;
- earlier entries of `solutions` are never changed;
- the board is restored on return;
- every array read is in bounds, and the read-back loop always finds the queen of its row.

## Model

| member | source | states |
|---|---|---|
| `NQueensVisualizer.Visualizer.constructor` | NQueen.java:11-18 | After construction the board is all zero, the index is 0, and `solutions` is the search's enumeration from the empty board: exactly the solutions of the N-Queens puzzle, strictly increasing in lexicographic order. |
| `NQueensVisualizer.Visualizer.IsSafe` | Main.java:80-95 | Returns true exactly when no queen on rows `0..row-1`, in any column, attacks (row, col) by column or diagonal. It reads only the three candidate squares per row, and the guards at lines 87 and 90 keep those reads on the board. |
| `NQueensVisualizer.Visualizer.UnattackedIsSafeFor` | Main.java:81-92 | On a board holding the placement `cols`, the scan's condition on the board is the same as: no queen of `cols` attacks the next row's square (`SafeFor`). |
| `NQueensVisualizer.Visualizer.ReadPlacement` | Main.java:57-65 | On a full board holding `cols`, the nested loops read back exactly `cols`. Each row's scan stops at the row's queen, so no entry keeps the default 0 by accident. |
| `NQueensVisualizer.Visualizer.SolveNQueens` | Main.java:54-77 | From a board holding a non-attacking placement of rows `< row`, it appends exactly `Completions(N, cols)` after the old solutions (existing entries unchanged) and leaves every board cell as it found it. |
| `NQueensVisualizer.Visualizer.NextSolution` | Main.java:144-147 | With a non-empty list the index becomes `NextIndex(old index, size)` and stays within the list. With an empty list the remainder by zero fails and the index is unchanged. |
| `NQueensVisualizer.NextIndex` | Main.java:145 | `(index + 1) % size` is the next index, or 0 after the last one; always `< size`. |
| `NQueensVisualizer.IndexAfterVisitsAll` | Main.java:143-147 | Starting from 0, after `k < size` steps the cursor shows solution `k`: every solution is shown. |
| `NQueensVisualizer.IndexAfterPeriodic` | NQueen.java:92-96 | After `size` further steps the cursor is back where it was: it cycles through the solutions. |
| `Queens.ExtendNonAttacking` | Main.java:71-73 | Adding a queen in the next row keeps a non-attacking placement non-attacking exactly when `isSafe` would accept it. |
| `Queens.CompletionsShape` | Main.java:55-66 | Every recorded array has one entry per row and extends the placement on the board when the search was entered. |
| `Queens.CompletionsFromShape` | Main.java:70-76 | Every solution found while trying columns `col..N-1` of the next row has its queen there in column `col` or later. |
| `Queens.CompletionsSound` | Main.java:54-77 | Starting from a non-attacking placement on the board, every recorded array has all columns in `[0, N)` and is pairwise non-attacking: distinct columns, and unequal row and column distances. |
| `Queens.CompletionsFromSound` | NQueen.java:39-45 | The same soundness for the solutions found from a given column of the next row. |
| `Queens.CompletionsComplete` | Main.java:53-77 | Every solution that extends the current placement is recorded ("find all solutions"). |
| `Queens.CompletionsFromComplete` | NQueen.java:39-45 | Every solution whose next-row queen is at column `col` or later is found by the loop from `col`. |
| `Queens.BranchesOrdered` | Main.java:70 | A solution found under column `col` precedes, lexicographically, every solution found under a later column. |
| `Queens.CompletionsSorted` | Main.java:70-76 | The solutions are recorded in strictly increasing lexicographic order. |
| `Queens.CompletionsFromSorted` | NQueen.java:39 | The same for the solutions found from column `col` on, as columns are tried in increasing order. |
| `Queens.SortedDistinct` | NQueen.java:35 | A strictly sorted list of solutions has no duplicate entries. |
| `Queens.SolutionsExactlyOnce` | Main.java:53-77 | From the empty board: an array is recorded exactly when it is a solution of the puzzle. The list is strictly sorted lexicographically and has no duplicates. |
| `Queens.NoQueens` | NQueen.java:24-36 | For N = 0 the first call is already at `row == N` and records exactly one empty solution. |
| `Queens.OneQueen` | Main.java:54-77 | For N = 1 the only recorded solution is `[0]`. |
| `Queens.TwoQueens` | Main.java:54-77 | For N = 2 nothing is recorded, which makes `nextSolution` fail. |
| `Queens.ThreeQueens` | NQueen.java:23-46 | For N = 3 nothing is recorded either. |
| `Queens.FourQueens` | Main.java:54-77 | For N = 4 the list is exactly `[1,3,0,2]` followed by `[2,0,3,1]`. |

## Left out

- Rendering (`paint` in both files): Swing drawing with pixel arithmetic, not logic. Its `600 / N` divides by zero at N = 0, but only in drawing code.
- Window setup, the Start/Stop buttons, their listeners and the `repaint()` calls: UI plumbing.
- `startAnimation`, `stopAnimation` and `isAnimating`: they only create and stop a `javax.swing.Timer`, a library object driven by the event thread. The model takes each timer tick to be one call of `NextSolution`.
- `main` and `SwingUtilities.invokeLater`: thread hand-off with a hard-coded N = 8.
- NQueensVisualizer.Visualizer.constructor: takes `n: nat`. For a negative N the Java allocation `new int[N][N]` throws NegativeArraySizeException, and that path is not modelled.
- NQueensVisualizer.Visualizer.NextSolution: `failed` stands for the ArithmeticException thrown when the list is empty (N = 2 or 3). In Java the exception leaves the timer callback and `repaint()` is skipped. The model leaves the index unchanged and returns `failed`. The search itself cannot fail. Only the cursor's remainder by zero can, and the model follows the code.
- Recorded solutions are Java `int[]` references. The model stores their contents as values, which is faithful because no array is written after it is appended.
- 32-bit arithmetic: integers are unbounded in the model. No Java `int` in the solver can overflow. The diagonal probes `col - (row - i)` and `col + (row - i)` (Main.java:87 and 90, NQueen.java:56 and 59) range over (-N, 2N), and all other values are indices below N or below the list's size. A board with N > 2^30 cannot be allocated, because `new int[N][N]` would need about 2^60 cells, so 2N stays below 2^31.
- The count of 92 solutions for N = 8 is not proved. The small boards 0 to 4 are proved, and so is the characterization that holds for every N.
- Running time and the exponential size of the search tree. Termination uses the measure `N - row`.
