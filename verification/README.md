# Tango solver, modelled in Dafny

This project models the backtracking solver of a browser extension for the
6×6 "Tango" puzzle. Every cell holds a sun, a moon or nothing. A finished
board has three suns and three moons in every row and every column. It has
no three equal symbols next to each other in a row or a column. Some edges
between neighbouring cells are marked "=" (the two cells must be equal) or
"X" (they must differ).

The solver has four parts:

- `isPlacementValid` checks one cell against the run-length rule, the
  balance rule and the edge rule.
- `isBoardCompleteAndValid` checks the exact 3/3 balance of every row and
  every column.
- `findEmpty` finds the first empty cell in row-major order.
- `solve` is a depth-first search. It tries a sun before a moon and empties
  the cell again when both fail.

The project has three modules:

- `TangoRules` (`rules.dfy`) states the rules declaratively: the cell and
  edge datatypes, the fixed matrix shapes, and what a valid placement, a
  complete board, a solution and a solvable grid are.
- `TangoFacts` (`facts.dfy`) proves facts about those rules. These include
  "a board that is exactly balanced is full", "a solution obeys every rule
  everywhere", and "removing values from a solution keeps every remaining
  placement valid". The search relies on the last one to prune safely.
- `TangoSolver` (`solver.dfy`) holds the solver's operations, written the
  way the source computes them. Each is proved equal to its declarative
  counterpart.

Encoding. The source stores cells as the integers `0`, `1` and `-1`. Here
they are `Empty`, `Sun` and `Moon`. Edge constraints `0`, `1` and `-1` are
`Free`, `Same` and `Differ`. The horizontal matrix is 5×6 and relates
(r, c) to (r+1, c). The vertical matrix is 6×5 and relates (r, c) to
(r, c+1). These shapes, and the grid's 6×6 shape, are the subset types
`HMatrix`, `VMatrix` and `Grid`. `GRID_SIZE` and `TARGET_COUNT` are the
constants `N` and `Target`.

Mutation. The source's `solve` changes one grid in place. Here `Solve`
takes the grid as a value. It returns the success flag together with the
grid's contents at the moment the call returns. Inside the search, the
grid is threaded through the same writes the source makes. Each candidate
is written into the cell, the recursive call hands back the grid, and the
cell is reset to empty after both candidates fail.

What is proved about `Solve`:

- It terminates. The set of empty cells shrinks strictly on every
  recursive call.
- On success the grid is a solution: full, every cell passes the placement
  rules, and exact balance holds. Every value filled in at entry keeps its
  value.
- On failure the grid is exactly the grid it was given.
- It succeeds if and only if some board that obeys the puzzle's rules
  keeps the grid's filled values. A board obeys the rules when it has no
  empty cell, no three equal symbols side by side in any row or column,
  exactly 3 suns and 3 moons in every line, and every "=" and "X" edge
  respected. So the search is sound, and it is complete: it finds a
  solution whenever the puzzle has one.

Every grid and matrix index the operations read is checked by the verifier
to lie inside the 6×6 grid or the 5×6 and 6×5 matrices.

## Model

| member | source | states |
|---|---|---|
| TangoSolver.IsPlacementValid | solver.js:4-52 | an empty cell always passes; a filled cell passes exactly when no window of three equal cells covers it in its row or column, its row and column each hold at most 3 suns and 3 moons, and every filled orthogonal neighbour satisfies the constraint on the shared edge |
| TangoSolver.NoTripleCheck | solver.js:8-17 | the six explicit window tests (cell in the middle, at one end, at the other, in the row and in the column) reject exactly the grids where some length-3 window containing the cell holds three equal symbols |
| TangoSolver.NoRunAround | solver.js:10-17 | the three in-bounds window tests on a line of six cover every window of three that contains the index |
| TangoSolver.CountLines | solver.js:19-28 | the single counting pass returns the number of suns and of moons over the whole row and the whole column, not a prefix |
| TangoSolver.Neighbours | solver.js:33-38 | the up/down/left/right table has four entries; every entry on the grid is adjacent to the cell and its constraint index lies inside the 5×6 or 6×5 matrix; every adjacent cell has an entry |
| TangoSolver.NeighbourLookup | solver.js:44 | the table's lookup (`hCons[r-1][c]`, `hCons[r][c]`, `vCons[r][c-1]`, `vCons[r][c]`) reads the constraint on the edge the two cells share |
| TangoSolver.EdgeCheck | solver.js:40-51 | the neighbour loop accepts exactly when every on-grid, filled neighbour satisfies the shared edge: equal under "=", different under "X", anything when unmarked |
| TangoSolver.IsBoardCompleteAndValid | solver.js:54-69 | returns true exactly when every row and every column holds exactly 3 suns and exactly 3 moons |
| TangoSolver.FindEmpty | solver.js:71-80 | returns nothing exactly when no cell is empty; otherwise returns an on-grid empty cell before which, in row-major order, every cell is filled |
| TangoSolver.CheckFullBoard | solver.js:85-91 | on a grid with no empty cell, the re-validation of every cell followed by the exact balance check succeeds exactly when the grid is a solution |
| TangoSolver.Solve | solver.js:83-107 | terminates; on success the returned grid is a solution keeping every value filled in at entry; on failure the grid is unchanged; success happens exactly when some board obeying the puzzle's rules keeps the grid's filled values |
| TangoFacts.CompleteIsFull | solver.js:54-69 | a board where every row is exactly 3/3 balanced has no empty cell |
| TangoFacts.CountMonotone | solver.js:20-30 | filling cells of a line never lowers its sun or moon count, so a line that already breaks the at-most-3 bound stays broken |
| TangoFacts.OverfullUnsolvable | solver.js:29-30 | a grid with a row or column that already holds more than 3 suns or more than 3 moons has no solution that keeps its values |
| TangoFacts.TripleUnsolvable | solver.js:10-17 | a grid that already holds three equal filled cells side by side in a row or a column has no solution that keeps its values, so the search on it fails |
| TangoFacts.PlacementOkBelowSolution | solver.js:97-98 | every filled cell of a grid that some solution extends passes the placement check, so the check never prunes a branch that leads to a solution |
| TangoFacts.RejectedUnsolvable | solver.js:98 | a grid with a cell that fails the placement check has no solution that keeps its values |
| TangoFacts.SolvableSplits | solver.js:96-106 | if a grid with an empty cell has a solution that keeps its values, so does the grid with a sun or the grid with a moon in that cell; giving up after both is therefore safe |
| TangoFacts.FullSolvable | solver.js:85-91 | on a full grid, having a solution that keeps its values is the same as being a solution |
| TangoFacts.FilledSolvable | solver.js:99-100 | a solution found after filling an empty cell also keeps every value of the grid before the write |
| TangoFacts.FillShrinks | solver.js:94-99 | writing a symbol into an empty cell removes exactly that cell from the set of empty cells, a strict decrease |
| TangoFacts.PutSame | solver.js:105 | writing back the value a cell holds leaves the grid unchanged; with PutPut this gives that resetting the cell to empty restores the entry grid |
| TangoFacts.PutPut | solver.js:97 | of two writes to one cell only the last is visible, so trying the moon overwrites the sun completely |
| TangoFacts.EdgeBetweenSymmetric | solver.js:33-38 | the constraint on an edge is the same whichever of its two cells names it |
| TangoFacts.SolutionObeysRules | solver.js:85-91 | a solution has no three adjacent equal symbols anywhere in a row or column, exact 3/3 balance in every line, and every "=" edge joining equal and every "X" edge joining different symbols |
| TangoFacts.RulesImplySolution | solver.js:85-91 | conversely, a full board with no three adjacent equal symbols, exact 3/3 balance in every line and every marked edge respected passes the search's final checks |
| TangoFacts.SolvableIffHasCompletion | solver.js:85-91 | a grid can be completed to a board passing the search's final checks exactly when it can be completed to a board obeying the puzzle's rules |

## Left out

- The page glue in `content_script.js` is not modelled: reading the grid
  and constraints from the document, writing the solution back, the timed
  status messages and the try/catch driver. It is user-interface I/O. The
  only thing it contributes is the matrix shapes built at
  content_script.js:63-65, which the subset types take as given.
- The implicit global binding of `solve` between injected scripts is not
  modelled. It is an execution-context detail; here the solver is an
  ordinary module that callers import.
- Cell and constraint values other than `0`, `1` and `-1` cannot be
  represented. The page reader only ever produces those three values.
- In-place mutation is modelled as a returned grid value, as described
  above. Aliasing of the grid by other code during the search is not
  modelled, because the search is synchronous.
- Solve: the contract does not say which solution comes back when the
  puzzle has several. The source returns the first one in its fixed search
  order (row-major cells, sun before moon). Stating that would need a
  definition of that order over whole boards, and the search's soundness,
  preservation, restore-on-failure and completeness do not depend on it.
- Running time and the amount of pruning are not modelled.
