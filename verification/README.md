# Hitori puzzle engine in Dafny

This project models the engine of a Hitori game. The puzzle is a square grid of numbered cells. The player blacks out (covers) cells under two rules:

- **rule 2**: no two covered cells are orthogonally adjacent;
- **rule 3**: the white (uncovered) cells form one orthogonally connected region.

The player wins when no row and no column has two white cells with the same number.

The Java engine holds a mutable `Cell[][]`. The model turns it into an immutable value, `Puzzle(size, cells: seq<seq<Cell>>)`. Each move becomes a pure function from the old grid to the new one. `Cell` keeps the Java fields: a number and a `white` flag. "Covered" means not white.

Modules:

- `Cells` (`cell.dfy`) covers `Cell.java`: creating a cell, `cover`, `uncover`, `isCovered` and `getValue`.
- `Grid` (`grid.dfy`) holds the puzzle value and its well-formedness (square, non-empty). It also holds:
  - the accessors `get`, `getSize` and `isValidPosition`;
  - the unconditional moves `reactivate` and `reset`;
  - construction from already-parsed numbers, and the built-in 8x8 puzzle.
- `Connectivity` (`connectivity.dfy`) models rule 3:
  - Reachability is defined by explicit white paths. `Connected` means every white cell reaches every other white cell.
  - `Dfs` mirrors the Java recursive depth-first search. It uses the same guards and probes up, down, left and right in that order. It terminates because the number of unmarked cells in the grid decreases.
  - `FirstWhite` is the row-major search for the seed cell.
  - `CheckRule3` is proved to hold exactly when the grid is `Connected`.
- `Moves` (`moves.dfy`) holds:
  - `CheckRule2`;
  - `eliminate`, which returns its result code 0, 2 or 3 alongside the new grid;
  - the legality invariant (rules 2 and 3 together) and proofs that every move keeps it.
- `WinCheck` (`win.dfy`) holds `isGameOver`. It is a method with the same two loop nests as the Java code, and it keeps a set of the numbers seen in the current row or column. It is proved equal to a row/column distinctness predicate.
- `Session` (`session.dfy`) models sequences of three of the user interface's actions: left click covers, right click uncovers, and the reset button resets. It proves that every position reachable from a legal start is legal, including every position reachable from the built-in puzzle. The fourth action, the Load button (Hitori.java:69-83), replaces the puzzle with one read from a file. It is not a `Session` move. A well-formed loaded grid is all white and therefore legal (`Moves.FromValuesIsLegal`), so a session started from it is covered by the same result.

Points where the Java behaviour is easy to get wrong:

- `eliminate` rolls back by *uncovering* the cell, not by restoring its earlier state. On a legal grid this makes no difference. A covered cell of a legal grid always passes both rules, so `eliminate` on it returns 0 and changes nothing (`Moves.EliminatePreservesLegal`).
- An all-covered grid passes rule 3: the seed search finds nothing, and the final scan finds no unmarked white cell. Covering the only cell of a 1x1 grid therefore returns 0 (`Moves.EliminateSingleCell`).
- Results are the integers 0, 2 and 3, as in the code, not an enumeration.
- Cell numbers may be any integer.

## Model

| member | source | states |
|---|---|---|
| Cells.NewCell | Hitori/src/main/java/hitori/Cell.java:10-13 | a new cell is uncovered and reports the number it was created with |
| Cells.Cover | Hitori/src/main/java/hitori/Cell.java:16-18 | after covering, `isCovered` is true and `getValue` is unchanged |
| Cells.Uncover | Hitori/src/main/java/hitori/Cell.java:21-23 | after uncovering, `isCovered` is false and `getValue` is unchanged |
| Cells.CoverIdempotent | Hitori/src/main/java/hitori/Cell.java:16-18 | covering twice is covering once |
| Cells.UncoverIdempotent | Hitori/src/main/java/hitori/Cell.java:21-23 | uncovering twice is uncovering once |
| Cells.CoverThenUncoverRestores | Hitori/src/main/java/hitori/Cell.java:16-23 | covering then uncovering a white cell gives back the identical cell |
| Cells.CellExtensionality | Hitori/src/main/java/hitori/Cell.java:26-33 | the two queries `isCovered` and `getValue` determine a cell completely |
| Grid.ValidPositionMeansIndexable | Hitori/src/main/java/hitori/Puzzle.java:223-225 | on a well-formed grid, `isValidPosition(i, j)` holds exactly when `cells[i][j]` can be indexed, i.e. 0 <= i < size and 0 <= j < size |
| Grid.GetSize | Hitori/src/main/java/hitori/Puzzle.java:85-87 | the size is the number of rows of the grid and is positive |
| Grid.Reactivate | Hitori/src/main/java/hitori/Puzzle.java:131-133 | the chosen cell ends uncovered; every other cell and every number are unchanged |
| Grid.ReactivateWhiteIsNoop | Hitori/src/main/java/hitori/Puzzle.java:131-133 | reactivating a cell that is already white leaves the grid identical |
| Grid.Reset | Hitori/src/main/java/hitori/Puzzle.java:92-98 | the grid keeps its shape and numbers, and no cell is covered |
| Grid.ResetIdempotent | Hitori/src/main/java/hitori/Puzzle.java:92-98 | resetting twice equals resetting once, and reset keeps a grid well formed |
| Grid.CoverAt | Hitori/src/main/java/hitori/Puzzle.java:109 | the tentative grid of a cover move has the cell covered and every other cell and number unchanged |
| Grid.FromValues | Hitori/src/main/java/hitori/Puzzle.java:63-69 | a square grid of numbers becomes a well-formed puzzle of that size, all white, holding those numbers |
| Grid.LoadDefaultPuzzle | Hitori/src/main/java/hitori/Puzzle.java:51-70 | the built-in puzzle is a well-formed 8x8 grid, all white, holding the built-in numbers |
| Connectivity.Dfs | Hitori/src/main/java/hitori/Puzzle.java:199-214 | the search only adds cells; it adds only white cells; a white start is marked; every white neighbour of a newly marked cell is marked |
| Connectivity.DfsComputesReachable | Hitori/src/main/java/hitori/Puzzle.java:199-214 | from a white start with nothing yet marked, the search marks a cell exactly when it is reachable from the start along white cells (the reachability closure) |
| Connectivity.DfsSound | Hitori/src/main/java/hitori/Puzzle.java:199-214 | every cell the search newly marks is reachable from the start along white cells |
| Connectivity.ClosedSetHoldsReachable | Hitori/src/main/java/hitori/Puzzle.java:206-212 | a marked set that contains the start and all white neighbours of its members contains every cell reachable from the start |
| Connectivity.FirstWhiteInRow | Hitori/src/main/java/hitori/Puzzle.java:171-177 | the scan of one row returns its first white cell from the given column onward, or reports that there is none |
| Connectivity.FirstWhiteFrom | Hitori/src/main/java/hitori/Puzzle.java:170-178 | the row scan returns the first white cell in row-major order among the remaining rows, or reports that those rows have none |
| Connectivity.FirstWhite | Hitori/src/main/java/hitori/Puzzle.java:170-178 | the seed is a white cell with no white cell before it in row-major order; there is no seed exactly when no cell is white |
| Connectivity.FloodCorrect | Hitori/src/main/java/hitori/Puzzle.java:163-190 | flooding from the seed and finding no unmarked white cell is equivalent to the white region being connected |
| Connectivity.CheckRule3 | Hitori/src/main/java/hitori/Puzzle.java:163-190 | rule 3 passes exactly when every white cell reaches every other white cell by orthogonal steps over white cells |
| Connectivity.AllCoveredPassesRule3 | Hitori/src/main/java/hitori/Puzzle.java:170-189 | with no white cell left, rule 3 passes |
| Connectivity.AllWhiteConnected | Hitori/src/main/java/hitori/Puzzle.java:163-190 | a grid with no covered cell satisfies rule 3 |
| Moves.CheckRule2 | Hitori/src/main/java/hitori/Puzzle.java:142-156 | rule 2 passes exactly when no in-grid orthogonal neighbour of (i, j) is covered |
| Moves.Eliminate | Hitori/src/main/java/hitori/Puzzle.java:108-124 | the result is 2 exactly when a neighbour is covered (rule 3 is then never consulted); it is 3 exactly when no neighbour is covered but the grid with (i, j) covered is disconnected; otherwise it is 0. The cell ends covered exactly when the result is 0, and every other cell and every number are unchanged |
| Moves.EliminatePreservesLegal | Hitori/src/main/java/hitori/Puzzle.java:108-124 | from a grid obeying rules 2 and 3, the grid after `eliminate` obeys both, whatever the result; a rejected move leaves the grid identical; and on an already covered cell the move returns 0 and leaves the grid identical |
| Moves.EliminateThenNeighbourRejected | Hitori/src/main/java/hitori/Puzzle.java:108-115 | after a committed cover, covering an orthogonal neighbour returns 2 and leaves that neighbour white |
| Moves.EliminateSingleCell | Hitori/src/main/java/hitori/Puzzle.java:108-124 | on a 1x1 grid, covering the only cell returns 0 and leaves it covered |
| Moves.ReactivatePreservesLegal | Hitori/src/main/java/hitori/Puzzle.java:131-133 | uncovering any cell of a grid obeying rules 2 and 3 keeps both rules |
| Moves.ResetIsLegal | Hitori/src/main/java/hitori/Puzzle.java:92-98 | a reset grid obeys rules 2 and 3 |
| Moves.FromValuesIsLegal | Hitori/src/main/java/hitori/Puzzle.java:24-46 | a puzzle built from a square grid of numbers, as the file constructor builds it, starts out obeying rules 2 and 3 |
| Moves.DefaultPuzzleIsLegal | Hitori/src/main/java/hitori/Puzzle.java:51-70 | the built-in puzzle starts out obeying rules 2 and 3 |
| WinCheck.IsGameOver | Hitori/src/main/java/hitori/Puzzle.java:232-276 | returns true exactly when, in every row and in every column, the white cells carry pairwise distinct numbers; covered cells are ignored |
| WinCheck.SolvedAfterReset | Hitori/src/main/java/hitori/Puzzle.java:92-98 | after a reset, the win condition is the absence of any repeated number in any row or column of the full grid |
| Session.Apply | Hitori/src/main/java/hitori/Hitori.java:86-202 | each user move (the reset button at lines 86-99; the primary and secondary clicks at lines 180-202) maps a well-formed grid to a well-formed grid of the same size |
| Session.ApplyPreservesLegal | Hitori/src/main/java/hitori/Hitori.java:180-202 | each user move keeps rules 2 and 3 |
| Session.PlayPreservesLegal | Hitori/src/main/java/hitori/Puzzle.java:92-133 | after any sequence of cover, uncover and reset moves from a legal grid, no two covered cells are adjacent and the white region is connected |
| Session.DefaultSessionLegal | Hitori/src/main/java/hitori/Puzzle.java:51-70 | every position reachable by play from the built-in puzzle obeys rules 2 and 3 |
| Session.CornerCoveredConnected | Hitori/src/main/java/hitori/Puzzle.java:163-190 | a grid of side at least 2 whose only covered cell is the top-left corner satisfies rule 3 |
| Session.DefaultCornerScenario | Hitori/src/main/java/hitori/Puzzle.java:108-124 | on the built-in puzzle, covering (0, 0) returns 0, and covering (0, 1) straight after returns 2 and leaves (0, 1) white |

`get` (Puzzle.java:77-79) is `Grid.Get`, a plain accessor with no contract of its own. Every statement about a cell of a well-formed grid goes through it. `Reset` needs no well-formedness and indexes the rows directly, as the Java loop does. `getCells` (Puzzle.java:278-280) is the same accessor and is not modelled twice.

## Left out

- The `Puzzle(File)` constructor (Puzzle.java:24-46) reads and parses a text file. The model starts from the parsed, square grid of numbers (`Grid.FromValues`). Ill-shaped or non-numeric files are not modelled.
- The console messages `eliminate` prints on a rejected move are not modelled. They have no effect on the engine state.
- Out-of-grid indices make the Java code throw an array index exception. The model rules them out with preconditions on `eliminate`, `reactivate` and `get`. `isValidPosition` and `dfs` accept any position, as in the code.
- The user interface in `Hitori.java` is not modelled: rendering, alerts, the file chooser and the mouse wiring. Only the mapping from clicks to engine calls is kept, as the `Session.Move` datatype.
- `get` and `getCells` (Puzzle.java:77-79, 278-280) return the live `Cell` object, and `cover`/`uncover` are public. A caller can therefore cover a cell directly and skip the rule checks of `eliminate`. The Java tests do exactly that (HitoriTest.java:118, 139, 150), and this route can reach illegal grids. In the model `Grid.Get` returns a cell value, so direct mutation is not modelled. Only the user interface's read-only uses of `get` are covered (Hitori.java:173, 224). `Session` therefore covers engine moves only, and its legality results do not extend to callers that mutate cells directly.
- Connectivity.Dfs: the Java `dfs` (Puzzle.java:199-214) is plain recursion whose depth can reach size×size, so it is limited by the thread stack. On a large enough loaded grid `checkRule3` then throws a stack overflow. By that point `eliminate` has already covered the cell (Puzzle.java:109), and the uncover at Puzzle.java:118 never runs, so the cell stays covered and no result code is returned. The model's search always completes. `CheckRule3`, `Eliminate` and the legality results (`Moves.EliminatePreservesLegal`, `Session.PlayPreservesLegal`) assume that it does.
- `WinCheck.IsGameOver` does not modify the grid. This holds trivially, because the grid is an immutable value.
- Java `int` overflow plays no part: cell numbers are only compared, and indices stay within the grid.
