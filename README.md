# Verified model of a 2×2×2 Rubik's cube engine and its brute-force solver

This project models the two move engines in the repository and proves
properties of both.

- **`Cube222`** (RubiksSolver.cpp) is a 2×2×2 cube. It has six faces of 2×2
  stickers, a log of the moves applied, eight quarter turns (U, D, R, L,
  UI, DI, RI, LI), and a search `dfs` that tries every move word of growing
  length on a copy of the cube until one solves it.
- **`TestCube`** (RubiksSolverTests.cpp) is the engine the unit tests use.
  It has the same grid and twelve quarter turns (the eight above plus F,
  B, FI, BI), plus `equals` and `applySolution`.

## How the model is built

A grid is `seq<seq<seq<Color>>>`, indexed `[face][row][col]`. This matches
the value semantics of the nested `std::vector`. Each move is specified as
a function `Src(m, p)`: the cell whose sticker ends up on cell `p`. The
whole move is then `Turn(g, m)`, a comprehension over all cells.

Both cube classes hold the grid in a field. Their methods update it in
place, with the same temporaries and statement order as the C++ code. Each
method is proved to leave exactly the value-level grid:
- `Turn` for one move;
- `Run` for a sequence of moves;
- `Paint` for colouring a face;
- `FaceTurn` for turning a face's own stickers;
- `WriteColor` for writing one cell.

The laws of the moves are then proved on those functions. These are the
laws the test program checks, and the laws the solver relies on.

Modules:
- `Stickers`: cells, grids, and the shared update and face-turn helpers.
- `SolverMoves`: the eight moves of RubiksSolver.cpp as values, and their laws.
- `Combinations`: `generateCombinations`, and the specification of the list it builds.
- `RubiksSolver`: class `Cube222` and the search.
- `TestMoves`: the twelve moves of RubiksSolverTests.cpp as values, and the laws the test functions check.
- `RubiksSolverTests`: class `TestCube`.
- `FrontBackFix`: the F and B discrepancy (see "## Findings") and the corrected moves.

The two sources disagree on direction in one place. The solver's D takes
each side's bottom row from the next side (FRONT ← RIGHT), the same
direction as its U. The test engine's D takes it from the previous side
(FRONT ← LEFT). Each module models its own file.

The code was followed where it differs from the repository's written
description:
- `isSolved` checks all six faces, not three.
- `dfs` tries the candidates on copies and never changes the cube it is
  called on.
- test_rubiks_solver.cpp calls a `saveInitState` that RubiksSolver.cpp does
  not have, and expects the cube to be solved after `dfs`. It targets
  another version of the solver and is not part of this model.

## Model

| member | source | states |
|---|---|---|
| RubiksSolver.Cube222.constructor | RubiksSolver.cpp:18-23 | A new cube (every sticker first `initialColor`, then reset) is in the initial state: each face its home colour, with an empty move log |
| RubiksSolver.Cube222.Clone | RubiksSolver.cpp:350 | The member-wise copy constructor gives a cube with the same stickers and the same move log |
| RubiksSolver.Cube222.SetColorsToInitState | RubiksSolver.cpp:28-36 | Clears the move log and leaves the grid equal to the initial grid, whatever it held before |
| RubiksSolver.Cube222.SetFaceColor | RubiksSolver.cpp:192-198 | The grid becomes the old grid with every cell of `face` painted `color` and every other cell unchanged; the log is unchanged |
| RubiksSolver.Cube222.SetColor | RubiksSolver.cpp:207-214 | The grid becomes `WriteColor` of the old grid; the log is unchanged |
| SolverMoves.ReadAfterWrite | RubiksSolver.cpp:207-231 | Reading a cell after `setColor` gives the written colour at the written in-range cell and the old colour elsewhere; an out-of-range write changes nothing; an out-of-range `getColor` gives WHITE |
| RubiksSolver.Cube222.IsSolved | RubiksSolver.cpp:83-95 | True exactly when every one of the six faces shows a single colour |
| RubiksSolver.Cube222.ApplySolution | RubiksSolver.cpp:101-105 | The grid becomes the old grid with the moves applied in order, and the log grows by exactly those moves |
| RubiksSolver.Cube222.Copy | RubiksSolver.cpp:349-353 | A freshly allocated cube with the same stickers and the same move log |
| RubiksSolver.Cube222.Dfs | RubiksSolver.cpp:120-156 | AlreadySolved exactly when the cube is solved. A found word has length between `depth` and the ceiling and solves the cube; no shorter word from `depth` on solves it, and no word of the same length that comes earlier in the candidate order does. Exhausted means no word of length `depth` to the ceiling solves it |
| RubiksSolver.Cube222.SearchDepth | RubiksSolver.cpp:125-152 | One depth of `dfs`: a found word has length `depth`, solves the cube, and no earlier word of that length does. Not found means no word of length `depth` solves the cube |
| RubiksSolver.Cube222.FirstSolution | RubiksSolver.cpp:134-152 | The index of the first candidate that solves the cube, with none before it solving it; or not found, and then no candidate solves it |
| RubiksSolver.Cube222.TrySolution | RubiksSolver.cpp:135-140 | A candidate applied to a copy leaves the copy solved exactly when the candidate solves the cube; the cube itself is not changed |
| RubiksSolver.NoneOfLength | RubiksSolver.cpp:125-130 | Since the eight moves are all the moves there are, when no candidate of depth d solves the grid, no move word of length d does |
| RubiksSolver.FirstSolving | RubiksSolver.cpp:130-150 | When candidate k is the first that solves the grid, no word of the same length that is lexicographically earlier (in the order U, D, R, L, UI, DI, RI, LI) solves it |
| RubiksSolver.ScrambleSolvable | RubiksSolver.cpp:120-156 | A cube scrambled by any word w from the initial state is solved by a word of length \|w\|, so a search whose ceiling is at least \|w\| never ends Exhausted |
| RubiksSolver.SolvesRun | RubiksSolver.cpp:135-140 | A word solves a grid, read move by move, exactly when applying the whole word leaves every face one colour |
| Combinations.GenerateCombinations | RubiksSolver.cpp:174-185 | Appends to `results` every word of length `depth` over the moves, each prefixed by the current path, in depth-first order, and hands the path back unchanged |
| Combinations.WordsCount | RubiksSolver.cpp:174-185 | The list of depth d holds exactly 8^d words (\|all\|^d in general) |
| Combinations.WordsExactly | RubiksSolver.cpp:174-185 | A word is in the list of depth d if and only if it has length d and every letter is one of the moves |
| Combinations.WordsSorted | RubiksSolver.cpp:174-185 | Over distinct moves, the list is strictly increasing in lexicographic order, with the order of `allRotations` on letters, and every word has length d |
| Combinations.FirstInOrder | RubiksSolver.cpp:174-185 | A word of the list that is lexicographically before entry k sits at an index below k |
| RubiksSolver.Cube222.ApplyRotation | RubiksSolver.cpp:359-451 | The grid becomes `Turn(old grid, r)` and the log grows by `r` |
| RubiksSolver.Cube222.TurnTopLayer | RubiksSolver.cpp:362-379 | The U/UI branch: the top face turns, and the top rows of the four sides cycle as `Turn` says |
| RubiksSolver.Cube222.TurnBottomLayer | RubiksSolver.cpp:380-397 | The D/DI branch, likewise for the bottom face and the bottom rows |
| RubiksSolver.Cube222.TurnLeftLayer | RubiksSolver.cpp:398-422 | The L/LI branch: the left face turns, and column 0 of TOP, FRONT and BOTTOM and column 1 of BACK (flipped vertically) cycle as `Turn` says |
| RubiksSolver.Cube222.TurnRightLayer | RubiksSolver.cpp:423-448 | The R/RI branch, likewise for the right face, column 1, and BACK's column 0 |
| RubiksSolver.Cube222.SaveTopColumn | RubiksSolver.cpp:402-404 | `tempColumn` holds the chosen column of TOP, top to bottom |
| RubiksSolver.Cube222.SweepLeftColumns | RubiksSolver.cpp:406-421 | The column loop of L/LI leaves the grid equal to its value-level sweep |
| RubiksSolver.Cube222.SweepRightColumns | RubiksSolver.cpp:432-447 | The column loop of R/RI leaves the grid equal to its value-level sweep |
| RubiksSolver.Cube222.RotateFace | RubiksSolver.cpp:459-478 | The face is replaced by its quarter turn in the given direction; every other face and the log are unchanged |
| RubiksSolver.Cube222.CycleSideRows | RubiksSolver.cpp:365-371 | The row assignments of a U or D branch: the grid becomes `CycleRows` of the old grid (a takes b's row, b c's, c d's, d a's old row) and the log is unchanged |
| RubiksSolver.Cube222.ShiftLane | RubiksSolver.cpp:407-420 | One pass of a column loop: the grid becomes `ShiftCells` of the old grid (each of four cells takes the next one's sticker, the last takes the saved colour) and the log is unchanged |
| SolverMoves.TurnByRows | RubiksSolver.cpp:362-397 | A face turn followed by the cycle of the four side rows is exactly `Turn` for U, UI, D, DI |
| SolverMoves.TurnByColumns | RubiksSolver.cpp:398-448 | A face turn followed by the column sweep is exactly `Turn` for L, LI, R, RI |
| SolverMoves.SweepKeepsTop | RubiksSolver.cpp:402-447 | The passes of the column loop before pass i leave TOP cell i of the column alone, so `tempColumn[i]` still holds that cell's colour when pass i reads it |
| SolverMoves.TurnThenInverse | RubiksSolver.cpp:359-451 | Every move followed by its inverse restores every grid |
| SolverMoves.InverseThenTurn | RubiksSolver.cpp:359-451 | Every inverse move followed by its move restores every grid |
| SolverMoves.InverseInvolution | RubiksSolver.cpp:7 | The inverse of the inverse of a move is the move |
| SolverMoves.TurnFourTimes | RubiksSolver.cpp:359-451 | Every move applied four times restores every grid |
| SolverMoves.SrcFourTimes | RubiksSolver.cpp:359-451 | Following any move's source map four times from a cell leads back to that cell |
| SolverMoves.RunAppend | RubiksSolver.cpp:101-105 | Applying a word `a + b` is applying `a` and then `b` |
| SolverMoves.RunFirst | RubiksSolver.cpp:101-105 | Applying a non-empty word is applying its first move, then the rest |
| SolverMoves.RunInverseWord | RubiksSolver.cpp:359-451 | Any word followed by its reversed word of inverses restores every grid |
| SolverMoves.SrcSupport | RubiksSolver.cpp:359-451 | A move changes which sticker sits on a cell exactly on the cells it touches: its own face and the four adjacent strips |
| SolverMoves.TurnFrame | RubiksSolver.cpp:359-451 | A move leaves every cell it does not touch unchanged |
| SolverMoves.TurnSparesOppositeFace | RubiksSolver.cpp:398-448 | L and LI leave RIGHT alone; R and RI leave LEFT alone |
| SolverMoves.HomeColorInjective | RubiksSolver.cpp:28-36 | The six faces get six different home colours |
| SolverMoves.TurnMixes | RubiksSolver.cpp:359-451 | On the initial grid, a move that brings stickers from two different faces onto one face leaves that face mixed |
| SolverMoves.SingleTurnUnsolves | RubiksSolver.cpp:359-451 | Every single move from the initial state gives an unsolved cube |
| RubiksSolverTests.TestCube.constructor | RubiksSolverTests.cpp:22-24 | A new test cube is in the initial state |
| RubiksSolverTests.TestCube.SetColorsToInitState | RubiksSolverTests.cpp:26-33 | The grid becomes the initial grid, whatever it held before |
| RubiksSolverTests.TestCube.SetColor | RubiksSolverTests.cpp:35-41 | The grid becomes the old grid with every cell of `face` painted `color` and every other cell unchanged |
| RubiksSolverTests.TestCube.Equals | RubiksSolverTests.cpp:43-54 | True if and only if the two grids are equal |
| RubiksSolverTests.TestCube.RotateFace | RubiksSolverTests.cpp:56-71 | The face is replaced by its quarter turn in the given direction; every other face is unchanged |
| RubiksSolverTests.TestCube.ApplyRotation | RubiksSolverTests.cpp:73-198 | The grid becomes `Turn(old grid, r)` for each of the twelve moves, F and B as written |
| RubiksSolverTests.TestCube.ApplySolution | RubiksSolverTests.cpp:200-204 | The grid becomes the old grid with the moves applied in order |
| RubiksSolverTests.TestCube.TurnTopLayer | RubiksSolverTests.cpp:78-93 | The U/UI branch leaves the grid equal to `Turn` |
| RubiksSolverTests.TestCube.TurnBottomLayer | RubiksSolverTests.cpp:94-109 | The D/DI branch leaves the grid equal to `Turn` |
| RubiksSolverTests.TestCube.TurnLeftLayer | RubiksSolverTests.cpp:110-131 | The L/LI branch leaves the grid equal to `Turn` |
| RubiksSolverTests.TestCube.TurnRightLayer | RubiksSolverTests.cpp:132-153 | The R/RI branch leaves the grid equal to `Turn` |
| RubiksSolverTests.TestCube.TurnFrontLayer | RubiksSolverTests.cpp:154-175 | The F/FI branch leaves the grid equal to `Turn`, F as written |
| RubiksSolverTests.TestCube.TurnBackLayer | RubiksSolverTests.cpp:176-197 | The B/BI branch leaves the grid equal to `Turn`, B as written |
| RubiksSolverTests.TestCube.SaveTopColumn | RubiksSolverTests.cpp:111-114 | `tempColumn` holds the chosen column of TOP, top to bottom |
| RubiksSolverTests.TestCube.SaveTopRow | RubiksSolverTests.cpp:156-158 | `tempTop` holds the chosen row of TOP |
| RubiksSolverTests.TestCube.CycleSideRows | RubiksSolverTests.cpp:80-92 | The row assignments of a U or D branch: the grid becomes `CycleRows` of the old grid |
| RubiksSolverTests.TestCube.ShiftLane | RubiksSolverTests.cpp:116-121 | One pass of a strip loop: the grid becomes `ShiftCells` of the old grid |
| RubiksSolverTests.TestCube.SweepLeftColumns | RubiksSolverTests.cpp:112-130 | Started on LEFT's turn of a grid g, saving TOP's column 0 and running the column loop of L/LI leaves exactly `Turn(g, r)` |
| RubiksSolverTests.TestCube.SweepRightColumns | RubiksSolverTests.cpp:134-152 | Started on RIGHT's turn of a grid g, saving TOP's column 1 and running the column loop of R/RI leaves exactly `Turn(g, r)` |
| RubiksSolverTests.TestCube.SweepFrontStrips | RubiksSolverTests.cpp:156-174 | Started on FRONT's turn of a grid g, saving TOP's row 1 and running the strip loop of F/FI leaves exactly `Turn(g, r)`, F as written |
| RubiksSolverTests.TestCube.SweepFrontClockwise | RubiksSolverTests.cpp:159-166 | The strip loop of F, as written, run on FRONT's clockwise turn of g, leaves exactly `Turn(g, F)` |
| RubiksSolverTests.TestCube.SweepFrontCounter | RubiksSolverTests.cpp:167-174 | The strip loop of FI, run on FRONT's counter-clockwise turn of g, leaves exactly `Turn(g, FI)` |
| RubiksSolverTests.TestCube.SweepBackStrips | RubiksSolverTests.cpp:178-196 | Started on BACK's turn of a grid g, saving TOP's row 0 and running the strip loop of B/BI leaves exactly `Turn(g, r)`, B as written |
| RubiksSolverTests.TestCube.SweepBackClockwise | RubiksSolverTests.cpp:181-188 | The strip loop of B, as written, run on BACK's clockwise turn of g, leaves exactly `Turn(g, B)` |
| RubiksSolverTests.TestCube.SweepBackCounter | RubiksSolverTests.cpp:189-196 | The strip loop of BI, run on BACK's counter-clockwise turn of g, leaves exactly `Turn(g, BI)` |
| TestMoves.TurnByRows | RubiksSolverTests.cpp:78-109 | A face turn followed by the cycle of the four side rows is exactly `Turn` for U, UI, D, DI |
| TestMoves.TurnByPasses | RubiksSolverTests.cpp:110-197 | A face turn followed by the strip sweep is exactly `Turn` for L, LI, R, RI, F, FI, B, BI |
| TestMoves.SweptTurn | RubiksSolverTests.cpp:110-197 | Whatever grid the strip sweep leaves after the face turn of g is `Turn(g, r)` |
| TestMoves.TurnThenInverse | RubiksSolverTests.cpp:267-286 | A move followed by its inverse restores every grid for U, D, L, R and their inverses, and every grid whose faces are each one colour for F, FI, B, BI |
| TestMoves.InverseFromInitial | RubiksSolverTests.cpp:267-286 | `testRotationInverse`, for all twelve moves: from the initial state, a move and then its inverse give the initial state |
| TestMoves.TurnFourTimes | RubiksSolverTests.cpp:288-306 | Four times the same move restores every grid for every move except F and B; for F and B, every grid whose faces are each one colour |
| TestMoves.FourFromInitial | RubiksSolverTests.cpp:288-306 | `testFourRotations`: from the initial state, four times any of the twelve moves gives the initial state |
| TestMoves.RunAppend | RubiksSolverTests.cpp:200-204 | Applying a word `a + b` is applying `a` and then `b` |
| TestMoves.SexyMoveSixTimes | RubiksSolverTests.cpp:312-324 | `testKnownSequences`: (R U RI UI) six times restores every grid, the initial state among them |
| TestMoves.DTwiceChanges | RubiksSolverTests.cpp:350-361 | From the initial state D D changes the cube and D D D D restores it |
| TestMoves.DFromInitial | RubiksSolverTests.cpp:369-403 | `testDRotationSpecific`: after D, FRONT's bottom row is ORANGE, RIGHT's is BLUE, BACK's is RED and LEFT's is GREEN |
| TestMoves.DIFromInitial | RubiksSolverTests.cpp:405-434 | `testDIRotationSpecific`: after DI, FRONT's bottom row is RED, RIGHT's is GREEN, BACK's is ORANGE and LEFT's is BLUE |
| TestMoves.UFromInitial | RubiksSolverTests.cpp:436-464 | `testURotationSpecific`: after U, FRONT's top row is RED, RIGHT's is GREEN, BACK's is ORANGE and LEFT's is BLUE |
| FrontBackFix.FrontNotUndone | RubiksSolverTests.cpp:159-174 | After R from the initial state, F as written followed by FI leaves BLUE on TOP(1,0), where YELLOW was, so the grid is not restored |
| FrontBackFix.BackNotUndone | RubiksSolverTests.cpp:181-196 | After R from the initial state, B as written followed by BI leaves BLUE on TOP(0,0), where YELLOW was, so the grid is not restored |
| FrontBackFix.FixedTurnThenInverse | RubiksSolverTests.cpp:154-197 | With F and B corrected, every one of the twelve moves followed by its inverse restores every grid |
| FrontBackFix.FixedTurnFourTimes | RubiksSolverTests.cpp:154-197 | With F and B corrected, every move applied four times restores every grid |
| FrontBackFix.FixedAgreesOnUniform | RubiksSolverTests.cpp:154-197 | On a grid whose faces are each one colour, the corrected and the written moves agree, so the tests that start from the initial state hold for both |

## Left out

- Printing and string conversion: `printCube`, `rotationToString`,
  `rotationsToString`, `colorToString`, `faceToString`, and the messages
  `dfs` prints. They produce only console output.
- The "Index out of bounds error." messages on std::cerr in `setColor` and
  `getColor`. Only the write being skipped, and `getColor` returning WHITE,
  are modelled.
- `main` of both files, and the test harness `test` with its pass and fail
  counters. These are drivers, not engine logic.
- The `begin_time` argument and the timing in `dfs`. The clock is I/O and
  has no effect on the result.
- The base-class `Cube::copy`, which returns a fresh cube in the initial
  state, and the empty `Cube::rotateFace`. Only the overrides in `Cube222`
  are ever called on a `Cube222`.
- The unbounded recursion of `dfs`. `Cube222.Dfs` takes a `ceiling` beyond
  which it stops and returns Exhausted. The source keeps deepening forever
  when no solution exists, for example on a cube painted inconsistently with
  `setColor`. ScrambleSolvable shows that a ceiling of |w| is always enough
  for a cube scrambled by w.
- The dimension fields `_cRow`, `_cCol` and `_cFace`. They are the constants
  2, 2 and 6 of a 2×2×2 cube, as every constructor call in the repository
  passes them.
- RubiksSolver.Cube222.GetColor: it has no contract of its own. Its
  behaviour is what ReadColor computes, and SolverMoves.ReadAfterWrite
  states it.
- The `(U R F)^4` block of `testKnownSequences` and its `afterOne = cube`
  copy assignment. That test only checks that nothing crashes.
- TestMoves.TurnThenInverse: for F, FI, B and BI it is stated only for grids
  whose faces are each one colour, because F and B as written do not undo
  their inverses on other grids (see "## Findings").
- TestMoves.TurnFourTimes: for F and B it is stated only for grids whose
  faces are each one colour, for the same reason.
- test_rubiks_solver.cpp: it calls members RubiksSolver.cpp does not define.
  It is not part of this model.

## Findings

| source | as written | input that shows it | evidently intended | confidence | as-written member | corrected member |
|---|---|---|---|---|---|---|
| RubiksSolverTests.cpp:159-166 | F moves BOTTOM(0,i) to LEFT(1-i,1) and pushes TOP(1,1-i) onto RIGHT(i,0), so F's stickers travel an eight-cell cycle and FI does not undo F | R from the initial state, then F, then FI: TOP(1,0) shows BLUE where it showed YELLOW | F as the mirror image of FI's loop: BOTTOM(0,1-i) to LEFT(1-i,1), and TOP(1,i) onto RIGHT(i,0), so that F undoes FI and FI undoes F on every grid | not executed | FrontBackFix.FrontNotUndone | FrontBackFix.FixedTurnThenInverse |
| RubiksSolverTests.cpp:181-188 | B pushes TOP(0,1-i) onto RIGHT(i,1), so BI does not undo B | R from the initial state, then B, then BI: TOP(0,0) shows BLUE where it showed YELLOW | TOP(0,i) onto RIGHT(i,1), the mirror image of BI's loop | not executed | FrontBackFix.BackNotUndone | FrontBackFix.FixedTurnThenInverse |

The test program's checks of F and B all start from the initial state.
There every face is one colour, and the written and the corrected moves
agree (FrontBackFix.FixedAgreesOnUniform), so those checks pass for both
versions. Four turns of the corrected moves restore every grid
(FrontBackFix.FixedTurnFourTimes).

Class `TestCube` and module `TestMoves` model F and B as written.
`FrontBackFix.FixedTurn` is the engine with only those two moves corrected.
