# Puzzle hub games, modelled in Dafny

A model of the game logic of a collection of browser puzzle games, and
proofs of what the games promise. The games are a Sudoku generator and
logical solver, a crossword grid builder and word filler, the word-ladder
game Weaver and its shortest-ladder solver, Wordle and its candidate
filter, Minesweeper, Connect 4, the Tower of Hanoi, the 15-puzzle,
tic-tac-toe and a two-player memory game. Each module follows one source
file, or one shared piece of several:

| file | module | models |
|---|---|---|
| common.dfy | Common | `Option`, a stand-in for `Math.random`, the Fisher-Yates shuffle the games write out, `indexOf` |
| sudoku_grid.dfy | SudokuGrid | the 81-cell grid, isSafe / isValid, consistency, completions |
| sudoku_passes.dfy | SudokuPasses | updateCandidates and assignNakedSingles over the value and candidate arrays |
| sudoku_hidden.dfy | SudokuHidden | assignHiddenSingles |
| sudoku_locked.dfy | SudokuLocked | lockedCandidates |
| sudoku_solver.dfy | SudokuSolver | the solver page: the fixed-point `solve` loop, key handling, reading the grid |
| sudoku_game.dfy | SudokuGame | the game page: fillBoard, countSolutions, generatePuzzle, key handling, the win check |
| crossword_grid.dfy | CrosswordGrid | the four grid checks and the symmetric black-square placement |
| crossword_fill.dfy | CrosswordFill | the longest-first sort, the fit checks, place / remove, the backtracking filler |
| word_graph.dfy | WordGraph | isOneLetterDiff and buildWordGraph, shared by both Weaver pages |
| weaver_solver.dfy | WeaverSolver | the breadth-first shortest ladder and the solve button's checks |
| weaver_game.dfy | WeaverGame | areWordsSolvable, the choice of words, the row rule, key handling |
| wordle_score.dfy | WordleScore | what colour each tile and key gets, stated position by position |
| wordle_game.dfy | WordleGame | checkWord's two passes, updateKeyboardColors, key handling, setup and resume |
| wordle_solver.dfy | WordleSolver | matchesSingleGuess, reading the guesses, the deduplicated dictionary and its filter |
| minesweeper.dfy | Minesweeper | board generation, neighbour counts, reveal and flood, flags, the win |
| connect4.dfy | Connect4 | the drop, four-in-a-row detection, the finished test, reset |
| hanoi.dfy | Hanoi | the towers, the drag and drop rule, the win |
| sliding.dfy | Sliding | adjacency, the click swap, the shuffle walk, the win |
| tictactoe.dfy | TicTacToe | the eight lines, the move rule, reset |
| memory.dfy | Memory | the deck, flipping, matching, turns and the winner |

Games whose state the page keeps in module variables and changes in
place are classes (`SudokuGame.SudokuGame`, `Minesweeper.Game`,
`Connect4.Game`, ...) whose methods state the whole new state. Each class
keeps an invariant (`Valid`): a Sudoku grid stays consistent, every
Minesweeper count matches its neighbouring mines, Connect 4 discs obey
gravity, Hanoi towers stay decreasing and hold the disks 1..n once a new
game cancels the drag in progress (see Findings), the 15-puzzle
stays a rearrangement of its tiles, X is never behind O in tic-tac-toe, and
the memory scores add up to the pairs found. Loops are methods whose
contracts tie them to a specification function, and the properties are
proved about those functions as lemmas.

Grids are flattened row-major (Sudoku cell (r, c) at 9r + c, crossword
square (r, c) at 15r + c). The Sudoku passes are specified as runs of small
steps in the order of the source's loops, so effects that depend on order
are kept.

The naked-single and hidden-single passes take a flag `recheck`. With
`recheck == false` a pass is the code as written. With `recheck == true`
a digit is written only if it is still safe in its row, column and box at
that moment. That is the corrected pass of "## Findings", and the solver's
consistency guarantee (`SudokuSolver.SolverPage.Solve`) is stated for it.
The row- and column-based steps of lockedCandidates are modelled as written,
including the band index they reuse (`SudokuLocked.LineInUnit`). Their
eliminations never change a value, and the next round recomputes every list.

The memory game follows its source in one more respect. `updatePairCount` may
change `numPairs` during a game, and checkMatch's end test then compares
with the new value. The class therefore keeps the deck's own pair count as
a separate ghost field. `Memory.EndsWhenAllMatched` shows that the end test
means "every card is matched" when the two counts agree.

In the Tower of Hanoi, handleDrop is modelled as written for any drag,
including one that no longer holds the top disk of its tower
(`Hanoi.DropBoard`). startGame as written keeps such a drag
(`Hanoi.Game.StartGameAsWritten`), and `Hanoi.StaleDropBreaksDisks` shows
the duplicated disk that follows. `Hanoi.Game.StartGame` cancels the drag,
and the game's invariant, legal towers and a current drag, is stated for it.

## Model

| member | source | states |
|---|---|---|
| Common.Random.Below | puzzle-hub/public/sudoku/sudoku.js:84 | a random draw `Math.floor(Math.random() * n)` is an index below `n` |
| Common.Shuffle | puzzle-hub/public/sudoku/sudoku.js:82-88 | the Fisher-Yates shuffle leaves the array a rearrangement (same multiset) of its input |
| Common.SwapKeepsMultiset | puzzle-hub/public/sudoku/sudoku.js:85 | the swap of two entries keeps the multiset of the array |
| Common.IndexOf | puzzle-hub/public/weaver/weaver.js:231 | `indexOf` is -1 exactly when the value is absent, and otherwise the first index holding it |
| Common.Range | puzzle-hub/public/sudoku/sudoku.js:60 | `[...Array(n).keys()]` is the sequence 0..n-1 |
| Common.PermutationKeepsDistinct | puzzle-hub/public/sudoku/sudoku.js:166 | a shuffled list of distinct items (the 81 positions) still has no repeats |
| SudokuGrid.EmptiesZero | puzzle-hub/public/sudoku/sudoku-solver.js:264 | a grid has no empty cell exactly when every cell is non-zero |
| SudokuGrid.PlaceKeepsConsistent | puzzle-hub/public/sudoku/sudoku.js:62-63 | writing a digit that isSafe approves into an empty cell keeps every row, column and box free of repeats |
| SudokuGrid.CandidatesOfSpec | puzzle-hub/public/sudoku/sudoku-solver.js:36-58 | a digit is in an empty cell's candidate list exactly when it is 1..9 and absent from the cell's row, column and box, and the list is ascending |
| SudokuGrid.SafeDigitsUpToSpec | puzzle-hub/public/sudoku/sudoku-solver.js:56-58 | the digits 1..k kept by the `!used.has(num)` loop are exactly those Safe at the cell, in ascending order |
| SudokuGrid.IsSafe | puzzle-hub/public/sudoku/sudoku.js:39-52 | isSafe returns true exactly when the digit occurs nowhere in the row, the column or the 3x3 box of the cell |
| SudokuGrid.IsValid | puzzle-hub/public/sudoku/sudoku.js:132-141 | isValid, with its single combined loop, computes the same predicate as isSafe |
| SudokuGrid.SafeFromScans | puzzle-hub/public/sudoku/sudoku.js:40-50 | scanning the row, the column and the box is enough to establish that a digit is safe |
| SudokuGrid.BoxScanStep | puzzle-hub/public/sudoku/sudoku.js:136-138 | isValid's i-th box cell is the box's cells in row order, so after i steps the first i box cells have been checked |
| SudokuGrid.NumFillsComplete | puzzle-hub/public/sudoku/sudoku.js:100-102 | the backtracking of countSolutions counts a complete grid as exactly one solution |
| SudokuGrid.SolutionDigitSafe | puzzle-hub/public/sudoku/sudoku.js:39-52 | at an empty cell of a grid agreeing with a solved grid, the solution's digit passes isSafe, and writing it keeps the agreement |
| SudokuGrid.SumFillsAtLeast | puzzle-hub/public/sudoku/sudoku.js:110-117 | the digit loop from k on counts at least the completions after any Safe digit d >= k |
| SudokuGrid.SumFillsAtLeastTwo | puzzle-hub/public/sudoku/sudoku.js:110-117 | it counts at least the sum for two different Safe digits |
| SudokuGrid.SolutionCounted | puzzle-hub/public/sudoku/sudoku.js:96-122 | every solved grid agreeing with the board is found: the count is at least 1 |
| SudokuGrid.TwoSolutionsCounted | puzzle-hub/public/sudoku/sudoku.js:96-122 | two different solved grids agreeing with the board are both found: the count is at least 2 |
| SudokuGrid.UniqueCompletion | puzzle-hub/public/sudoku/sudoku.js:175-181 | a count of exactly 1 means at most one solved grid agrees with the board |
| SudokuPasses.Remove | puzzle-hub/public/sudoku/sudoku-solver.js:183 | `filter(x => x !== n)` keeps exactly the entries other than n and is shorter when n was present |
| SudokuPasses.FillsEmpties | puzzle-hub/public/sudoku/sudoku-solver.js:248-261 | filling empty cells never adds an empty cell, and strictly removes one unless nothing changed |
| SudokuPasses.FillsTrans | puzzle-hub/public/sudoku/sudoku-solver.js:248-261 | "only empty cells were filled" composes across passes and iterations |
| SudokuPasses.EmptiesUpdate | puzzle-hub/public/sudoku/sudoku-solver.js:73 | writing one cell changes the count of empty cells by exactly the change at that cell |
| SudokuPasses.FreshSpec | puzzle-hub/public/sudoku/sudoku-solver.js:32-64 | after updateCandidates every empty cell lists, ascending, exactly the digits not used in its row, column or box, and every filled cell lists nothing |
| SudokuPasses.PeerValuesSpec | puzzle-hub/public/sudoku/sudoku-solver.js:36-53 | the `used` set is exactly the non-zero digits that make a digit unsafe at the cell |
| SudokuPasses.UsedDigits | puzzle-hub/public/sudoku/sudoku-solver.js:36-53 | the three scans collect into `used` exactly the non-zero values of the row, the column and the box |
| SudokuPasses.AddBox | puzzle-hub/public/sudoku/sudoku-solver.js:47-53 | the box scan adds every non-zero value of the cell's box and nothing from outside the peers |
| SudokuPasses.UpdateCandidates | puzzle-hub/public/sudoku/sudoku-solver.js:32-64 | the candidate arrays afterwards are Fresh of the values, whose meaning FreshSpec states; the values are untouched, so a second run gives the same lists |
| SudokuPasses.FilledFromCandsTrans | puzzle-hub/public/sudoku/sudoku-solver.js:69-130 | "each write is one of the cell's own candidates, list then cleared" composes across cells |
| SudokuPasses.FilledFromCandsFills | puzzle-hub/public/sudoku/sudoku-solver.js:72-74 | with digit candidates, such writes only turn empty cells into digits |
| SudokuPasses.PlaceSafe | puzzle-hub/public/sudoku/sudoku-solver.js:73 | a value still Safe at the moment of writing keeps the grid Consistent |
| SudokuPasses.NakedRunSpec | puzzle-hub/public/sudoku/sudoku-solver.js:69-78 | assignNakedSingles only writes empty cells that had exactly one candidate, writes that candidate and clears the list; the corrected pass also keeps the grid Consistent |
| SudokuPasses.NakedAsWrittenPointwise | puzzle-hub/public/sudoku/sudoku-solver.js:72-75 | as written, a cell ends with its single candidate exactly when it was empty with exactly one candidate on entry |
| SudokuPasses.NakedWitness | puzzle-hub/public/sudoku/sudoku-solver.js:244-252 | the typed grid of the finding: column 0 holds 1, 2, 3, 4, 6, 7, 8, 9 and column 1 holds 4, 6, 7, 8, 9, 1, 2, 3 in rows 1..8, every other cell 0 |
| SudokuPasses.WitnessConsistent | puzzle-hub/public/sudoku/sudoku-solver.js:244-252 | that grid repeats no digit in a row, a column or a box |
| SudokuPasses.WitnessUnsafe | puzzle-hub/public/sudoku/sudoku-solver.js:32-62 | every digit but 5 is already in column 0 and in column 1, so isSafe rejects it at (0, 0) and (0, 1) |
| SudokuPasses.WitnessSafeFive | puzzle-hub/public/sudoku/sudoku-solver.js:32-62 | 5 is safe at (0, 0) and (0, 1), since no cell holds 5 |
| SudokuPasses.WitnessSingle | puzzle-hub/public/sudoku/sudoku-solver.js:32-62 | updateCandidates lists exactly [5] at (0, 0) and at (0, 1) |
| SudokuPasses.NakedAsWrittenBreaksConsistency | puzzle-hub/public/sudoku/sudoku-solver.js:69-78 | as written, on that Consistent grid with the lists updateCandidates gives it (as solve runs the two in turn), both cells are written with 5 and row 0 holds 5 twice |
| SudokuPasses.StepBookkeeping | puzzle-hub/public/sudoku/sudoku-solver.js:73-74 | one write of a pass keeps the "filled from candidates" relation and removes exactly one empty cell |
| SudokuPasses.NakedCell | puzzle-hub/public/sudoku/sudoku-solver.js:72-75 | one cell of the pass: writes only an empty cell with one candidate, that candidate, and clears its list; nothing else changes |
| SudokuPasses.AssignNakedSingles | puzzle-hub/public/sudoku/sudoku.js:237-249 | the arrays afterwards are the naked pass of the board on entry; the returned flag is true exactly when a value was written |
| SudokuHidden.UnitCell | puzzle-hub/public/sudoku/sudoku-solver.js:86-121 | the k-th cell of unit u is the k-th cell the source visits in that row, column or box |
| SudokuHidden.UnitCellInjective | puzzle-hub/public/sudoku/sudoku-solver.js:86-121 | different cell numbers of a unit are different cells |
| SudokuHidden.Positions | puzzle-hub/public/sudoku/sudoku-solver.js:87-92 | `positions` holds exactly the cells of the unit that are empty and list the digit |
| SudokuHidden.HiddenStepSole | puzzle-hub/public/sudoku/sudoku-solver.js:93-96 | a digit is written only into the sole cell of the unit that is empty and lists it, and that cell's list is cleared |
| SudokuHidden.HiddenRunSpec | puzzle-hub/public/sudoku/sudoku-solver.js:83-130 | the whole pass only fills empty cells with one of their own candidates; the corrected pass also keeps the grid Consistent |
| SudokuHidden.NoListsNoChange | puzzle-hub/public/sudoku/sudoku-solver.js:89 | with every candidate list empty, assignHiddenSingles writes nothing |
| SudokuHidden.UnlistedDigitsIdle | puzzle-hub/public/sudoku/sudoku-solver.js:84 | digits that no cell lists are passed over without effect |
| SudokuHidden.HiddenAsWrittenBreaksConsistency | puzzle-hub/public/sudoku/sudoku-solver.js:244-252 | on the typed grid of the finding, which is Consistent and where 5 is Safe at (0, 0), updateCandidates lists [5] at (0, 0) and [5, 9] at (0, 3); the naked pass writes the 5 at (0, 0); the hidden pass as written then leaves a grid that is not Consistent |
| SudokuHidden.HiddenWitness | puzzle-hub/public/sudoku/sudoku-solver.js:244-252 | the typed grid: row 0 is 0, 1, 2, 0, 3, 4, 6, 7, 8, a 9 at (4, 0), every other cell 0 |
| SudokuHidden.HiddenWitnessConsistent | puzzle-hub/public/sudoku/sudoku-solver.js:244-252 | that grid repeats no digit in a row, a column or a box |
| SudokuHidden.RowZeroDistinct | puzzle-hub/public/sudoku/sudoku-solver.js:244-252 | the filled cells of its row 0 hold different digits |
| SudokuHidden.HiddenWitnessUnsafe | puzzle-hub/public/sudoku/sudoku-solver.js:32-62 | isSafe rejects every digit but 5 at (0, 0), and every digit but 5 and 9 at (0, 3) |
| SudokuHidden.HiddenWitnessSafe | puzzle-hub/public/sudoku/sudoku-solver.js:32-62 | 5 is safe at (0, 0) and (0, 3), and 9 is safe at (0, 3) |
| SudokuHidden.PairList | puzzle-hub/public/sudoku/sudoku-solver.js:56-58 | an ascending list holding exactly x < y is [x, y] |
| SudokuHidden.HiddenWitnessSingle | puzzle-hub/public/sudoku/sudoku-solver.js:32-62 | updateCandidates lists exactly [5] at (0, 0) |
| SudokuHidden.HiddenWitnessPair | puzzle-hub/public/sudoku/sudoku-solver.js:32-62 | updateCandidates lists exactly [5, 9] at (0, 3) |
| SudokuHidden.HiddenWitnessRow | puzzle-hub/public/sudoku/sudoku-solver.js:244-252 | row 0 of the grid is 0, 1, 2, 0, 3, 4, 6, 7, 8 |
| SudokuHidden.RowZeroShape | puzzle-hub/public/sudoku/sudoku-solver.js:244-252 | that row is empty exactly at columns 0 and 3 |
| SudokuHidden.NakedOnHiddenWitness | puzzle-hub/public/sudoku/sudoku-solver.js:69-78 | on the grid with the lists updateCandidates gives it, the naked pass only adds the 5 at (0, 0) to row 0, and (0, 3) keeps its list [5, 9] |
| SudokuHidden.NakedOnRowZero | puzzle-hub/public/sudoku/sudoku-solver.js:69-78 | on any grid whose row 0 is filled but for (0, 0) listing [5] and (0, 3) listing [5, 9], the naked pass writes the 5 at (0, 0) and nothing else in row 0 |
| SudokuHidden.NakedAt | puzzle-hub/public/sudoku/sudoku-solver.js:72-75 | as written, one cell ends with its single candidate if it was empty with one, and keeps its value otherwise |
| SudokuHidden.NakedKeepsList | puzzle-hub/public/sudoku/sudoku-solver.js:72-75 | a cell the naked pass leaves empty keeps its candidate list |
| SudokuHidden.RowZeroIsStale | puzzle-hub/public/sudoku/sudoku-solver.js:83-130 | the board the naked pass leaves has 5 at (0, 0) while (0, 3) still lists 5 |
| SudokuHidden.StaleStep | puzzle-hub/public/sudoku/sudoku-solver.js:86-96 | a unit step for a digit below 5 leaves row 0 of such a board as it is |
| SudokuHidden.StaleRun | puzzle-hub/public/sudoku/sudoku-solver.js:83-130 | from such a board the hidden pass ends with 5 at both (0, 0) and (0, 3) |
| SudokuHidden.PositionsIncreasing | puzzle-hub/public/sudoku/sudoku-solver.js:88-91 | positions are pushed in increasing scan order |
| SudokuHidden.UnitPositions | puzzle-hub/public/sudoku/sudoku-solver.js:87-92 | the scan returns the unit's positions list |
| SudokuHidden.HiddenInUnit | puzzle-hub/public/sudoku/sudoku-solver.js:93-96 | one unit for one digit: writes only when exactly one cell lists it, writes the digit there and clears the list; nothing else changes |
| SudokuHidden.AssignHiddenSingles | puzzle-hub/public/sudoku/sudoku.js:255-307 | the arrays afterwards are the hidden pass of the board on entry; the returned flag is true exactly when a value was written |
| SudokuLocked.RemoveSublist | puzzle-hub/public/sudoku/sudoku-solver.js:164 | `filter(x => x !== num)` leaves a sublist of the list, in order |
| SudokuLocked.SublistTrans | puzzle-hub/public/sudoku/sudoku-solver.js:135-237 | a sublist of a sublist is a sublist, so successive eliminations compose |
| SudokuLocked.SublistLength | puzzle-hub/public/sudoku/sudoku-solver.js:164 | a sublist is no longer than the list, and equally long only when it is the list |
| SudokuLocked.SublistsTotal | puzzle-hub/public/sudoku/sudoku-solver.js:135-237 | pruning every list lowers the total number of candidates exactly when some list changed |
| SudokuLocked.PrunedTrans | puzzle-hub/public/sudoku/sudoku-solver.js:138-236 | "values kept, lists only shortened" composes across the steps of the pass |
| SudokuLocked.PrunedChain | puzzle-hub/public/sudoku/sudoku-solver.js:151-183 | after two prunings a list differs from the original exactly when one of the two changed it |
| SudokuLocked.LineCell | puzzle-hub/public/sudoku/sudoku-solver.js:158-181 | the j-th cell of a row (or column) loop is the cell in that row and column j (or row j) |
| SudokuLocked.ElimLinePruned | puzzle-hub/public/sudoku/sudoku-solver.js:158-166 | an elimination loop keeps every value and leaves every list a sublist of the old one |
| SudokuLocked.ElimLineSpec | puzzle-hub/public/sudoku/sudoku-solver.js:158-166 | a list the loop changes belongs to an empty, unskipped cell of the line that listed the digit, and exactly that digit was filtered out |
| SudokuLocked.BoxStepParts | puzzle-hub/public/sudoku/sudoku-solver.js:151-183 | a box with listing cells runs the row half and then the column half on the same positions |
| SudokuLocked.BoxRowPartCases | puzzle-hub/public/sudoku/sudoku-solver.js:154-167 | the row half eliminates along the shared row outside the box when the positions share a row, and does nothing otherwise |
| SudokuLocked.BoxColumnPartCases | puzzle-hub/public/sudoku/sudoku-solver.js:170-183 | the column half eliminates along the shared column outside the box when the positions share a column, and does nothing otherwise |
| SudokuLocked.LockedStepPruned | puzzle-hub/public/sudoku/sudoku-solver.js:140-235 | each box, row or column step keeps the values and only shortens lists |
| SudokuLocked.LockedDigitsPruned | puzzle-hub/public/sudoku/sudoku-solver.js:135-237 | lockedCandidates never writes a value, and every list afterwards is a sublist of the list before |
| SudokuLocked.LockedUnitsPruned | puzzle-hub/public/sudoku/sudoku-solver.js:140-235 | one digit's round keeps the values and only shortens lists |
| SudokuLocked.BoxListersShareRow | puzzle-hub/public/sudoku/sudoku-solver.js:154-156 | when the row set has size 1, every cell of the box listing the digit is in the row of the first position |
| SudokuLocked.BoxListersShareColumn | puzzle-hub/public/sudoku/sudoku-solver.js:170-172 | when the column set has size 1, every cell of the box listing the digit is in the column of the first position |
| SudokuLocked.BoxStepLocked | puzzle-hub/public/sudoku/sudoku-solver.js:151-183 | the box part is a box-line reduction: a list it changes listed the digit, lost exactly it, and lies outside the box on the line the box's listers are locked to |
| SudokuLocked.BoxStepLockedAt | puzzle-hub/public/sudoku/sudoku-solver.js:151-183 | the same, for one changed cell |
| SudokuLocked.RowStretch | puzzle-hub/public/sudoku/sudoku-solver.js:158-166 | a list the row half changes lies in the shared row outside the box and lost exactly the digit |
| SudokuLocked.ColumnStretch | puzzle-hub/public/sudoku/sudoku-solver.js:174-182 | a list the column half changes lies in the shared column outside the box and lost exactly the digit |
| SudokuLocked.OutsideBox | puzzle-hub/public/sudoku/sudoku-solver.js:160 | a cell outside the box's three columns or three rows is outside the box |
| SudokuLocked.ElimLineLoop | puzzle-hub/public/sudoku/sudoku-solver.js:158-166 | one elimination loop over the arrays equals its specification, and reports whether a list changed |
| SudokuLocked.BoxRowLoop | puzzle-hub/public/sudoku/sudoku-solver.js:154-167 | the row half over the arrays equals BoxRowPart, and reports exactly whether a list changed |
| SudokuLocked.BoxColumnLoop | puzzle-hub/public/sudoku/sudoku-solver.js:170-183 | the column half over the arrays equals BoxColumnPart, and reports exactly whether a list changed |
| SudokuLocked.BoxInUnit | puzzle-hub/public/sudoku/sudoku-solver.js:143-183 | one box over the arrays equals BoxStep, and reports exactly whether a list changed |
| SudokuLocked.LineInUnit | puzzle-hub/public/sudoku/sudoku-solver.js:188-235 | one row or column step, as written with the band index reused as a row or column band, equals its specification |
| SudokuLocked.OneBand | puzzle-hub/public/sudoku/sudoku-solver.js:197-198 | the `new Set(...).size === 1` test on `Math.floor(c / 3)` holds exactly when all positions share a band |
| SudokuLocked.OneResidue | puzzle-hub/public/sudoku/sudoku-solver.js:170-171 | the column-set test on a box's positions holds exactly when all share a column |
| SudokuLocked.SetOfThirds | puzzle-hub/public/sudoku/sudoku-solver.js:154-155 | a set of the mapped positions has size 1 exactly when all positions map to the same value |
| SudokuLocked.LockedDigit | puzzle-hub/public/sudoku/sudoku-solver.js:138-236 | one digit's round over the arrays equals LockedUnits, only prunes lists, and reports exactly whether a list changed |
| SudokuLocked.LockedCandidates | puzzle-hub/public/sudoku/sudoku.js:313-422 | the arrays afterwards are the locked pass of the board on entry; the flag is true exactly when some list lost an entry |
| SudokuSolver.RoundFills | puzzle-hub/public/sudoku/sudoku-solver.js:249-256 | one iteration only fills empty cells, so it either leaves the values alone or has fewer empty cells; the corrected passes keep a consistent grid consistent |
| SudokuSolver.SolveMeasure | puzzle-hub/public/sudoku/sudoku-solver.js:248-261 | the loop's measure is at least twice the number of empty cells, so solve terminates because values only go from 0 to non-zero |
| SudokuSolver.SolverPage.constructor | puzzle-hub/public/sudoku/sudoku-solver.js:21-27 | createEmptyBoard: 81 zero values, empty lists, no givens, nothing selected |
| SudokuSolver.SolverPage.SelectCell | puzzle-hub/public/sudoku/sudoku-solver.js:290-294 | the solver page lets any cell be selected and changes nothing else |
| SudokuSolver.SolverPage.HandleKey | puzzle-hub/public/sudoku/sudoku-solver.js:300-313 | a given cell is never changed; a digit key stores the digit, Backspace stores 0, other keys change nothing |
| SudokuSolver.SolverPage.ReadGridToBoard | puzzle-hub/public/sudoku/sudoku-solver.js:318-327 | NaN reads as 0, and a cell is a given exactly when it read as a positive number |
| SudokuSolver.SolverPage.Solve | puzzle-hub/public/sudoku/sudoku-solver.js:244-265 | solve stops at a fixpoint of an iteration, never changes a non-zero cell, returns true exactly when no cell is 0, and with the corrected passes keeps a consistent grid consistent |
| SudokuSolver.SolveRound | puzzle-hub/public/sudoku/sudoku-solver.js:249-256 | one iteration over the arrays equals Round; empty cells never increase, and strictly decrease when a value changed |
| SudokuSolver.AllFilled | puzzle-hub/public/sudoku/sudoku-solver.js:264 | the final test is true exactly when every cell is non-zero |
| SudokuGame.Digits19 | puzzle-hub/public/sudoku/sudoku.js:60 | the nine digits 1..9 |
| SudokuGame.SumFillsZero | puzzle-hub/public/sudoku/sudoku.js:110-117 | when no Safe digit from k on completes the grid, the counted completions from k on are 0 |
| SudokuGame.ShuffledDigits | puzzle-hub/public/sudoku/sudoku.js:60 | fillBoard tries a rearrangement of 1..9 |
| SudokuGame.ShuffledInRange | puzzle-hub/public/sudoku/sudoku.js:60 | a rearrangement of 1..9 holds nine digits, each 1..9 |
| SudokuGame.DeadPrefixStep | puzzle-hub/public/sudoku/sudoku.js:61-67 | one more failed digit extends the prefix of dead-end digits |
| SudokuGame.NoDigitCompletes | puzzle-hub/public/sudoku/sudoku.js:68 | when every digit of the shuffled 1..9 fails at an empty cell, the grid has no completion from there, so returning false is correct |
| SudokuGame.CompletesFromEnd | puzzle-hub/public/sudoku/sudoku.js:55 | at position 81 the grid is its own completion |
| SudokuGame.CompletesFromFilled | puzzle-hub/public/sudoku/sudoku.js:58 | a filled cell is skipped and its completion carries over |
| SudokuGame.CompletesFromPlace | puzzle-hub/public/sudoku/sudoku.js:62-64 | a Safe digit placed at the empty cell, followed by a completion of the rest, completes the grid |
| SudokuGame.CountSolutions | puzzle-hub/public/sudoku/sudoku.js:96-122 | the count is the number of backtracking completions capped at maxCount; the board is left unchanged unless the cap was reached |
| SudokuGame.Backtrack | puzzle-hub/public/sudoku/sudoku.js:99-118 | the running count grows by the completions from (r, c) on, capped; it returns false exactly when the cap is reached, and otherwise restores every cell it wrote |
| SudokuGame.TryDigits | puzzle-hub/public/sudoku/sudoku.js:110-117 | the loop over 1..9 at an empty cell adds the completions of every digit isValid allows, capped; it returns false exactly when the cap is reached, and otherwise leaves the board as it found it |
| SudokuGame.CountDigit | puzzle-hub/public/sudoku/sudoku.js:111-115 | one digit of that loop: a digit isValid rejects adds nothing; an accepted one adds the completions after it, capped, and the cell is set back to 0 unless the cap was reached |
| SudokuGame.SudokuGame.constructor | puzzle-hub/public/sudoku/sudoku.js:23-30 | the page starts with empty cells, no givens, nothing selected, not finished |
| SudokuGame.SudokuGame.CreateEmptyBoard | puzzle-hub/public/sudoku/sudoku.js:23-30 | fresh all-zero cells, no givens, nothing selected, not finished |
| SudokuGame.SudokuGame.FillBoard | puzzle-hub/public/sudoku/sudoku.js:54-69 | on true every cell from pos on is filled, no filled cell changed and a consistent grid stays consistent; on false nothing changed and no completion exists |
| SudokuGame.SudokuGame.FillEmpty | puzzle-hub/public/sudoku/sudoku.js:60-68 | the same at an empty cell, trying the shuffled digits in turn |
| SudokuGame.SudokuGame.TryInOrder | puzzle-hub/public/sudoku/sudoku.js:61-68 | the loop over a shuffled 1..9 at an empty cell: on true a completion of the grid from there, on false nothing changed and the grid has no completion from there |
| SudokuGame.SudokuGame.TryDigit | puzzle-hub/public/sudoku/sudoku.js:62-66 | a digit is placed only if isSafe allows; on failure the cell is back to 0 and the digit is a dead end |
| SudokuGame.SudokuGame.GenerateFullBoard | puzzle-hub/public/sudoku/sudoku.js:36-75 | generation always succeeds: the result, copied into solution, is a solved grid (complete, digits 1..9, no unit repeating one) |
| SudokuGame.SudokuGame.GeneratePuzzle | puzzle-hub/public/sudoku/sudoku.js:148-183 | the solution is a solved grid, every value left is 0 or the solution's, the givens are exactly the filled cells, the puzzle has exactly one completion, and every solved grid agreeing with the puzzle is the solution |
| SudokuGame.SudokuGame.MarkAllGiven | puzzle-hub/public/sudoku/sudoku.js:153-157 | every cell becomes a given |
| SudokuGame.SudokuGame.ClearInOrder | puzzle-hub/public/sudoku/sudoku.js:169-182 | the removal loop over a permutation of the 81 positions keeps values equal to the solution or 0, givens exactly the filled cells, and exactly one completion |
| SudokuGame.SudokuGame.TryClear | puzzle-hub/public/sudoku/sudoku.js:170-181 | the cell stays cleared (value 0, not a given) exactly when the cleared board has one completion; otherwise its value is restored and it stays a given |
| SudokuGame.SudokuGame.StartGame | puzzle-hub/public/sudoku/sudoku.js:446-458 | a new puzzle whose non-given cells are all 0, not finished: the solution is a solved grid, the givens are the filled cells and hold the solution's values, the puzzle has one completion, and the solution is the only solved grid agreeing with it |
| SudokuGame.SudokuGame.ClearNonGiven | puzzle-hub/public/sudoku/sudoku.js:448-454 | every cell that is not a given becomes 0, the givens keep their values |
| SudokuGame.SudokuGame.SelectCell | puzzle-hub/public/sudoku/sudoku.js:464-469 | a given cell cannot be selected; the previous selection stays |
| SudokuGame.SudokuGame.HandleKey | puzzle-hub/public/sudoku/sudoku.js:475-488 | nothing without a selection or with a given selected; otherwise a digit key stores the digit, Backspace 0, any other key nothing, and then the game is finished exactly when it was or every cell equals the solution |
| SudokuGame.SudokuGame.CheckForWin | puzzle-hub/public/sudoku/sudoku.js:493-504 | finished becomes true only when every cell is non-zero and equals the solution |
| SudokuGame.DeepCopyBoard | puzzle-hub/public/sudoku/sudoku.js:190-194 | the copy is a new board holding the same values, so countSolutions on it cannot touch the working board |
| SudokuGame.EmptyConsistent | puzzle-hub/public/sudoku/sudoku.js:23-30 | the all-empty starting board is consistent |
| SudokuGame.OnlySolution | puzzle-hub/public/sudoku/sudoku.js:175-181 | once the count of completions is 1, a solution agreeing with the grid is the only one |
| SudokuGame.PatternGrid | puzzle-hub/public/sudoku/sudoku.js:36-75 | a concrete full grid of 81 digits 1..9 |
| SudokuGame.PatternAt | puzzle-hub/public/sudoku/sudoku.js:36-75 | its cell (r, c) holds (3 (r mod 3) + r / 3 + c) mod 9 + 1 |
| SudokuGame.PatternIsSolution | puzzle-hub/public/sudoku/sudoku.js:36-75 | that grid is a solved Sudoku, so a full board exists for generateFullBoard to find |
| SudokuGame.PatternApart | puzzle-hub/public/sudoku/sudoku.js:39-52 | two different cells of one row, column or box get different pattern digits |
| SudokuGame.ModNine | puzzle-hub/public/sudoku/sudoku.js:39-52 | numbers less than 9 apart have different residues mod 9 |
| SudokuGame.EmptyBoardCounted | puzzle-hub/public/sudoku/sudoku.js:54-69 | the empty board has at least one completion, so fillBoard on it returns true |
| CrosswordGrid.AllWhite | crossword/crossword.js:116-118 | the starting grid has 225 squares, all white |
| CrosswordGrid.IsSymmetric | crossword/crossword.js:10-17 | true exactly when every square equals its image under a half turn, (14 - i, 14 - j) |
| CrosswordGrid.RunStart | crossword/crossword.js:23-31 | the running `count` is the length of the maximal white run ending at the scan position |
| CrosswordGrid.LineRunsOk | crossword/crossword.js:23-33 | the scan of one row or column succeeds exactly when every maximal white run in it has length at least 3 |
| CrosswordGrid.HasMinWordLength | crossword/crossword.js:20-37 | true exactly when every maximal white run of every row and column is at least 3 long |
| CrosswordGrid.ReachableSym | crossword/crossword.js:57-79 | white-to-white reachability is symmetric |
| CrosswordGrid.ReachableTrans | crossword/crossword.js:57-79 | white-to-white reachability is transitive |
| CrosswordGrid.ReachableStep | crossword/crossword.js:65-76 | a white neighbour of a reachable square is reachable |
| CrosswordGrid.ConnectedFromHub | crossword/crossword.js:80-85 | one white square that reaches every white square makes all white squares connected |
| CrosswordGrid.FirstWhite | crossword/crossword.js:44-54 | the start is the first white square in row-major order, or none when the grid has no white square |
| CrosswordGrid.PathStaysVisited | crossword/crossword.js:57-79 | once the queue is empty, no walk through white squares leaves the visited squares |
| CrosswordGrid.AllWhiteConnected | crossword/crossword.js:40-86 | the BFS returns true exactly when every white square is 4-connected to every other, and true with no white square |
| CrosswordGrid.InitialMarks | crossword/crossword.js:55-56 | before the loop only the start is marked and queued |
| CrosswordGrid.Search | crossword/crossword.js:57-79 | the loop ends with every marked square reachable from the start and every white neighbour of a marked square marked |
| CrosswordGrid.SearchDecides | crossword/crossword.js:80-85 | after the search, the grid is connected exactly when the final scan finds no unmarked white square |
| CrosswordGrid.ClosedAfterVisit | crossword/crossword.js:58-78 | visiting the head of the queue keeps "every neighbour of a visited, dequeued square is visited" |
| CrosswordGrid.VisitNeighbours | crossword/crossword.js:59-78 | the four directions mark and queue every white, unmarked, in-grid neighbour, and each mark shrinks the unmarked count |
| CrosswordGrid.VisitOne | crossword/crossword.js:65-77 | one direction marks and queues the neighbour exactly when it is in the grid, white and unmarked |
| CrosswordGrid.AllWhiteVisited | crossword/crossword.js:80-85 | the final scan is true exactly when every white square was marked |
| CrosswordGrid.AllWhiteHaveWords | crossword/crossword.js:89-102 | true exactly when every white square has a white left or right neighbour and a white up or down neighbour |
| CrosswordGrid.IsValid | crossword/crossword.js:105-112 | isValid is the conjunction of the four checks |
| CrosswordGrid.AllWhiteReach | crossword/crossword.js:116-118 | every square of the all-white grid reaches the corner |
| CrosswordGrid.AllWhiteValid | crossword/crossword.js:116-118 | the all-white starting grid passes isValid |
| CrosswordGrid.CountBlackUpdate | crossword/crossword.js:143-149 | writing one square changes the black count by exactly the change at that square |
| CrosswordGrid.CandidateRows | crossword/crossword.js:123-126 | since SIZE / 2 is 7.5, a square is a candidate exactly when its row is at most 7 |
| CrosswordGrid.CandidatePositions | crossword/crossword.js:119-130 | the list holds exactly the in-grid squares that pass the candidate test |
| CrosswordGrid.ShuffledPositions | crossword/crossword.js:119-135 | the shuffled list holds exactly the squares the double loop collects, the in-grid squares with i < SIZE / 2 or on the middle row up to its centre (by CandidateRows, all of rows 0..7) |
| CrosswordGrid.TryPair | crossword/crossword.js:139-151 | kept exactly when (i, j) and (14 - i, 14 - j) were both white and the grid with both turned black passes isValid; then the grid is that grid, otherwise it is unchanged |
| CrosswordGrid.PlaceBlackSquares | crossword/crossword.js:115-154 | the result passes isValid, holds only white and black squares, and has at most two black squares per kept pair, at most floor(numBlack / 2) pairs |
| CrosswordFill.InsertByLength | crossword/crossword.js:158-160 | inserting one entry into a list sorted longest first gives a rearrangement of the list plus the entry that is still sorted longest first |
| CrosswordFill.InsertTail | crossword/crossword.js:159 | an entry behind a longer head entry keeps the list sorted longest first |
| CrosswordFill.InsertKeepsOrder | crossword/crossword.js:159 | the inserted entry goes before every entry of its own length, and the entries of each length keep their order |
| CrosswordFill.InsertBehind | crossword/crossword.js:159 | passing a longer head entry does not change the order of the entries of any length |
| CrosswordFill.SortByLengthDesc | crossword/crossword.js:158-160 | the sorted copy is a permutation of the words with non-increasing word lengths |
| CrosswordFill.SortIsStable | crossword/crossword.js:159 | the sort is stable: the words of each length keep their input order |
| CrosswordFill.HasEnoughSpace | crossword/crossword.js:162-175 | true exactly when the span fits inside the 15x15 grid and covers no black square |
| CrosswordFill.CanPlaceWord | crossword/crossword.js:177-190 | true exactly when the span fits, covers no black square, and every letter already on it equals the word's letter there |
| CrosswordFill.PlaceFromAt | crossword/crossword.js:194-202 | after placeWord from letter k on, each square of the rest of the span holds its letter and the others are as before |
| CrosswordFill.PlaceFromInGrid | crossword/crossword.js:200 | every recorded square lies in the grid |
| CrosswordFill.PlaceWord | crossword/crossword.js:192-204 | the grid and the returned squares are those of the span-by-span specification |
| CrosswordFill.ClearAt | crossword/crossword.js:206-210 | after removeWord a square is white when listed and unchanged otherwise |
| CrosswordFill.RemoveWord | crossword/crossword.js:206-210 | the array afterwards is the listed squares made white |
| CrosswordFill.PlaceWordWrites | crossword/crossword.js:192-204 | placeWord writes the word's letters along the span and touches nothing off it |
| CrosswordFill.PlaceWordRecordsChanges | crossword/crossword.js:198-201 | the squares placeWord returns are exactly the squares whose content it changed |
| CrosswordFill.PlaceRemoveRoundTrip | crossword/crossword.js:192-210 | when canPlaceWord held, removeWord on placeWord's returned squares restores the grid exactly |
| CrosswordFill.ExtendsTrans | crossword/crossword.js:212-231 | "only white squares got letters" composes across the recursive placements |
| CrosswordFill.WrittenKept | crossword/crossword.js:220-223 | a word already written stays written when later words only fill white squares |
| CrosswordFill.PlaceExtends | crossword/crossword.js:220-221 | a word that fits is written by placeWord, which only fills white squares |
| CrosswordFill.Upper | crossword/crossword.js:215 | `toUpperCase` maps each character, keeping the length |
| CrosswordFill.SolveCrossword | crossword/crossword.js:212-231 | true exactly when the words from index on can be placed one after another (`Placeable`: some span fits the next word and the rest can be placed after it); on true every such word is written along some span and only white squares were filled; on false the grid equals its input |
| CrosswordFill.TryPlace | crossword/crossword.js:220-226 | one span: true exactly when the word fits there and the rest can be placed after writing it (`PlaceableAt`); place, recurse, and undo on failure, so a failed try leaves the grid as it was |
| CrosswordFill.LongWordUnplaceable | crossword/crossword.js:212-231 | a word longer than the 15-square grid fits no span, so the search from it fails |
| CrosswordFill.Usable | crossword/crossword.js:284 | the word list keeps exactly the rows with a word and a clue |
| CrosswordFill.StartCrossword | crossword/crossword.js:262-277 | the black-square grid passes isValid; success exactly when the usable words, sorted longest first, can be placed into it; the filled copy keeps its black squares and, on success, holds every usable word; on failure the copy is unchanged |
| CrosswordFill.CopyGrid | crossword/crossword.js:267 | the copy is a fresh grid with the same squares |
| CrosswordFill.EveryEntryWritten | crossword/crossword.js:269-270 | placing every word of the sorted list places every word of the list |
| WordGraph.DiffCount | puzzle-hub/public/weaver/weaver-solver.js:119-121 | the number of differing positions below n is at most n |
| WordGraph.DiffCountZero | puzzle-hub/public/weaver/weaver-solver.js:119-124 | no differing position means the two words agree at every compared position |
| WordGraph.DiffCountOne | puzzle-hub/public/weaver/weaver-solver.js:118-125 | a count of one means the words differ at exactly one compared position, and conversely |
| WordGraph.DiffCountSymmetric | puzzle-hub/public/weaver/weaver-solver.js:121 | the difference count, hence isOneLetterDiff, is symmetric |
| WordGraph.DiffCountGrows | puzzle-hub/public/weaver/weaver-solver.js:120-122 | the count over a prefix never exceeds the count over a longer range, which justifies the early `return false` |
| WordGraph.IsOneLetterDiff | puzzle-hub/public/weaver/weaver-solver.js:118-125 | the loop with its early exit returns true exactly when exactly one compared position differs |
| WordGraph.Neighbours | puzzle-hub/public/weaver/weaver-solver.js:103-107 | the neighbour list holds exactly the list words other than the word and one letter away |
| WordGraph.NeighboursPrefix | puzzle-hub/public/weaver/weaver-solver.js:103-107 | the inner loop appends neighbours in list order |
| WordGraph.BuildWordGraph | puzzle-hub/public/weaver/weaver-solver.js:99-110 | every list word maps to exactly the other list words one letter away, in list order, and nothing else is a key |
| WordGraph.NoSelfLoops | puzzle-hub/public/weaver/weaver-solver.js:104 | no word is its own neighbour |
| WordGraph.GraphSymmetric | puzzle-hub/public/weaver/weaver.js:164-177 | adjacency is symmetric whenever both words are compared over the same range |
| WordGraph.GraphClosed | puzzle-hub/public/weaver/weaver-solver.js:99-110 | every neighbour is itself a key of the graph |
| WordGraph.PathExtend | puzzle-hub/public/weaver/weaver-solver.js:146 | a path extended by a neighbour of its last word is a path |
| WordGraph.PathPrefix | puzzle-hub/public/weaver/weaver-solver.js:146 | every proper prefix of a path is a path ending next to the dropped word |
| WordGraph.ClosedSetHoldsPaths | puzzle-hub/public/weaver/weaver.js:207-217 | a set holding the start and every neighbour of each of its words holds the end of every path from the start |
| WordGraph.ClosedSetUnreachable | puzzle-hub/public/weaver/weaver.js:217 | a word outside such a set is unreachable, so a search that exhausts its queue may answer "no" |
| WordGraph.PathIsLadder | puzzle-hub/public/weaver/weaver-solver.js:47-48 | in the built graph the paths from a list word are exactly the word ladders over the list |
| WeaverSolver.SetDiffCard | puzzle-hub/public/weaver/weaver-solver.js:144-145 | marking words visited shrinks the set of unvisited words by as many |
| WeaverSolver.LevelUp | puzzle-hub/public/weaver/weaver-solver.js:138-148 | when the front path is one word longer than the last level, every path of that length ends on a visited word (BFS order) |
| WeaverSolver.ExtendGood | puzzle-hub/public/weaver/weaver-solver.js:144-146 | a shortest path extended by an unvisited neighbour is a shortest path without repeats |
| WeaverSolver.QueueOkGrow | puzzle-hub/public/weaver/weaver-solver.js:145 | marking more words visited keeps the queue invariant |
| WeaverSolver.QueueOkPush | puzzle-hub/public/weaver/weaver-solver.js:146 | pushing a good path one word longer keeps the queue ordered by length |
| WeaverSolver.QueuedPush | puzzle-hub/public/weaver/weaver-solver.js:146 | a queued word stays queued when a path is pushed |
| WeaverSolver.CoveredPush | puzzle-hub/public/weaver/weaver-solver.js:145-146 | marking a word when its path is queued keeps every visited word covered |
| WeaverSolver.CoveredRelease | puzzle-hub/public/weaver/weaver-solver.js:143-148 | once all neighbours of the dequeued word are visited, it needs no queued path |
| WeaverSolver.Dequeue | puzzle-hub/public/weaver/weaver-solver.js:139-140 | the dequeued path is a shortest path without repeats and the rest of the queue keeps the invariants |
| WeaverSolver.QueuedPrefix | puzzle-hub/public/weaver/weaver-solver.js:146 | a word queued in a prefix of the queue is queued |
| WeaverSolver.PushNeighbour | puzzle-hub/public/weaver/weaver-solver.js:144-147 | visiting and queueing an unvisited neighbour keeps the inner loop's state |
| WeaverSolver.Expand | puzzle-hub/public/weaver/weaver-solver.js:143-148 | every neighbour of the path's last word is visited afterwards, and only unvisited ones were queued, as the path extended by them |
| WeaverSolver.InitialSearch | puzzle-hub/public/weaver/weaver-solver.js:135-136 | the queue [[start]] with start visited satisfies the search invariants |
| WeaverSolver.TakeFront | puzzle-hub/public/weaver/weaver-solver.js:139-141 | taking the front path off the queue, the level is the front path's length and the inner loop's state holds |
| WeaverSolver.FoundEnd | puzzle-hub/public/weaver/weaver-solver.js:141 | the front path, once it ends on `end`, is a shortest path to it without repeats |
| WeaverSolver.AfterExpand | puzzle-hub/public/weaver/weaver-solver.js:143-148 | after the inner loop the outer loop's invariants hold again and the measure (unvisited words, queue length) has decreased |
| WeaverSolver.FindShortestPath | puzzle-hub/public/weaver/weaver-solver.js:134-151 | a returned path starts at start, ends at end, follows edges, has no repeats and is a shortest one; null only when end is unreachable |
| WeaverSolver.SameWordPath | puzzle-hub/public/weaver/weaver-solver.js:141 | when start equals end, the shortest path is [start] |
| WeaverSolver.Solve | puzzle-hub/public/weaver/weaver-solver.js:32-53 | a missing word, a word not of 4 letters and a word not in the list are rejected in that order before any search; otherwise the answer is a shortest ladder or "no solution" exactly when none exists |
| WeaverGame.CountVisitedAppend | puzzle-hub/public/weaver/weaver.js:211-212 | queueing an unvisited neighbour does not add to the count of queued visited words |
| WeaverGame.ReachableStep | puzzle-hub/public/weaver/weaver.js:210-213 | a neighbour of a reachable word is reachable |
| WeaverGame.AreWordsSolvable | puzzle-hub/public/weaver/weaver.js:201-218 | true exactly when some path leads from start to end: immediately when start = end, false only after the reachable words are exhausted |
| WeaverGame.QueueNeighbours | puzzle-hub/public/weaver/weaver.js:210-214 | every neighbour of the word ends up visited or queued, and only reachable words are queued |
| WeaverGame.AfterVisit | puzzle-hub/public/weaver/weaver.js:206-214 | one turn of the loop keeps its state and decreases its measure (unvisited words, then queued visited words) |
| WeaverGame.ChooseWords | puzzle-hub/public/weaver/weaver.js:227-230 | a returned pair is two different list words joined by a word ladder |
| WeaverGame.Agreement | puzzle-hub/public/weaver/weaver.js:376-385 | the `count` of agreeing positions is the row length minus the number of differing positions |
| WeaverGame.Weaver.constructor | puzzle-hub/public/weaver/weaver.js:247-266 | the board is the start word over an empty row, at row 1, column 0, not finished |
| WeaverGame.Weaver.SetupBoard | puzzle-hub/public/weaver/weaver.js:223-267 | the chosen start and end are different list words joined by a ladder, and the board is reset to the start word over an empty row at row 1, column 0, not finished |
| WeaverGame.Weaver.CheckWord | puzzle-hub/public/weaver/weaver.js:371-439 | a row is accepted only when it agrees with the row above in exactly 3 of 4 positions and is a list word; the end word finishes the game, any other accepted word opens a new row at column 0; a rejected row changes nothing |
| WeaverGame.Weaver.HandleKey | puzzle-hub/public/weaver/weaver.js:285-335 | nothing once finished; ENTER checks only a complete row; BACKSPACE removes the last letter, or on an empty row past the first guess goes back a row; a letter A-Z is added only while the row has room; ENTER on a complete row leaves a guess that is not one letter from the row above or not a list word in place, finishes the game on the end word, and otherwise opens a new row; any other key changes nothing |
| WeaverGame.ThreeAgreeIsOneLetter | puzzle-hub/public/weaver/weaver.js:386 | on four-letter rows, three agreeing positions is the same as differing at exactly one position |
| WordleScore.Avail | puzzle-hub/public/wordle/wordle.js:253-271 | after the first pass, a letter's count is its occurrences in the target minus its correct positions |
| WordleScore.CorrectAtMostCount | puzzle-hub/public/wordle/wordle.js:266-268 | a letter has no more correct positions than occurrences in the target, so the first pass never drives its count negative |
| WordleScore.Marks | puzzle-hub/public/wordle/wordle.js:261-291 | the colours of a guess are five, one per position, each as MarkAt states |
| WordleScore.MarkedSplit | puzzle-hub/public/wordle/wordle.js:274-291 | a letter's correct-or-present tiles are its correct tiles plus its present ones, at most the leftover count |
| WordleScore.MarksBounded | puzzle-hub/public/wordle/wordle.js:253-291 | per letter, correct and present tiles never outnumber the letter's occurrences in the target |
| WordleScore.AbsentMeansUsedUp | puzzle-hub/public/wordle/wordle.js:284-285 | a tile is absent only once every occurrence of its letter in the target is matched by a correct or present tile |
| WordleScore.EarlierGrows | puzzle-hub/public/wordle/wordle.js:274-291 | the count of earlier non-correct tiles of a letter only grows from left to right |
| WordleScore.CountSplit | puzzle-hub/public/wordle/wordle.js:261-291 | a letter's occurrences in the guess are its correct positions plus its non-correct ones |
| WordleScore.KeyColorIsBest | puzzle-hub/public/wordle/wordle.js:261-291 | within a guess a letter's keyboard colour is the best of its tiles' colours (correct > present > absent) |
| WordleScore.CorrectPositive | puzzle-hub/public/wordle/wordle.js:266 | the count of correct positions only grows along the word |
| WordleScore.CorrectWitness | puzzle-hub/public/wordle/wordle.js:266 | a positive correct count names a correct position of that letter |
| WordleScore.FirstEarlier | puzzle-hub/public/wordle/wordle.js:277-278 | a positive count of non-correct tiles names the first such tile |
| WordleScore.Upgrade | puzzle-hub/public/wordle/wordle.js:315-331 | a key's new colour is one of its old and new colours and ranks at least as high as both: never downgraded |
| WordleGame.CountPositive | puzzle-hub/public/wordle/wordle.js:278 | a letter's count is positive exactly when it occurs |
| WordleGame.FirstToSecond | puzzle-hub/public/wordle/wordle.js:273 | the state after the first pass starts the second pass |
| WordleGame.EarlierStep | puzzle-hub/public/wordle/wordle.js:277 | past a non-correct position only its letter's count of such positions grows |
| WordleGame.SecondPresent | puzzle-hub/public/wordle/wordle.js:278-283 | a non-correct position with occurrences left becomes present, uses one up, and its key becomes present unless correct |
| WordleGame.SecondAbsent | puzzle-hub/public/wordle/wordle.js:284-289 | a non-correct position with no occurrence left becomes absent and its key absent only if it had no colour |
| WordleGame.FirstStep | puzzle-hub/public/wordle/wordle.js:266-270 | a correct position is marked correct, uses one occurrence and colours its key correct |
| WordleGame.SecondSkip | puzzle-hub/public/wordle/wordle.js:277 | the second pass leaves correct positions alone |
| WordleGame.SecondDone | puzzle-hub/public/wordle/wordle.js:274-291 | after both passes the tiles are Marks and each letter of the guess has its best tile colour on the keyboard |
| WordleGame.CountLetters | puzzle-hub/public/wordle/wordle.js:253-256 | letterCount maps each letter to its number of occurrences in the target |
| WordleGame.MarkCorrect | puzzle-hub/public/wordle/wordle.js:261-271 | the first pass marks exactly the correct positions, each using up one occurrence |
| WordleGame.MarkRest | puzzle-hub/public/wordle/wordle.js:274-291 | the second pass completes the tiles to Marks and the keyboard to the best colour per letter |
| WordleGame.ScoreGuess | puzzle-hub/public/wordle/wordle.js:253-291 | the two passes give Marks of the guess and, for each guessed letter, its best tile colour |
| WordleGame.KeyMap | puzzle-hub/public/wordle/wordle.js:258-291 | keyboardColor holds exactly the letters of the guess |
| WordleGame.Recolor | puzzle-hub/public/wordle/wordle.js:311-334 | updateKeyboardColors never downgrades a key, keeps keys not named, and gives each named key one of its two colours |
| WordleGame.KeyboardBeatsTiles | puzzle-hub/public/wordle/wordle.js:311-334 | across all guesses, every tile's colour is matched or beaten by its letter's key |
| WordleGame.KeyboardFromTiles | puzzle-hub/public/wordle/wordle.js:311-334 | every key's colour is the colour of some tile of that letter |
| WordleGame.ScoreOneMore | puzzle-hub/public/wordle/wordle.js:293 | scoring one more listed guess keeps tiles and keyboard those of the guesses so far |
| WordleGame.FirstBlankRow | puzzle-hub/public/wordle/wordle.js:94 | on resume the row is the first all-blank saved row, or -1 when there is none |
| WordleGame.Wordle.constructor | puzzle-hub/public/wordle/wordle.js:148-167 | a target from the solution list over six empty rows, at row 0, column 0, not finished |
| WordleGame.Wordle.SetupBoard | puzzle-hub/public/wordle/wordle.js:148-167 | a new target from the solution list, the board six empty rows, no colours, row and column 0, not finished |
| WordleGame.Wordle.CheckWord | puzzle-hub/public/wordle/wordle.js:244-305 | a word on neither list changes nothing; otherwise the row is coloured and the keyboard updated, and the guess equal to the target finishes, the last row finishes, and any other moves to the next row at column 0 |
| WordleGame.Wordle.AcceptGuess | puzzle-hub/public/wordle/wordle.js:253-304 | a listed guess is scored, then the game is won, lost on the last row, or moves on |
| WordleGame.Wordle.HandleKey | puzzle-hub/public/wordle/wordle.js:211-235 | nothing once finished; BACKSPACE clears the previous cell; a letter is added only while the row has room; ENTER on an incomplete row does nothing, and on a complete row leaves an unlisted word in place, otherwise colours the row and the keys and wins, loses on the last row or moves to the next row; any other key changes nothing |
| WordleGame.Wordle.EraseLetter | puzzle-hub/public/wordle/wordle.js:221-224 | the last letter of the row goes and the column moves back one |
| WordleGame.Wordle.TypeLetter | puzzle-hub/public/wordle/wordle.js:229-232 | the letter is appended to the row and the column moves on one |
| WordleSolver.Lower | puzzle-hub/public/wordle/wordle-solver.js:167-168 | lowercasing keeps the length and maps each character on its own |
| WordleSolver.MatchesSingleGuess | puzzle-hub/public/wordle/wordle-solver.js:166-200 | true exactly when every correct tile's letter is at its position, every present tile's letter is elsewhere in the candidate and not at its position, and every absent tile's letter is missing (no coloured tile of it) or at most as frequent as its coloured tiles |
| WordleSolver.WordMatchesGuesses | puzzle-hub/public/wordle/wordle-solver.js:152-157 | true exactly when the word agrees with every guess; true with no guesses |
| WordleSolver.TileEntry | puzzle-hub/public/wordle/wordle-solver.js:124-134 | a tile with one letter gives that letter lowercased and its colour; any other tile gives a blank, absent |
| WordleSolver.RowGuess | puzzle-hub/public/wordle/wordle-solver.js:121-135 | a row gives a five-letter guess whose every position is its tile's entry |
| WordleSolver.Guesses | puzzle-hub/public/wordle/wordle-solver.js:116-140 | at most one guess per row, each well formed |
| WordleSolver.GuessFromRow | puzzle-hub/public/wordle/wordle-solver.js:137-139 | the k-th guess comes from a row at or after k that holds a letter |
| WordleSolver.RowGivesGuess | puzzle-hub/public/wordle/wordle-solver.js:137-139 | every row holding a letter contributes its guess |
| WordleSolver.NoLettersNoGuesses | puzzle-hub/public/wordle/wordle-solver.js:119-139 | rows without letters give no guesses |
| WordleSolver.ReadRow | puzzle-hub/public/wordle/wordle-solver.js:117-135 | the tile loop builds the row's guess and reports the row empty exactly when no tile has a letter |
| WordleSolver.ReadGuesses | puzzle-hub/public/wordle/wordle-solver.js:113-140 | the row loop collects exactly Guesses of the rows |
| WordleSolver.Dedupe | puzzle-hub/public/wordle/wordle-solver.js:22 | the dictionary holds each word once and exactly the words of both lists |
| WordleSolver.DedupeOrder | puzzle-hub/public/wordle/wordle-solver.js:22 | deduplication keeps words in the order of their first occurrence |
| WordleSolver.Possible | puzzle-hub/public/wordle/wordle-solver.js:142 | a word is listed exactly when it is in the dictionary and agrees with every guess |
| WordleSolver.PossibleOrder | puzzle-hub/public/wordle/wordle-solver.js:142 | the filter keeps dictionary order |
| WordleSolver.SolveWordle | puzzle-hub/public/wordle/wordle-solver.js:112-144 | the listed words are Possible of the dictionary and the guesses read from the rows |
| WordleSolver.LowerCount | puzzle-hub/public/wordle/wordle-solver.js:167-168 | lowercasing an upper-case word keeps each letter's count |
| WordleSolver.LowerMarked | puzzle-hub/public/wordle/wordle-solver.js:189-191 | lowercasing keeps each letter's count of coloured tiles |
| WordleSolver.CountInMeansIn | puzzle-hub/public/wordle/wordle-solver.js:181-194 | a positive count is the same as `includes` |
| WordleSolver.TargetSurvives | puzzle-hub/public/wordle/wordle-solver.js:166-200 | a guess coloured by the game against the target, copied into the solver, never rules out the target |
| WordleSolver.TargetInPossible | puzzle-hub/public/wordle/wordle-solver.js:142 | the target is among the listed words for any guesses the game coloured against it |
| Minesweeper.ClampSize | puzzle-hub/public/minesweeper/minesweeper.js:121 | the size is within 5..20; an unparsable or zero input gives 8; any other input is clamped to 5..20 |
| Minesweeper.RowSet | puzzle-hub/public/minesweeper/minesweeper.js:295-296 | setting one cell of a row to a value adds one such cell and removes one of the other value |
| Minesweeper.GridSet | puzzle-hub/public/minesweeper/minesweeper.js:201 | revealing one hidden cell adds one to the revealed count and removes one hidden cell |
| Minesweeper.MineGrid | puzzle-hub/public/minesweeper/minesweeper.js:143 | the mine map has the board's shape and marks exactly the mines |
| Minesweeper.Blank | puzzle-hub/public/minesweeper/minesweeper.js:135-137 | generateBoard starts from a size x size board of non-mine, unflagged, zero-count cells |
| Minesweeper.Hidden | puzzle-hub/public/minesweeper/minesweeper.js:125 | revealedMap starts as size x size, all hidden |
| Minesweeper.GridNone | puzzle-hub/public/minesweeper/minesweeper.js:125 | a grid with no cell of a value counts none of it |
| Minesweeper.MineAtAdd | puzzle-hub/public/minesweeper/minesweeper.js:144 | a new mine changes the mine indicator of its own cell only |
| Minesweeper.NeighbourIndicator | puzzle-hub/public/minesweeper/minesweeper.js:157-160 | a cell is among the eight offsets around another exactly when it is in that cell's 3x3 block and not the cell itself |
| Minesweeper.MinesAroundAdd | puzzle-hub/public/minesweeper/minesweeper.js:144-146 | a new mine adds one to the mines around each of its neighbours and changes no other cell's |
| Minesweeper.FlagsKeepCounts | puzzle-hub/public/minesweeper/minesweeper.js:261 | toggling flags keeps the mines and every count right |
| Minesweeper.PlaceMineKeepsCounts | puzzle-hub/public/minesweeper/minesweeper.js:143-146 | a new mine followed by updateCounts leaves every non-mine cell counting its neighbouring mines |
| Minesweeper.MineTotalAdd | puzzle-hub/public/minesweeper/minesweeper.js:144-145 | a new mine adds one to the mines on the board, as minesPlaced++ does |
| Minesweeper.PlaceMine | puzzle-hub/public/minesweeper/minesweeper.js:143-147 | one step of generateBoard keeps the counts right, the flags clear, and minesPlaced the number of mines |
| Minesweeper.Game.constructor | puzzle-hub/public/minesweeper/minesweeper.js:120-129 | a freshly started game: the clamped size, mineCount = floor(0.15 size^2), nothing revealed, no flags, "Good luck!", counts right |
| Minesweeper.Game.StartGame | puzzle-hub/public/minesweeper/minesweeper.js:120-129 | the size from the input, mineCount = floor(0.15 size^2), nothing revealed, no flags, the message "Good luck!", counts right |
| Minesweeper.Game.GenerateBoard | puzzle-hub/public/minesweeper/minesweeper.js:134-149 | a square board whose every non-mine cell counts its neighbouring mines, with as many mines as were placed and no flags |
| Minesweeper.Game.LayMine | puzzle-hub/public/minesweeper/minesweeper.js:143-147 | a mine on a free cell plus updateCounts keeps the board generated, one mine more |
| Minesweeper.Game.UpdateCounts | puzzle-hub/public/minesweeper/minesweeper.js:156-166 | every in-bounds non-mine cell of the 3x3 block around (r, c) counts one more; nothing else changes |
| Minesweeper.Game.FloodShowsNoMine | puzzle-hub/public/minesweeper/minesweeper.js:232 | a flood never reveals a mine |
| Minesweeper.Game.FloodedTrans | puzzle-hub/public/minesweeper/minesweeper.js:240 | a flood inside a flood is a flood |
| Minesweeper.Game.RevealThenFlood | puzzle-hub/public/minesweeper/minesweeper.js:235-241 | revealing a hidden non-mine cell and flooding from it when blank is a flood |
| Minesweeper.Game.FloodedRefl | puzzle-hub/public/minesweeper/minesweeper.js:229-233 | revealing nothing is a flood |
| Minesweeper.Game.FloodAdvance | puzzle-hub/public/minesweeper/minesweeper.js:226-242 | after offset (dr, dc) the neighbour there is revealed unless off the board or a mine |
| Minesweeper.Game.FloodNextRow | puzzle-hub/public/minesweeper/minesweeper.js:225-226 | the outer loop moves to the next row of offsets |
| Minesweeper.Game.FloodDone | puzzle-hub/public/minesweeper/minesweeper.js:225-244 | after all nine offsets every in-bounds non-mine cell around (r, c) is revealed, and nothing outside the flood's region |
| Minesweeper.Game.ClosedMono | puzzle-hub/public/minesweeper/minesweeper.js:231-240 | a set closed under the flood's step stays closed for a later start or an earlier end of the flood |
| Minesweeper.Game.FloodStepBounded | puzzle-hub/public/minesweeper/minesweeper.js:227-242 | what one neighbour's reveal and flood opens stays inside the region of (r, c) |
| Minesweeper.Game.RevealThenFloodBounded | puzzle-hub/public/minesweeper/minesweeper.js:235-241 | revealing a hidden cell and flooding on only from a blank one opens nothing outside the region reached from it through newly opened blank cells |
| Minesweeper.Game.BlankBlockSafe | puzzle-hub/public/minesweeper/minesweeper.js:156-166 | a cell counting 0 has no mine among its neighbours |
| Minesweeper.Game.RevealIncluded | puzzle-hub/public/minesweeper/minesweeper.js:192-245 | a map within the click's region opens nothing that another flooded map revealing the cell leaves hidden |
| Minesweeper.Game.FloodDetermined | puzzle-hub/public/minesweeper/minesweeper.js:192-245 | the lower bound (Flooded) and the upper bound (the region) together fix the map a click leaves: two maps meeting both are equal |
| Minesweeper.Game.FloodReveal | puzzle-hub/public/minesweeper/minesweeper.js:224-245 | the board stays as it was; only non-mine cells are revealed, none is hidden again; the non-mine block around (r, c) is open, and so is that of every newly revealed blank cell; every newly revealed cell lies in the block of (r, c) or of a newly revealed blank cell reached from it through such cells |
| Minesweeper.Game.FloodOffset | puzzle-hub/public/minesweeper/minesweeper.js:227-242 | one offset of the loop keeps the flood invariant, upper bound included, and opens that neighbour unless it is off the board or a mine |
| Minesweeper.Game.RevealAndFlood | puzzle-hub/public/minesweeper/minesweeper.js:235-241 | the cell is revealed, a blank one floods its block, nothing outside the region reached from the cell opens, and strictly fewer cells are hidden |
| Minesweeper.Game.RevealCell | puzzle-hub/public/minesweeper/minesweeper.js:192-217 | ignored when over, revealed or flagged; a mine reveals it and ends the game "Game Over!"; otherwise the cell and a flood from it open, exactly the region reached through newly opened blank cells (FloodDetermined), and the game is won, "You win!", exactly when size^2 - mineCount cells are revealed; the board never changes and revealed cells stay revealed |
| Minesweeper.Game.OpenSafe | puzzle-hub/public/minesweeper/minesweeper.js:201-215 | a safe cell is shown, floods when blank within its region, and the win is checked |
| Minesweeper.Game.ShowCell | puzzle-hub/public/minesweeper/minesweeper.js:201-214 | the cell is revealed, a blank one floods its neighbours, and nothing outside its region opens |
| Minesweeper.Game.CountRevealed | puzzle-hub/public/minesweeper/minesweeper.js:292-299 | the loop counts exactly the revealed cells |
| Minesweeper.Game.CheckWin | puzzle-hub/public/minesweeper/minesweeper.js:291-304 | the game ends, "You win!", exactly when size^2 - mineCount cells are revealed; the board and the map are kept |
| Minesweeper.Game.FlagCell | puzzle-hub/public/minesweeper/minesweeper.js:251-264 | ignored once over or on a revealed cell; otherwise exactly that cell's flag is toggled |
| Connect4.EmptyBoard | puzzle-hub/public/connect4/connect4.js:118 | createBoard's board is 6 x 7 zeros |
| Connect4.EmptyIsOpen | puzzle-hub/public/connect4/connect4.js:29-30 | the empty board has gravity, no four in a row and room to play |
| Connect4.LowestFrom | puzzle-hub/public/connect4/connect4.js:140-141 | the downward scan from `row` finds the lowest empty cell of the column at or above it, with every cell below it up to `row` taken, or -1 when all are taken |
| Connect4.LowestEmpty | puzzle-hub/public/connect4/connect4.js:140-142 | a disc lands on the lowest empty row of the column, with every row below taken, or does not land when the column is full |
| Connect4.LandingRow | puzzle-hub/public/connect4/connect4.js:140-142 | under gravity a column is full exactly when its top cell is taken, and every cell above the landing row is empty |
| Connect4.DropKeepsGravity | puzzle-hub/public/connect4/connect4.js:142 | a disc on the landing row keeps every disc resting on another or on the floor |
| Connect4.RunsMakeFour | puzzle-hub/public/connect4/connect4.js:228-237 | counting the equal cells behind and ahead of (r, c) reaches four exactly when (r, c) lies in four in a row along that line |
| Connect4.WindowThrough | puzzle-hub/public/connect4/connect4.js:224-238 | a run of four through (r, c) is a run of four through each of its cells |
| Connect4.WindowMissesDrop | puzzle-hub/public/connect4/connect4.js:142 | a run of four that misses the new disc was on the board before it |
| Connect4.FourAfterDrop | puzzle-hub/public/connect4/connect4.js:142-144 | a run of four after a drop either holds the dropped disc or was already there |
| Connect4.WinsGoThroughDrop | puzzle-hub/public/connect4/connect4.js:144 | on a board without four in a row, checking the new disc alone finds every new four in a row |
| Connect4.Game.constructor | puzzle-hub/public/connect4/connect4.js:25-31 | init: an empty board, player 1, not finished |
| Connect4.Game.CreateBoard | puzzle-hub/public/connect4/connect4.js:117-131 | the board becomes empty; player and finished flag are kept |
| Connect4.Game.ResetGameAsWritten | puzzle-hub/public/connect4/connect4.js:243-246 | player 1 and an empty board, with the finished flag left as it was |
| Connect4.Game.ResetGame | puzzle-hub/public/connect4/connect4.js:243-246 | player 1, an empty board and a game not finished, as init starts one |
| Connect4.Game.ReplayAfterFinishAsWritten | puzzle-hub/public/connect4/connect4.js:243-246 | after a finished game, the written reset leaves a board on which a click in column 3 drops nothing |
| Connect4.Game.ReplayAfterFinish | puzzle-hub/public/connect4/connect4.js:243-246 | with the intended reset the first click in column 3 lands player 1's disc on the bottom row and passes the turn to player 2 |
| Connect4.Game.Reach | puzzle-hub/public/connect4/connect4.js:229-235 | the while loop walks over exactly the equal cells next to (r, c) along the direction |
| Connect4.Game.CheckDirection | puzzle-hub/public/connect4/connect4.js:224-238 | true exactly when (r, c) lies in four equal cells in a row along (dr, dc) |
| Connect4.Game.CheckWin | puzzle-hub/public/connect4/connect4.js:183-190 | true exactly when (r, c) lies in four in a row horizontally, vertically or on either diagonal |
| Connect4.Game.CheckIfGameIsFinished | puzzle-hub/public/connect4/connect4.js:196-213 | true exactly when some occupied cell lies in four in a row or the board is full |
| Connect4.Game.HandleMove | puzzle-hub/public/connect4/connect4.js:137-158 | nothing once finished or on a full column; otherwise the disc lands on the lowest empty row, a four through it or a full board finishes the game with the player kept, and otherwise the turn passes to 3 - player; gravity and "unfinished means no four and not full" are kept |
| Hanoi.StartTower | puzzle-hub/public/hanoi/hanoi.js:106-108 | the first tower holds NUM_DISKS disks, disk k from the bottom of size NUM_DISKS - k; none for a count below 1 |
| Hanoi.BuildTower | puzzle-hub/public/hanoi/hanoi.js:105-108 | the push loop builds exactly StartTower |
| Hanoi.Top | puzzle-hub/public/hanoi/hanoi.js:149-175 | a tower has a top disk exactly when it is not empty, and it is the last one pushed |
| Hanoi.Accepts | puzzle-hub/public/hanoi/hanoi.js:175-176 | a disk may be dropped exactly on an empty tower (top reads as Infinity) or on a larger top disk |
| Hanoi.StartTowerDecreasing | puzzle-hub/public/hanoi/hanoi.js:105-108 | the starting tower shrinks from bottom to top |
| Hanoi.PushKeepsDecreasing | puzzle-hub/public/hanoi/hanoi.js:176-178 | pushing an accepted disk keeps a tower decreasing |
| Hanoi.PopKeepsDecreasing | puzzle-hub/public/hanoi/hanoi.js:177 | popping the top keeps a tower decreasing |
| Hanoi.DecreasingGap | puzzle-hub/public/hanoi/hanoi.js:176 | in a decreasing tower a disk is at least j - i larger than the disk j - i places above it |
| Hanoi.FullTower | puzzle-hub/public/hanoi/hanoi.js:194 | a decreasing tower of n disks sized 1..n is exactly the starting order |
| Hanoi.InStart | puzzle-hub/public/hanoi/hanoi.js:106-108 | the starting tower holds exactly the sizes 1..NUM_DISKS |
| Hanoi.WinIsComplete | puzzle-hub/public/hanoi/hanoi.js:193-197 | once the third tower holds NUM_DISKS disks it holds all of them in order and the other towers are empty |
| Hanoi.DisksUpdate | puzzle-hub/public/hanoi/hanoi.js:177-178 | replacing one tower swaps its disks for the new tower's in the board's multiset |
| Hanoi.MoveKeepsLegal | puzzle-hub/public/hanoi/hanoi.js:176-178 | a legal move keeps every tower decreasing and the disks 1..n, with one disk fewer on the source and one more on the target |
| Hanoi.MoveKeepsDecreasing | puzzle-hub/public/hanoi/hanoi.js:176-178 | a move onto an accepting tower keeps all three decreasing |
| Hanoi.MoveKeepsDisks | puzzle-hub/public/hanoi/hanoi.js:177-178 | a move keeps the multiset of disks |
| Hanoi.PopDisk | puzzle-hub/public/hanoi/hanoi.js:177 | pop removes exactly the top disk from the board |
| Hanoi.PushDisk | puzzle-hub/public/hanoi/hanoi.js:178 | push adds exactly the disk to the board |
| Hanoi.Game.constructor | puzzle-hub/public/hanoi/hanoi.js:27-31 | init starts a game: the starting tower, two empty ones, no moves, no drag, the instructions shown |
| Hanoi.Game.StartGameAsWritten | puzzle-hub/public/hanoi/hanoi.js:97-111 | disks NUM_DISKS..1 on the first tower, the others empty, no moves, the instructions shown, the towers legal; a drag in progress is kept, as written |
| Hanoi.Game.StartGame | puzzle-hub/public/hanoi/hanoi.js:97-111 | the same new game with the drag in progress cancelled, so the game state is valid: legal towers and no stale drag |
| Hanoi.Game.DragStart | puzzle-hub/public/hanoi/hanoi.js:147-158 | only the top disk of its tower starts a drag; any other leaves the drag as it was |
| Hanoi.Game.Drop | puzzle-hub/public/hanoi/hanoi.js:172-188 | for any drag, current or stale: without a drag nothing happens; a drop the target accepts pops the drag's tower, pushes the dragged size, counts a move and checks the win; a drop on an equal disk changes nothing; any other drop shows the illegal-move message; the drag ends. From a valid state the accepted drop is the move of the dragged disk, a drop back on its own tower changes nothing, and the state stays valid |
| Hanoi.Game.CommitMove | puzzle-hub/public/hanoi/hanoi.js:177-182 | the drag's tower is popped and the dragged size pushed on the target, the move is counted, and the win message shows exactly when the third tower is full |
| Hanoi.DropBoard | puzzle-hub/public/hanoi/hanoi.js:177-178 | the pop and push as written: the dragged size ends on top of the target, the third tower is untouched, and while the drag holds the top disk of its tower this is exactly the move of that disk |
| Hanoi.TwoDiskBoards | puzzle-hub/public/hanoi/hanoi.js:97-111 | the boards [[2], [1], []] and [[2, 1], [], []] of the stale-drag example are legal two-disk boards |
| Hanoi.StaleDropBreaksDisks | puzzle-hub/public/hanoi/hanoi.js:97-111 | disk 2 dragged off [[2], [1], []] stays the drag through a new two-disk game; it no longer tops tower 0, yet a drop on the empty third tower is accepted and gives [[2], [], [2]], which is not a board of the disks 1..2 |
| Hanoi.Game.CheckWin | puzzle-hub/public/hanoi/hanoi.js:193-197 | the win message with the move count shows exactly when the third tower holds NUM_DISKS disks; otherwise the message is kept |
| Sliding.Solved | puzzle-hub/public/sliding/sliding.js:94-97 | sixteen cells: tiles 1..15 in order, then the blank |
| Sliding.Swap | puzzle-hub/public/sliding/sliding.js:130 | the destructuring swap exchanges the two cells and keeps every other |
| Sliding.AdjacentIndices | puzzle-hub/public/sliding/sliding.js:163-172 | the listed cells are exactly the cells at Manhattan distance 1, each once, two to four of them |
| Sliding.NeighbourCells | puzzle-hub/public/sliding/sliding.js:124-127 | the cells at Manhattan distance 1 are exactly the ones above, below, left and right on the grid |
| Sliding.BlankIndex | puzzle-hub/public/sliding/sliding.js:123 | `indexOf(null)` finds the blank, which every layout holds |
| Sliding.Walk | puzzle-hub/public/sliding/sliding.js:122-135 | any sequence of clicks keeps the tiles a rearrangement of 1..15 and the blank |
| Sliding.SolvedBlankOnce | puzzle-hub/public/sliding/sliding.js:94-97 | the solved layout has sixteen cells and exactly one blank |
| Sliding.TwoPositions | puzzle-hub/public/sliding/sliding.js:123 | a value at two positions occurs at least twice |
| Sliding.BlankAt | puzzle-hub/public/sliding/sliding.js:123 | a layout has sixteen cells and its blank is at the index `indexOf(null)` returns |
| Sliding.BlankIsThere | puzzle-hub/public/sliding/sliding.js:123 | `indexOf(null)` never returns -1 |
| Sliding.SwapKeepsPerm | puzzle-hub/public/sliding/sliding.js:130 | a swap only rearranges the tiles |
| Sliding.ClickKeepsPerm | puzzle-hub/public/sliding/sliding.js:122-135 | a click only rearranges the tiles |
| Sliding.ClickUndo | puzzle-hub/public/sliding/sliding.js:122-135 | clicking the cell the blank left undoes any click |
| Sliding.SwapBack | puzzle-hub/public/sliding/sliding.js:127-130 | a tile slid into the blank slides back when its old cell is clicked |
| Sliding.WalkBack | puzzle-hub/public/sliding/sliding.js:122-135 | every layout reached by clicks can be clicked back to where it started |
| Sliding.WalkSnoc | puzzle-hub/public/sliding/sliding.js:122-135 | walking clicks then one more is one more click on the walked layout |
| Sliding.Solvable | puzzle-hub/public/sliding/sliding.js:140-156 | a layout walked from the solved one can be solved again by clicks |
| Sliding.ShuffleStart | puzzle-hub/public/sliding/sliding.js:142-145 | shuffle starts from the solved layout with the blank in the last cell |
| Sliding.ShuffleStep | puzzle-hub/public/sliding/sliding.js:147-150 | swapping the blank with a neighbour is one more click on that neighbour, and the blank moves there |
| Sliding.SwapIsClick | puzzle-hub/public/sliding/sliding.js:149 | shuffle's swap of the blank with a neighbour is the same as the player clicking that neighbour |
| Sliding.BlankWalk | puzzle-hub/public/sliding/sliding.js:142-151 | the loop makes 1000 random steps of the blank and leaves the solved layout walked by them |
| Sliding.Puzzle.constructor | puzzle-hub/public/sliding/sliding.js:22-25 | init: tiles walked from the solved layout by the shuffle's clicks (so solvable, by Sliding.Solvable), no moves, no win shown |
| Sliding.Puzzle.CreateTiles | puzzle-hub/public/sliding/sliding.js:94-97 | the tiles become the solved layout |
| Sliding.Puzzle.HandleTileClick | puzzle-hub/public/sliding/sliding.js:122-135 | a tile next to the blank swaps with it, counts a move, and shows the win once solved; any other click changes nothing |
| Sliding.Puzzle.Shuffle | puzzle-hub/public/sliding/sliding.js:140-156 | a layout walked from the solved one by 1000 clicks, no moves, the win hidden |
| Sliding.Puzzle.CheckWin | puzzle-hub/public/sliding/sliding.js:177-182 | the win is shown once the tiles are the solved layout |
| TicTacToe.CheckWinner | puzzle-hub/public/tictactoe/tictactoe.js:134-144 | true exactly when the player fills a row, a column or a diagonal |
| TicTacToe.PlaceCounts | puzzle-hub/public/tictactoe/tictactoe.js:114 | marking an empty cell adds one mark for the player and none for the other |
| TicTacToe.OtherMoveNoLine | puzzle-hub/public/tictactoe/tictactoe.js:114-117 | a player without a line still has none after the other player's move |
| TicTacToe.Game.constructor | puzzle-hub/public/tictactoe/tictactoe.js:94-105 | nine empty cells, X to move, the game on |
| TicTacToe.Game.ResetGame | puzzle-hub/public/tictactoe/tictactoe.js:149-155 | nine empty cells, X to move, the game on |
| TicTacToe.Game.EmptyStart | puzzle-hub/public/tictactoe/tictactoe.js:149-155 | the empty board has no marks, no winner and free cells |
| TicTacToe.Game.HandleMove | puzzle-hub/public/tictactoe/tictactoe.js:111-127 | a taken cell or a finished game changes nothing; otherwise the mark is written and a line wins, a full board draws, or the turn passes; X is never behind O nor two ahead, and both players never have a line |
| Memory.Deck | puzzle-hub/public/memory/memory.js:152-155 | the unshuffled deck has 2n cards, each a value 1..n |
| Memory.DeckCounts | puzzle-hub/public/memory/memory.js:153-155 | every value 1..n is in the deck exactly twice and nothing else is |
| Memory.BuildDeck | puzzle-hub/public/memory/memory.js:152-155 | the push loop builds exactly Deck(n) |
| Memory.ShuffledDeck | puzzle-hub/public/memory/memory.js:152-156 | after the Fisher-Yates shuffle the deck still holds every value 1..n exactly twice |
| Memory.Values | puzzle-hub/public/memory/memory.js:153 | the card values are exactly 1..n |
| Memory.ValuesCard | puzzle-hub/public/memory/memory.js:153 | there are n card values |
| Memory.IndicesCount | puzzle-hub/public/memory/memory.js:158-164 | a value has as many card positions as copies in the deck |
| Memory.PairIsWhole | puzzle-hub/public/memory/memory.js:191-197 | two distinct cards of equal value are the only cards of that value |
| Memory.SetOf | puzzle-hub/public/memory/memory.js:197 | the set of matched values holds exactly the entries of matchedPairs |
| Memory.DistinctCard | puzzle-hub/public/memory/memory.js:197 | matchedPairs without repeats has as many values as entries |
| Memory.DisplayWinner | puzzle-hub/public/memory/memory.js:222-236 | a tie exactly when the scores are equal; otherwise player 1 or 2 wins, the one with more pairs |
| Memory.WinnerHasMajority | puzzle-hub/public/memory/memory.js:200-201 | when all pairs are taken the winner holds more than half, and a tie needs an even number of pairs |
| Memory.MatchStep | puzzle-hub/public/memory/memory.js:193-197 | matching two unmatched equal cards adds a new value to matchedPairs and exactly those two cards to the matched ones |
| Memory.PairsWithinValues | puzzle-hub/public/memory/memory.js:197 | every matched pair is a distinct value of the deck |
| Memory.AllPairsMatchAll | puzzle-hub/public/memory/memory.js:200 | n matched pairs means every card is matched |
| Memory.AllMatchedAllPairs | puzzle-hub/public/memory/memory.js:200 | every card matched means n matched pairs |
| Memory.EndsWhenAllMatched | puzzle-hub/public/memory/memory.js:200-203 | the end test matchedPairs.length === numPairs holds exactly when every card is matched |
| Memory.Game.constructor | puzzle-hub/public/memory/memory.js:28-34 | the first load: four pairs, a fresh shuffled deck, nothing played |
| Memory.Game.UpdatePairCount | puzzle-hub/public/memory/memory.js:129-134 | only an integer 2..10 becomes the pair count; NaN or anything else keeps it; the game in play is untouched: deck, turned cards, matches, scores, turn, attempt count and message |
| Memory.Game.StartGame | puzzle-hub/public/memory/memory.js:139-165 | scores 0 and 0, player 1, nothing matched or turned, the board unlocked, and a shuffled deck of numPairs pairs |
| Memory.Game.FreshDeal | puzzle-hub/public/memory/memory.js:140-146 | a fresh deal has nothing matched, no card turned, and scores summing to 0 |
| Memory.Game.FlipCard | puzzle-hub/public/memory/memory.js:170-183 | ignored while locked, on a matched card or on the first card, with nothing changed (attempt count and message included); otherwise the card becomes the first card with nothing else changed, or the second card and checkMatch settles the pair |
| Memory.Game.CheckMatch | puzzle-hub/public/memory/memory.js:188-217 | the board locks; equal values score one for the player, join matchedPairs and keep the turn, then either the winner is shown with the board left locked or the cards are cleared; different values wait to be turned back with everything else, the message included, unchanged |
| Memory.Game.KeepPair | puzzle-hub/public/memory/memory.js:193-205 | the matched branch: the winner shown once every pair is found, otherwise the turned cards cleared and the board unlocked |
| Memory.Game.ScoreStep | puzzle-hub/public/memory/memory.js:196-197 | one point keeps the two scores summing to the pairs found |
| Memory.Game.FlipBack | puzzle-hub/public/memory/memory.js:207-215 | after a mismatch the cards turn back, the turn passes to the other player and the board unlocks; scores and matches stay |

## Left out

- Rendering, DOM building, event wiring, `toggleView`, `back()` (a fetch POST plus navigation) and every other page (the server, login, the lobby): these are I/O.
- `loadGameFromData` in every game (parsing a saved JSON blob). The exception is the Wordle rule that resumes at the first all-blank row (`WordleGame.FirstBlankRow`).
- Loading the word lists and the crossword puzzles with fetch. The lists are parameters.
- `Math.random`: `Common.Random` promises only that a draw `Math.floor(Math.random() * n)` is below `n`. Shuffles are proved to rearrange, and nothing is said about distributions.
- `setTimeout` in the memory game: the turn-back after a mismatch is its own step, `Memory.Game.FlipBack`.
- Memory.Game.FlipBack: requires the mismatch state, so it does not model the pending turn-back firing after a new game (memory.js:139-143 clear `firstCard`/`secondCard`, and the callback at 207-211 then throws on `null`, or first blanks a card flipped since); that interleaving ends in an exception before it touches `currentPlayer`, so the game's variables stay as the new game and later clicks set them; only the shown text of such a card is lost, which is display.
- Minesweeper's `Math.floor(size * size * 0.15)` is computed exactly in integers, as `size * size * 15 / 100`. For sizes 5..20 this equals the floating-point result.
- Hanoi's `|| Infinity` sentinel for an empty tower is `Hanoi.Top` returning `None`. Disk sizes arrive already parsed, so the `parseInt` of the drag data is not modelled.
- Empty cells are values of the model's own types: `null` in tic-tac-toe is `Empty`, and the 15-puzzle's `null` blank is 0. Memory card values are numbers rather than the `dataset` strings the page compares.
- String case: `toUpperCase` / `toLowerCase` are modelled on ASCII letters only.
- The cost of `buildWordGraph` and of the backtracking searches is not modelled.
- The `30` that startGame passes to generatePuzzle is ignored by the function, and so by the model.
- Connect 4's `currentPlayer` and board restored from a saved game are not modelled, as with every `loadGameFromData`.
- Minesweeper.Game.GenerateBoard: the source draws until `mineCount` mines are placed. With the random stand-in the model stops after `tries` draws, so it promises at most `mineCount` mines (exactly as many as it reports placing), not exactly `mineCount`.
- Minesweeper.Game.StartGame: it calls GenerateBoard, so it too promises at most `mineCount` mines rather than exactly `mineCount`.
- Minesweeper.Game.constructor: it calls StartGame, with the same bound on the mines.
- WeaverGame.ChooseWords: setupBoard's do/while draws start and end words until they differ and a ladder joins them, without bound. The model stops after `tries` draws and may report that no pair was found.
- WeaverGame.Weaver.SetupBoard: for the same reason, it may report failure where the source would keep drawing.

## Findings

| source | as written | input that shows it | evidently intended | confidence | as-written member | corrected member |
|---|---|---|---|---|---|---|
| puzzle-hub/public/sudoku/sudoku-solver.js:69-78 | assignNakedSingles writes every cell whose list has one candidate, using the lists computed before the pass, and never checks the cells written earlier in the same pass | a typed grid in which cells (0, 0) and (0, 1) are empty and each sees every digit except 5 in its column (for example column 0 holding 1, 2, 3, 4, 6, 7, 8, 9 and column 1 holding 4, 6, 7, 8, 9, 1, 2, 3 in rows 1..8): both list only 5, and both are written with 5 in the same row | write a single only while the digit is still safe in its row, column and box | not executed | SudokuPasses.NakedAsWrittenBreaksConsistency | SudokuPasses.NakedRunSpec |
| puzzle-hub/public/sudoku/sudoku-solver.js:83-130 | assignHiddenSingles reads candidate lists that are not updated after a digit is written in the same pass, so a later unit can place the same digit again | a typed grid whose row 0 is 0, 1, 2, 0, 3, 4, 6, 7, 8 with a 9 at (4, 0) and every other cell empty: updateCandidates lists [5] at (0, 0) and [5, 9] at (0, 3); the naked pass writes 5 at (0, 0); (0, 3) still lists 5 and is the only cell of row 0 that does, so the hidden pass writes a second 5 into row 0 | write a hidden single only while the digit is still safe | not executed | SudokuHidden.HiddenAsWrittenBreaksConsistency | SudokuHidden.HiddenRunSpec |
| puzzle-hub/public/hanoi/hanoi.js:97-111 | startGame rebuilds the towers but leaves `draggedDisk` set, and only handleDrop clears it, so a disk dragged and released off the towers stays the drag into the new game | with two disks, move disk 1 to the second tower, drag disk 2 off the first and release it elsewhere, start a new two-disk game, then drop dragged page text on the third tower: disk 1 is popped from the first tower and a second disk 2 pushed, giving [[2], [], [2]] | a new game cancels the drag in progress | not executed | Hanoi.StaleDropBreaksDisks | Hanoi.Game.StartGame |
| puzzle-hub/public/connect4/connect4.js:243-246 | resetGame sets player 1 and clears the board but leaves `finished` as it was | finish a game, press reset, click column 3: handleMove returns at once and no disc lands | reset starts a fresh game, with `finished` false as init sets it | not executed | Connect4.Game.ReplayAfterFinishAsWritten | Connect4.Game.ReplayAfterFinish |
