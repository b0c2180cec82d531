# Sudoku generator and step-wise solver, modelled in Dafny

This project models the engine of a sudoku web application. The engine has two halves.

**The bare-grid engine** works on 9x9 grids of digits or blanks. Its parts are:

- the placement check for row, column and box;
- the backtracking completer, `solveSudoku`;
- the completion counter, `countSolutionsRecursive`, which stops early;
- the generator, which seeds the three diagonal boxes with shuffled digits and then runs the completer;
- the carver, which empties up to 45 cells in shuffled order and keeps a removal only while the counter still reports exactly one completion;
- the conversions between bare grids and annotated grids;
- the small per-cell edits behind the pencil and reveal buttons.

**The step-wise solver** works on annotated cells. Each cell holds a value, a set of pencil marks, a hidden answer and a show-answer flag. One call applies one strategy, chosen by the step number modulo 6:

- 0 and 3: mark pencils;
- 1 and 4: strike naked pairs in rows;
- 2: turn single marks into answers;
- 5: promote hidden singles in boxes.

Every operation is a pure function or a method over immutable sequences:

- A bare grid is `seq<seq<Option<int>>>`.
- An annotated grid is `seq<seq<Cell>>`, and pencil marks are `set<int>`.
- The application's in-place writes are modelled by returning the new grid.

Each operation has a partner that its lemmas relate it to:

- **Completer and counter.** Both are related to one reference list, `Completions`: every grid the search can reach, in the order it reaches them. `IsCompletion` states independently which grids those are.
- **Marking.** The in-place, row-major marking loop is proved equal to a cell-wise map. That map is characterised in terms of the digits a cell "sees" in its row, column and box.
- **Hidden singles.** Each box's tally-and-promote pass is proved to promote exactly the digits that only one unresolved cell of the box carries. When one cell is the sole holder of several digits, the largest wins, because JavaScript's integer-key order visits it last.
- **Naked pairs.** The pair scan is proved to return exactly the pencil pairs that occur twice in the row.

Modules, one per file:

- `SudokuTypes` (types.dfy): the data model, board geometry and the single-cell grid update.
- `Placement`, `Backtrack`, `Generator`, `Carver`: the bare-grid engine.
- `PencilCells`: the annotated-cell helpers.
- `CellState`, `IntSets`, `Marking`, `Singles`, `Pairs`, `StepSolver`: the step-wise solver.

Randomness (`Math.random`) is a parameter. A shuffle takes a list of Fisher-Yates draws, where draw `i` lies in `0..i`. Every contract about a shuffled result holds for all valid draws.

The step number is dispatched with JavaScript's `%`, which truncates toward zero. A negative step number that is not a multiple of 6 therefore selects no strategy and returns the grid unchanged. The code uses `CYCLE_SIZE = 6` with the assignment above, and the model follows the code.

## Model

| member | source | states |
|---|---|---|
| SudokuTypes.EmptyGrid | src/lib/sudokuUtils.ts:4-6 | the new grid is 9x9 and every cell is blank |
| SudokuTypes.PutRestores | src/lib/sudokuUtils.ts:39-43 | writing a digit and then writing back the old content restores the grid exactly (the completer's and carver's undo) |
| Placement.IsValidPlacementMeaning | src/lib/sudokuUtils.ts:9-30 | a digit is admitted at a cell exactly when no cell in the same row, column or 3x3 box holds it |
| Backtrack.CompletionsExact | src/lib/sudokuUtils.ts:33-51 | the search order lists exactly the completions: full grids keeping every given number, each written digit distinct from its row, column and box peers |
| Backtrack.CompletionDigitIsValid | src/lib/sudokuUtils.ts:36-46 | whatever a completion holds at an empty cell is a digit 1..9 that passes the placement check there |
| Backtrack.SolveSudoku | src/lib/sudokuUtils.ts:33-51 | the completer reports success exactly when the completion list is non-empty and then returns its first entry; on failure every tentative write is undone and the grid comes back unchanged |
| Backtrack.SolveSudokuCorrect | src/lib/sudokuUtils.ts:33-51 | success if and only if some completion exists; a successful result is a full completion, and a legal sudoku when the input had no conflicting clues |
| Backtrack.CountSolutionsRecursive | src/lib/sudokuUtils.ts:100-120 | the early-stopping count agrees with the number of completions whenever that number is 0 or 1, and is at least 2 exactly when there are at least 2 |
| Backtrack.CopyGrid | src/lib/sudokuUtils.ts:166-168 | the copy equals the grid |
| Backtrack.CountSolutions | src/lib/sudokuUtils.ts:95-98 | counting on a copy gives the same capped count as counting the grid |
| Backtrack.CountSolutionsMeaning | src/lib/sudokuUtils.ts:95-120 | the count is 0 exactly when there is no completion, 1 exactly when the completion is unique, 2 or more exactly when two different completions exist; a full grid counts 1 |
| Backtrack.DeadCellCountsZero | src/lib/sudokuUtils.ts:103-115 | an empty cell at which no digit passes the placement check makes the count 0 |
| Generator.Shuffle | src/lib/sudokuUtils.ts:87-92 | Fisher-Yates yields a rearrangement of the input, for any valid draws |
| Generator.PermutationOfDigits | src/lib/sudokuUtils.ts:75-76 | a rearrangement of 1..9 holds nine different digits, each in 1..9 |
| Generator.FillBox | src/lib/sudokuUtils.ts:74-84 | the box then holds each digit 1..9 exactly once, read row by row; no cell outside the box changes |
| Generator.FillDiagonalBoxes | src/lib/sudokuUtils.ts:67-71 | the boxes at (0,0), (3,3) and (6,6) each hold a permutation of 1..9; no other cell changes |
| Generator.SeededGridConsistent | src/lib/sudokuUtils.ts:57-58 | a grid seeded only in the diagonal boxes breaks no row, column or box rule |
| Generator.CompleteLegalPartial | src/lib/sudokuUtils.ts:60-63 | completing a legal, non-full seed keeps every seeded digit, and gives a legal complete sudoku exactly when the seed can be completed; otherwise it returns the seed |
| Generator.GenerateCompleteSudoku | src/lib/sudokuUtils.ts:54-64 | the seed is legal with the diagonal boxes filled and nothing elsewhere; the result keeps the seed and is a legal complete sudoku exactly when the seed is completable |
| Carver.ShuffledPositions | src/lib/sudokuUtils.ts:125-135 | the visiting order is a rearrangement of all 81 positions |
| Carver.CreatePuzzle | src/lib/sudokuUtils.ts:123-157 | every remaining clue agrees with the complete grid; at most 45 cells are emptied; unless nothing was removed the counter reports exactly one completion; carved from a legal complete sudoku, that sudoku is the puzzle's only completion |
| Carver.CarvedFromSolvedIsUnique | src/lib/sudokuUtils.ts:141-156 | a puzzle whose clues agree with a legal complete sudoku and which counts one completion (or is that sudoku) has exactly that sudoku as its only completion |
| Carver.GenerateSudokuPuzzle | src/lib/sudokuUtils.ts:160-163 | the puzzle agrees with the generated grid and, when that grid is a legal sudoku, has it as its unique completion |
| PencilCells.EmptyGridWithPencils | src/lib/sudokuUtils.ts:171-180 | a 9x9 annotated grid whose every cell is blank with no marks, no answer and the answer hidden |
| PencilCells.ConvertToGridWithPencils | src/lib/sudokuUtils.ts:183-192 | same shape as the bare grid; each cell's value is the bare number, with no marks and no answer |
| PencilCells.ConvertToRegularGrid | src/lib/sudokuUtils.ts:195-197 | same shape; each number is the cell's value |
| PencilCells.RegularOfAnnotated | src/lib/sudokuUtils.ts:183-197 | annotating and then stripping gives back the bare grid |
| PencilCells.AnnotatedOfRegular | src/lib/sudokuUtils.ts:183-197 | stripping and re-annotating gives back the annotated grid exactly when it carries nothing but values |
| PencilCells.ConvertToGridWithPencilsAndAnswers | src/lib/sudokuUtils.ts:230-239 | each cell keeps the puzzle's number as its value and the solution's number at the same cell as its hidden answer |
| PencilCells.AnsweredGridProjections | src/lib/sudokuUtils.ts:230-239 | the answered grid strips back to the puzzle; with a blank solution it is the plain annotation |
| PencilCells.TogglePencilMark | src/lib/sudokuUtils.ts:200-211 | the mark set changes in exactly the toggled number; value, answer and flag are kept |
| PencilCells.TogglePencilMarkInvolution | src/lib/sudokuUtils.ts:200-211 | toggling the same number twice restores the cell; toggles of two numbers commute |
| PencilCells.SetAllPencilMarks | src/lib/sudokuUtils.ts:214-219 | the marks become exactly 1..9; everything else is kept |
| PencilCells.ClearPencilMarks | src/lib/sudokuUtils.ts:222-227 | the marks become empty; everything else is kept |
| PencilCells.PencilResetsOverride | src/lib/sudokuUtils.ts:214-227 | each reset is idempotent and the later of set-all and clear wins |
| PencilCells.ToggleAnswerDisplay | src/lib/sudokuUtils.ts:242-247 | the show-answer flag flips; everything else is kept |
| PencilCells.ToggleAnswerDisplayInvolution | src/lib/sudokuUtils.ts:242-247 | flipping twice restores the cell |
| CellState.GetCellValue | src/lib/solver.ts:99-108 | a cell reads as a digit exactly when it has a value, or has an answer that is shown; a value takes precedence over the answer, and a cell with no value but a shown answer reads as that answer |
| CellState.PromotedResolves | src/lib/solver.ts:117-124 | an unresolved cell reads blank; a promoted blank cell reads as the promoted digit; promoting twice is promoting with the later digit |
| Marking.RowNumbers | src/lib/solver.ts:77-86 | a number is collected exactly when some cell of the row reads as it |
| Marking.ColNumbers | src/lib/solver.ts:88-97 | a number is collected exactly when some cell of the column reads as it |
| Marking.BoxNumbers | src/lib/solver.ts:60-75 | a number is collected exactly when some cell of the cell's 3x3 box reads as it |
| Marking.UnitNumbersMeaning | src/lib/solver.ts:44-51 | the union of the three scans is exactly the set of numbers some cell in the same row, column or box reads as |
| Marking.MarkPencilForCell | src/lib/solver.ts:39-58 | a cell with a value is returned as it is; otherwise value and answer are kept, the answer is hidden, and the marks are 1..9 minus the three scans |
| Marking.MarkPencilForCellMeaning | src/lib/solver.ts:39-58 | the new marks are exactly the digits 1..9 that no cell in the same row, column or box reads as |
| Marking.ShouldMarkMeaning | src/lib/solver.ts:29-31 | the marking loop visits a cell exactly when the cell reads blank |
| Marking.MarkedCellMeaning | src/lib/solver.ts:25-58 | a cell that reads as a digit is untouched; any other cell gets exactly the digits its row, column and box do not read, with the answer hidden |
| Marking.MarkAllPreservesResolved | src/lib/solver.ts:25-37 | marking changes no cell's reading, so later cells see the same numbers as earlier ones |
| Marking.MarkAllIdempotent | src/lib/solver.ts:25-37 | marking a marked grid changes nothing |
| Marking.MarkAllCellsWithPencils | src/lib/solver.ts:25-37 | the in-place, row-major loop, reading cells it has already rewritten, ends with the same grid as marking every cell against the input grid |
| Singles.ConvertedCell | src/lib/solver.ts:115-125 | a blank cell with exactly one mark d becomes the cell with answer d shown and no marks; any other cell is unchanged |
| Singles.ConvertSinglesToAnswers | src/lib/solver.ts:111-129 | every cell is converted on its own |
| Singles.ConvertSinglesMeaning | src/lib/solver.ts:111-129 | a blank cell with the single mark d afterwards reads as d; no value changes; converting twice is converting once |
| Singles.BoxCells | src/lib/solver.ts:178-188 | the nine cells of the box, row by row |
| Singles.TallyUpTo | src/lib/solver.ts:145-160 | after the scan, each digit's count is the number of unresolved box cells carrying it, and its last position is the last such cell |
| Singles.TallySole | src/lib/solver.ts:145-165 | the digits whose count is 1 and whose last cell is cell i are exactly the digits that only cell i carries |
| Singles.PromoteDigitsMeaning | src/lib/solver.ts:163-174 | visiting the counted digits in ascending order promotes each cell to the largest digit it alone carries; cells outside the box are untouched |
| Singles.BoxPassMeaning | src/lib/solver.ts:143-176 | a box pass promotes each box cell by the digits only it carries and touches nothing outside the box |
| Singles.SpotCellMeaning | src/lib/solver.ts:143-176 | a digit is sole at a cell exactly when the cell is unresolved, carries it, and no other unresolved box cell does; the cell is promoted to the largest such digit, and is otherwise untouched |
| Singles.SpotSingleCandidates | src/lib/solver.ts:132-141 | after the pass over the nine boxes, every cell equals its own box's promotion computed on the input grid |
| Pairs.ScanPairs | src/lib/solver.ts:225-233 | after the scan, each key's count is the number of unresolved two-mark cells carrying exactly that pair, and every counted key is listed exactly once, in the order of its first carrier cell |
| Pairs.KeepTwice | src/lib/solver.ts:234-239 | the kept keys are exactly those counted twice, without repeats |
| Pairs.KeepTwiceInOrder | src/lib/solver.ts:234-239 | dropping keys keeps the remaining ones in order of first occurrence |
| Pairs.ScanPairsMeaning | src/lib/solver.ts:223-241 | a key is kept exactly when exactly two unresolved cells of the row carry that pair as their whole mark set; every such key has two digits |
| Pairs.GetPencilPairs | src/lib/solver.ts:223-241 | the result lists, without repeats, exactly the naked pairs of the row, in the order their first carrier cell appears |
| Pairs.FirstOrderUnique | src/lib/solver.ts:223-241 | two lists in first-occurrence order with the same members are equal |
| Pairs.GetPencilPairsDetermined | src/lib/solver.ts:223-241 | any list of exactly the row's naked pairs, in first-occurrence order, is the pair list |
| Pairs.StrikeCell | src/lib/solver.ts:200-211 | a resolved cell, or one whose marks are exactly the pair, is kept; any other cell loses both digits of the pair and nothing else |
| Pairs.StrikeWithMeaning | src/lib/solver.ts:199-212 | after striking one pair, every unresolved cell holds exactly that pair or none of its digits; striking again changes nothing |
| Pairs.StrikeRow | src/lib/solver.ts:196-213 | after all of a row's pairs, marks only shrink and only pair digits are struck, so a mark in no pair stays; resolved cells are kept, and so is a cell that each pair equals or avoids; every unresolved cell ends holding, for each pair, either no digit outside that pair or none of its digits |
| Pairs.StrikeOrderMatters | src/lib/solver.ts:196-213 | striking the same two pairs in opposite orders leaves a cell {3} one way and empty the other way, so the pair order is part of the behaviour |
| Pairs.StrikeRowOfPairs | src/lib/solver.ts:196-213 | with the row's own naked pairs: a mark in no naked pair stays, a cell each naked pair equals or avoids is kept, a row without a naked pair is untouched |
| Pairs.StrikePencilsUsingPairs | src/lib/solver.ts:190-217 | no value, answer or flag changes and marks only shrink; only digits of a row's naked pairs are struck, a cell each naked pair of its row equals or avoids is kept, a row without a naked pair is untouched; after the pass, every unresolved cell holds, for each naked pair of its row, either no digit outside that pair or none of its digits |
| StepSolver.JsRem | src/lib/solver.ts:6 | the remainder left by the quotient rounded toward zero: in 0..5 for a non-negative step, in -5..0 for a negative one |
| StepSolver.StrategySchedule | src/lib/solver.ts:4-23 | from step 0 the strategies repeat every 6 steps as mark, pairs, singles, mark, pairs, hidden singles; a negative step marks when it is a multiple of 6 and otherwise does nothing |
| StepSolver.MarkKeepsFilled | src/lib/solver.ts:29-41 | pencil marking keeps every value and leaves filled cells whole |
| StepSolver.SpotKeepsFilled | src/lib/solver.ts:150 | the hidden-single pass keeps every value and leaves filled cells whole |
| StepSolver.StepSolve | src/lib/solver.ts:4-23 | the step runs exactly the strategy its number selects, or returns the grid when none is selected; whichever runs, no value changes and no filled cell changes |

## Left out

- `Math.random` is not modelled. Shuffles take their draws as a parameter, and every property holds for all valid draws. Nothing is said about the distribution.
- Generator.GenerateCompleteSudoku: whether every diagonal seed can be completed is not proved. The contracts are conditional on it: the result is a legal sudoku exactly when the seed is completable.
- Carver.GenerateSudokuPuzzle: the uniqueness promise is likewise conditional on the generated grid being a legal sudoku.
- Backtrack.CountSolutionsRecursive: only the capped count is stated (0, 1, or at least 2). The exact value the early exit returns above 1 is not stated, because callers compare only with 1.
- Pairs.StrikePencilsUsingPairs: the application deletes marks from the Set objects it shares with the previous grid, so the caller's grid changes too. The model returns a new grid and leaves the input untouched.
- Pairs.GetPencilPairs: pair keys are sets in the model. The application joins a lexicographically sorted pair into a string key and parses it back. For digits 1..9 this is the same pair.
- Singles.PromoteDigitsMeaning: the ascending visiting order of the tally holds for JavaScript's integer-valued record keys. Keys that are not non-negative integers do not occur, because marks are digits 1..9.
- Singles.TallyUpTo: the tally records the index of the last cell within the box, not its row and column. The two are related by the box offsets.
- The `console.log` of each box in `spotAndMarkSingleCandidates` is I/O and is left out.
- StepSolver.StepSolve: the step number is an integer. Non-integer JavaScript numbers, which select no strategy, are not modelled.
- `importSudoku` and the UI components that call the engine are not part of this model.
- Running time and the recursion depth of the backtracking are not modelled.
