/**
 Carving a puzzle out of a complete grid: visit the 81 positions in
 shuffled order and empty each one in turn, keeping the removal only when
 the counter still reports exactly one completion, until 45 removals have
 been kept.
 */
module Carver {
  import opened SudokuTypes
  import opened Backtrack
  import opened Generator

  /** The most removals the carver keeps; about 36 clues stay. */
  const MaxCellsToRemove: int := 45

  /** All 81 positions, row by row. */
  function AllPositions(): (ps: seq<Pos>)
    ensures |ps| == 81
    ensures forall k :: 0 <= k < 81 ==> ps[k] == Pos(k / 9, k % 9)
  {
    seq(81, k requires 0 <= k < 81 => Pos(k / 9, k % 9))
  }

  /** Every entry of a rearrangement of all positions lies on the board. */
  lemma ShuffledPositionsValid(ps: seq<Pos>)
    requires multiset(ps) == multiset(AllPositions())
    ensures forall k :: 0 <= k < |ps| ==> ValidPos(ps[k])
  {
    forall k | 0 <= k < |ps|
      ensures ValidPos(ps[k])
    {
      assert ps[k] in multiset(ps);
      assert ps[k] in AllPositions();
      var j :| 0 <= j < 81 && AllPositions()[j] == ps[k];
      RowMajorCell(j);
    }
  }

  /** The 81 positions in the shuffled order the carver visits them. */
  method ShuffledPositions(choices: seq<int>) returns (ps: seq<Pos>)
    requires ValidChoices(choices, 81)
    ensures multiset(ps) == multiset(AllPositions())
    ensures forall k :: 0 <= k < |ps| ==> ValidPos(ps[k])
  {
    ps := Shuffle(AllPositions(), choices);
    ShuffledPositionsValid(ps);
  }

  /** The cells that hold a number in `completed` and are empty in `puzzle`. */
  function Emptied(completed: Grid, puzzle: Grid): set<Pos>
    requires IsGrid(completed) && IsGrid(puzzle)
  {
    set r, c | 0 <= r < 9 && 0 <= c < 9 && completed[r][c].Some? && puzzle[r][c].None? :: Pos(r, c)
  }

  /** Every number in `puzzle` is the number at the same cell of `completed`. */
  ghost predicate CluesAgree(puzzle: Grid, completed: Grid)
    requires IsGrid(puzzle) && IsGrid(completed)
  {
    forall r, c :: InBoard(r, c) && puzzle[r][c].Some? ==> puzzle[r][c] == completed[r][c]
  }

  /** Emptying a cell keeps the remaining clues in agreement. */
  lemma ClearKeepsClues(puzzle: Grid, completed: Grid, p: Pos)
    requires IsGrid(puzzle) && IsGrid(completed) && ValidPos(p) && CluesAgree(puzzle, completed)
    ensures CluesAgree(Put(puzzle, p.row, p.col, None), completed)
  {
  }

  /** A subset is no larger than its superset. */
  lemma {:induction false} SubsetSize<T>(a: set<T>, b: set<T>)
    requires a <= b
    ensures |a| <= |b|
    decreases |b|
  {
    if a != {} {
      var x :| x in a;
      SubsetSize(a - {x}, b - {x});
    }
  }

  /** Clearing one more cell empties at most that cell beyond what was emptied before. */
  lemma EmptiedAfterClear(completed: Grid, puzzle: Grid, p: Pos)
    requires IsGrid(completed) && IsGrid(puzzle) && ValidPos(p)
    ensures Emptied(completed, Put(puzzle, p.row, p.col, None)) <= Emptied(completed, puzzle) + {p}
  {
    var after := Put(puzzle, p.row, p.col, None);
    forall q | q in Emptied(completed, after)
      ensures q in Emptied(completed, puzzle) + {p}
    {
    }
  }

  /**
   Remove cells from a complete grid in the order given by the shuffled
   positions. `choices` are the Fisher-Yates draws for shuffling the 81
   positions. Every clue left agrees with the input; at most 45 cells are
   emptied; and unless nothing was removed, the counter reports exactly one
   completion for the result. Carved from a legal complete sudoku, the
   puzzle has that sudoku as its only completion.
   */
  method CreatePuzzle(completed: Grid, choices: seq<int>) returns (puzzle: Grid)
    requires IsGrid(completed) && ValidChoices(choices, 81)
    ensures IsGrid(puzzle)
    ensures CluesAgree(puzzle, completed)
    ensures |Emptied(completed, puzzle)| <= MaxCellsToRemove
    ensures puzzle == completed || CountSolutions(puzzle) == 1
    ensures IsSolvedSudoku(completed) ==> UniquelySolvable(puzzle) && IsCompletion(puzzle, completed)
  {
    puzzle := CopyGrid(completed);
    var positions := ShuffledPositions(choices);
    var cellsRemoved := 0;
    ghost var kept: set<Pos> := {};
    var i := 0;
    while i < |positions|
      invariant 0 <= i <= |positions|
      invariant IsGrid(puzzle)
      invariant 0 <= cellsRemoved <= MaxCellsToRemove
      invariant CluesAgree(puzzle, completed)
      invariant cellsRemoved == 0 ==> puzzle == completed
      invariant cellsRemoved > 0 ==> CountSolutions(puzzle) == 1
      invariant Emptied(completed, puzzle) <= kept
      invariant |kept| <= cellsRemoved
    {
      if cellsRemoved >= MaxCellsToRemove {
        break;
      }
      var pos := positions[i];
      var before := puzzle;
      var originalValue := puzzle[pos.row][pos.col];
      puzzle := Put(puzzle, pos.row, pos.col, None);
      ClearKeepsClues(before, completed, pos);
      if CountSolutions(puzzle) == 1 {
        EmptiedAfterClear(completed, before, pos);
        SubsetSize(Emptied(completed, puzzle), kept + {pos});
        kept := kept + {pos};
        cellsRemoved := cellsRemoved + 1;
      } else {
        PutRestores(before, pos.row, pos.col, None);
        puzzle := Put(puzzle, pos.row, pos.col, originalValue);
      }
      i := i + 1;
    }
    SubsetSize(Emptied(completed, puzzle), kept);
    if IsSolvedSudoku(completed) {
      CarvedFromSolvedIsUnique(completed, puzzle);
    }
  }

  /**
   Carving a legal complete sudoku: the puzzle has exactly one completion,
   and it is the sudoku the puzzle was carved from.
   */
  lemma CarvedFromSolvedIsUnique(completed: Grid, puzzle: Grid)
    requires IsGrid(completed) && IsGrid(puzzle) && IsSolvedSudoku(completed)
    requires CluesAgree(puzzle, completed)
    requires puzzle == completed || CountSolutions(puzzle) == 1
    ensures UniquelySolvable(puzzle) && IsCompletion(puzzle, completed)
  {
    CountSolutionsMeaning(puzzle);
    SolvedCompletesItsClues(puzzle, completed);
  }

  /**
   The whole generator: a complete grid from the diagonal seed, then a
   puzzle carved from it. The complete grid is returned alongside, for the
   contract only. Whenever that grid is a legal sudoku (that is, whenever
   the seed could be completed), the puzzle's only completion is that grid.
   */
  method GenerateSudokuPuzzle(draws: seq<seq<int>>, choices: seq<int>) returns (puzzle: Grid, ghost solution: Grid)
    requires ValidDraws(draws) && ValidChoices(choices, 81)
    ensures IsGrid(puzzle) && IsGrid(solution)
    ensures CluesAgree(puzzle, solution)
    ensures IsSolvedSudoku(solution) ==> UniquelySolvable(puzzle) && IsCompletion(puzzle, solution)
    ensures puzzle == solution || CountSolutions(puzzle) == 1
  {
    var completed, seed := GenerateCompleteSudoku(draws);
    puzzle := CreatePuzzle(completed, choices);
    solution := completed;
  }
}
