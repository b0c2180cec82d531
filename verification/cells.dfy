/**
 The annotated-cell helpers of the bare-grid engine: converting between bare
 and annotated grids, and the small per-cell edits behind the pencil and
 reveal buttons. Every edit returns a new cell; the one it was given is
 never changed.
 */
module PencilCells {
  import opened SudokuTypes

  /** A fresh annotated cell holding `v`: no marks, no answer, answer hidden. */
  function FreshCell(v: Digit): (cell: Cell)
    ensures cell.value == v && cell.pencils == {} && cell.answer.None? && !cell.showAnswer
  {
    Cell(v, {}, None, false)
  }

  /** `h` has exactly the shape of `g`: as many rows, each as long. */
  predicate SameShape<S, T>(g: seq<seq<S>>, h: seq<seq<T>>) {
    |h| == |g| && forall r :: 0 <= r < |g| ==> |h[r]| == |g[r]|
  }

  /** The empty 9x9 annotated grid. */
  function EmptyGridWithPencils(): (pg: PencilGrid)
    ensures IsGrid(pg)
    ensures forall r, c :: InBoard(r, c) ==> pg[r][c] == Cell(None, {}, None, false)
  {
    seq(9, r => seq(9, c => FreshCell(None)))
  }

  /** Annotate a bare grid: each number becomes a cell's value, with no marks and no answer. */
  function ConvertToGridWithPencils(g: Grid): (pg: PencilGrid)
    ensures SameShape(g, pg)
    ensures forall r, c :: 0 <= r < |g| && 0 <= c < |g[r]| ==>
              pg[r][c].value == g[r][c] && pg[r][c].pencils == {} && pg[r][c].answer.None? && !pg[r][c].showAnswer
  {
    seq(|g|, r requires 0 <= r < |g| => seq(|g[r]|, c requires 0 <= c < |g[r]| => FreshCell(g[r][c])))
  }

  /** Strip an annotated grid down to its values. */
  function ConvertToRegularGrid(pg: PencilGrid): (g: Grid)
    ensures SameShape(pg, g)
    ensures forall r, c :: 0 <= r < |pg| && 0 <= c < |pg[r]| ==> g[r][c] == pg[r][c].value
  {
    seq(|pg|, r requires 0 <= r < |pg| => seq(|pg[r]|, c requires 0 <= c < |pg[r]| => pg[r][c].value))
  }

  /** Two grids of the same shape that agree cell by cell are equal. */
  lemma ShapeExtensionality<T>(g: seq<seq<T>>, h: seq<seq<T>>)
    requires SameShape(g, h)
    requires forall r, c :: 0 <= r < |g| && 0 <= c < |g[r]| ==> g[r][c] == h[r][c]
    ensures g == h
  {
    forall r | 0 <= r < |g|
      ensures g[r] == h[r]
    {
      assert forall c :: 0 <= c < |g[r]| ==> g[r][c] == h[r][c];
    }
  }

  /** Annotating and then stripping gives the bare grid back. */
  lemma RegularOfAnnotated(g: Grid)
    ensures ConvertToRegularGrid(ConvertToGridWithPencils(g)) == g
  {
    ShapeExtensionality(ConvertToRegularGrid(ConvertToGridWithPencils(g)), g);
  }

  /** An annotated grid whose cells carry nothing but values. */
  predicate Unannotated(pg: PencilGrid) {
    forall r, c :: 0 <= r < |pg| && 0 <= c < |pg[r]| ==> pg[r][c] == FreshCell(pg[r][c].value)
  }

  /** Stripping and re-annotating gives back exactly the grids that carry nothing but values. */
  lemma AnnotatedOfRegular(pg: PencilGrid)
    ensures ConvertToGridWithPencils(ConvertToRegularGrid(pg)) == pg <==> Unannotated(pg)
  {
    var back := ConvertToGridWithPencils(ConvertToRegularGrid(pg));
    if Unannotated(pg) {
      ShapeExtensionality(back, pg);
    } else {
      var r, c :| 0 <= r < |pg| && 0 <= c < |pg[r]| && pg[r][c] != FreshCell(pg[r][c].value);
      assert back[r][c] != pg[r][c];
    }
  }

  /** `solution` has a cell at every position where `puzzle` has one. */
  predicate Covers<S, T>(solution: seq<seq<S>>, puzzle: seq<seq<T>>) {
    |puzzle| <= |solution| && forall r :: 0 <= r < |puzzle| ==> |puzzle[r]| <= |solution[r]|
  }

  /** Annotate a puzzle with the solution's number at each cell as its hidden answer. */
  function ConvertToGridWithPencilsAndAnswers(puzzle: Grid, solution: Grid): (pg: PencilGrid)
    requires Covers(solution, puzzle)
    ensures SameShape(puzzle, pg)
    ensures forall r, c :: 0 <= r < |puzzle| && 0 <= c < |puzzle[r]| ==>
              && pg[r][c].value == puzzle[r][c]
              && pg[r][c].answer == solution[r][c]
              && pg[r][c].pencils == {}
              && !pg[r][c].showAnswer
  {
    seq(|puzzle|, r requires 0 <= r < |puzzle| =>
      seq(|puzzle[r]|, c requires 0 <= c < |puzzle[r]| => Cell(puzzle[r][c], {}, solution[r][c], false)))
  }

  /**
   The answered grid strips back to the puzzle; with the empty grid as the
   solution (no answers) it is the plain annotation.
   */
  lemma AnsweredGridProjections(puzzle: Grid, solution: Grid)
    requires Covers(solution, puzzle)
    ensures ConvertToRegularGrid(ConvertToGridWithPencilsAndAnswers(puzzle, solution)) == puzzle
    ensures IsGrid(puzzle) ==>
              ConvertToGridWithPencilsAndAnswers(puzzle, EmptyGrid()) == ConvertToGridWithPencils(puzzle)
  {
    ShapeExtensionality(ConvertToRegularGrid(ConvertToGridWithPencilsAndAnswers(puzzle, solution)), puzzle);
    if IsGrid(puzzle) {
      ShapeExtensionality(ConvertToGridWithPencilsAndAnswers(puzzle, EmptyGrid()), ConvertToGridWithPencils(puzzle));
    }
  }

  /** Flip whether `n` is a pencil mark of the cell; nothing else about the cell changes. */
  function TogglePencilMark(cell: Cell, n: int): (r: Cell)
    ensures forall d :: d in r.pencils <==> (if d == n then d !in cell.pencils else d in cell.pencils)
    ensures r.value == cell.value && r.answer == cell.answer && r.showAnswer == cell.showAnswer
  {
    if n in cell.pencils then cell.(pencils := cell.pencils - {n})
    else cell.(pencils := cell.pencils + {n})
  }

  /** Toggling the same mark twice restores the cell; toggles of two marks commute. */
  lemma TogglePencilMarkInvolution(cell: Cell, n: int, m: int)
    ensures TogglePencilMark(TogglePencilMark(cell, n), n) == cell
    ensures TogglePencilMark(TogglePencilMark(cell, n), m) == TogglePencilMark(TogglePencilMark(cell, m), n)
  {
    assert TogglePencilMark(TogglePencilMark(cell, n), n).pencils == cell.pencils;
    assert TogglePencilMark(TogglePencilMark(cell, n), m).pencils == TogglePencilMark(TogglePencilMark(cell, m), n).pencils;
  }

  /** Mark every digit 1..9 as a candidate; nothing else about the cell changes. */
  function SetAllPencilMarks(cell: Cell): (r: Cell)
    ensures r.pencils == AllDigits
    ensures r.value == cell.value && r.answer == cell.answer && r.showAnswer == cell.showAnswer
  {
    cell.(pencils := {1, 2, 3, 4, 5, 6, 7, 8, 9})
  }

  /** Remove every pencil mark; nothing else about the cell changes. */
  function ClearPencilMarks(cell: Cell): (r: Cell)
    ensures r.pencils == {}
    ensures r.value == cell.value && r.answer == cell.answer && r.showAnswer == cell.showAnswer
  {
    cell.(pencils := {})
  }

  /**
   Setting or clearing all marks forgets whatever marks the cell had:
   each is idempotent, and the later of the two wins.
   */
  lemma PencilResetsOverride(cell: Cell)
    ensures SetAllPencilMarks(SetAllPencilMarks(cell)) == SetAllPencilMarks(cell)
    ensures ClearPencilMarks(ClearPencilMarks(cell)) == ClearPencilMarks(cell)
    ensures ClearPencilMarks(SetAllPencilMarks(cell)) == ClearPencilMarks(cell)
    ensures SetAllPencilMarks(ClearPencilMarks(cell)) == SetAllPencilMarks(cell)
  {
  }

  /** Flip whether the cell's answer is shown; nothing else about the cell changes. */
  function ToggleAnswerDisplay(cell: Cell): (r: Cell)
    ensures r.showAnswer != cell.showAnswer
    ensures r.value == cell.value && r.answer == cell.answer && r.pencils == cell.pencils
  {
    cell.(showAnswer := !cell.showAnswer)
  }

  /** Toggling the answer display twice restores the cell. */
  lemma ToggleAnswerDisplayInvolution(cell: Cell)
    ensures ToggleAnswerDisplay(ToggleAnswerDisplay(cell)) == cell
  {
  }
}
