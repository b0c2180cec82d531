/**
 What the step-wise solver reads off an annotated cell: the digit it counts
 as resolved (its committed value, or its answer once that is shown), and
 whether a strategy may still work on it.
 */
module CellState {
  import opened SudokuTypes

  /**
   The digit the solver treats as occupying the cell: the committed value
   when there is one, otherwise the answer when it is both present and
   shown, otherwise nothing.
   */
  function ResolvedDigit(cell: Cell): (d: Digit)
    ensures d.Some? <==> cell.value.Some? || (cell.answer.Some? && cell.showAnswer)
    ensures d.Some? ==> d == cell.value || d == cell.answer
    ensures cell.value.Some? ==> d == cell.value
  {
    if cell.value.Some? then cell.value
    else if cell.answer.Some? && cell.showAnswer then cell.answer
    else None
  }

  /** The resolved digit at (row, col) of an annotated grid. */
  function GetCellValue(grid: PencilGrid, row: int, col: int): (d: Digit)
    requires IsGrid(grid) && InBoard(row, col)
    ensures d.Some? <==> grid[row][col].value.Some? || (grid[row][col].answer.Some? && grid[row][col].showAnswer)
    ensures grid[row][col].value.Some? ==> d == grid[row][col].value
    ensures grid[row][col].value.None? && grid[row][col].answer.Some? && grid[row][col].showAnswer ==>
              d == grid[row][col].answer
  {
    ResolvedDigit(grid[row][col])
  }

  /** The cell resolves to `n`. */
  predicate Holds(cell: Cell, n: int) {
    ResolvedDigit(cell) == Some(n)
  }

  /**
   A cell the elimination strategies still work on: no committed value and
   no answer on display. A shown answer makes the cell count as filled even
   when the answer itself is absent.
   */
  predicate Unresolved(cell: Cell) {
    cell.value.None? && !cell.showAnswer
  }

  /** The cell with `d` written in as its shown answer and its marks wiped. */
  function Promoted(cell: Cell, d: int): (p: Cell)
    ensures p.value == cell.value && p.answer == Some(d) && p.pencils == {} && p.showAnswer
  {
    cell.(answer := Some(d), pencils := {}, showAnswer := true)
  }

  /**
   A cell the strategies still work on resolves to nothing; promoting a cell
   without a value resolves it to the promoted digit, and a later promotion
   overrides an earlier one.
   */
  lemma PromotedResolves(cell: Cell, d: int, e: int)
    ensures Unresolved(cell) ==> ResolvedDigit(cell).None?
    ensures cell.value.None? ==> Holds(Promoted(cell, d), d)
    ensures Promoted(Promoted(cell, d), e) == Promoted(cell, e)
  {
  }
}
