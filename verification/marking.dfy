/**
 Pencil marking, the strategy of steps 0 and 3 of the solver's cycle: every
 cell that is neither filled nor showing an answer gets, as its candidate
 marks, the digits 1..9 that no cell of its row, column or box resolves to.
 */
module Marking {
  import opened SudokuTypes
  import opened CellState

  /** One of the given cells resolves to `n`. */
  predicate Among(cells: seq<Cell>, n: int) {
    exists i :: 0 <= i < |cells| && Holds(cells[i], n)
  }

  /** The digits the given cells resolve to, collected in scan order. */
  function ResolvedIn(cells: seq<Cell>): (ns: set<int>)
    ensures forall n :: n in ns <==> Among(cells, n)
  {
    if |cells| == 0 then {}
    else
      var rest := ResolvedIn(cells[..|cells| - 1]);
      assert forall i :: 0 <= i < |cells| - 1 ==> cells[..|cells| - 1][i] == cells[i];
      match ResolvedDigit(cells[|cells| - 1])
      case Some(d) => rest + {d}
      case None => rest
  }

  /** Some cell of row `row` resolves to `n`. */
  ghost predicate InRow(grid: PencilGrid, row: int, n: int)
    requires IsGrid(grid) && 0 <= row < 9
  {
    exists c :: 0 <= c < 9 && Holds(grid[row][c], n)
  }

  /** Some cell of column `col` resolves to `n`. */
  ghost predicate InCol(grid: PencilGrid, col: int, n: int)
    requires IsGrid(grid) && 0 <= col < 9
  {
    exists r :: 0 <= r < 9 && Holds(grid[r][col], n)
  }

  /** Some cell of the box holding (row, col) resolves to `n`. */
  ghost predicate InBoxOf(grid: PencilGrid, row: int, col: int, n: int)
    requires IsGrid(grid)
  {
    exists r, c :: InBoard(r, c) && SameBox(row, col, r, c) && Holds(grid[r][c], n)
  }

  /** The resolved digits of row `row`. */
  function RowNumbers(grid: PencilGrid, row: int): (ns: set<int>)
    requires IsGrid(grid) && 0 <= row < 9
    ensures forall n :: n in ns <==> InRow(grid, row, n)
  {
    ResolvedIn(grid[row])
  }

  /** The resolved digits of column `col`. */
  function ColNumbers(grid: PencilGrid, col: int): (ns: set<int>)
    requires IsGrid(grid) && 0 <= col < 9
    ensures forall n :: n in ns <==> InCol(grid, col, n)
  {
    var cells := seq(9, r requires 0 <= r < 9 => grid[r][col]);
    assert forall r :: 0 <= r < 9 ==> cells[r] == grid[r][col];
    ResolvedIn(cells)
  }

  /** The nine cells of the box holding (row, col), read row by row. */
  function BoxCellsOf(grid: PencilGrid, row: int, col: int): (cells: seq<Cell>)
    requires IsGrid(grid) && InBoard(row, col)
    ensures |cells| == 9
  {
    seq(9, i requires 0 <= i < 9 => grid[BoxStart(row) + OffsetRow(i)][BoxStart(col) + OffsetCol(i)])
  }

  /** The resolved digits of the 3x3 box holding (row, col). */
  function BoxNumbers(grid: PencilGrid, row: int, col: int): (ns: set<int>)
    requires IsGrid(grid) && InBoard(row, col)
    ensures forall n :: n in ns <==> InBoxOf(grid, row, col, n)
  {
    BoxNumbersMeaning(grid, row, col);
    ResolvedIn(BoxCellsOf(grid, row, col))
  }

  /** The i-th cell of the box holding (row, col), read row by row, shares that box. */
  lemma BoxCellPosition(row: int, col: int, i: int)
    requires InBoard(row, col) && 0 <= i < 9
    ensures InBoard(BoxStart(row) + OffsetRow(i), BoxStart(col) + OffsetCol(i))
    ensures SameBox(row, col, BoxStart(row) + OffsetRow(i), BoxStart(col) + OffsetCol(i))
  {
    BoxStartBounds(row, col, BoxStart(row) + OffsetRow(i), BoxStart(col) + OffsetCol(i));
  }

  /** Every cell sharing the box of (row, col) is read at some index of the box scan. */
  lemma BoxPositionCell(row: int, col: int, r: int, c: int) returns (i: int)
    requires InBoard(row, col) && InBoard(r, c) && SameBox(row, col, r, c)
    ensures 0 <= i < 9 && BoxStart(row) + OffsetRow(i) == r && BoxStart(col) + OffsetCol(i) == c
  {
    BoxStartBounds(row, col, r, c);
    BoxIndex(BoxStart(row), BoxStart(col), r, c);
    i := 3 * (r - BoxStart(row)) + (c - BoxStart(col));
  }

  /** The nine box cells, read row by row, are the cells sharing the box of (row, col). */
  lemma BoxNumbersMeaning(grid: PencilGrid, row: int, col: int)
    requires IsGrid(grid) && InBoard(row, col)
    ensures forall n :: Among(BoxCellsOf(grid, row, col), n) <==> InBoxOf(grid, row, col, n)
  {
    var cells := BoxCellsOf(grid, row, col);
    forall n
      ensures Among(cells, n) <==> InBoxOf(grid, row, col, n)
    {
      if i :| 0 <= i < |cells| && Holds(cells[i], n) {
        BoxCellPosition(row, col, i);
        var r, c := BoxStart(row) + OffsetRow(i), BoxStart(col) + OffsetCol(i);
        assert Holds(grid[r][c], n);
      }
      if r, c :| InBoard(r, c) && SameBox(row, col, r, c) && Holds(grid[r][c], n) {
        var i := BoxPositionCell(row, col, r, c);
        assert Holds(cells[i], n);
      }
    }
  }

  /** Some cell sharing a unit with (row, col) resolves to `n`. */
  ghost predicate SeenFrom(grid: PencilGrid, row: int, col: int, n: int)
    requires IsGrid(grid)
  {
    exists r, c :: InBoard(r, c) && SameUnit(row, col, r, c) && Holds(grid[r][c], n)
  }

  /** The digits the three scans find from (row, col): those of its row, its column and its box. */
  function UnitNumbers(grid: PencilGrid, row: int, col: int): (ns: set<int>)
    requires IsGrid(grid) && InBoard(row, col)
    ensures forall n :: n in ns <==> InRow(grid, row, n) || InCol(grid, col, n) || InBoxOf(grid, row, col, n)
  {
    RowNumbers(grid, row) + ColNumbers(grid, col) + BoxNumbers(grid, row, col)
  }

  /** The three scans together find exactly the digits seen from (row, col). */
  lemma UnitNumbersMeaning(grid: PencilGrid, row: int, col: int)
    requires IsGrid(grid) && InBoard(row, col)
    ensures forall n :: n in UnitNumbers(grid, row, col) <==> SeenFrom(grid, row, col, n)
  {
    forall n
      ensures InRow(grid, row, n) || InCol(grid, col, n) || InBoxOf(grid, row, col, n)
              <==> SeenFrom(grid, row, col, n)
    {
      if c :| 0 <= c < 9 && Holds(grid[row][c], n) {
        assert InBoard(row, c) && SameUnit(row, col, row, c);
      }
      if r :| 0 <= r < 9 && Holds(grid[r][col], n) {
        assert InBoard(r, col) && SameUnit(row, col, r, col);
      }
    }
  }

  /** Grids whose cells resolve to the same digits see the same digits from every cell. */
  lemma SameResolvedSameSeen(g: PencilGrid, h: PencilGrid, row: int, col: int)
    requires IsGrid(g) && IsGrid(h)
    requires forall r, c :: InBoard(r, c) ==> ResolvedDigit(h[r][c]) == ResolvedDigit(g[r][c])
    ensures forall n :: SeenFrom(h, row, col, n) <==> SeenFrom(g, row, col, n)
  {
    forall n
      ensures SeenFrom(h, row, col, n) <==> SeenFrom(g, row, col, n)
    {
      if r, c :| InBoard(r, c) && SameUnit(row, col, r, c) && Holds(h[r][c], n) {
        assert Holds(g[r][c], n);
      }
      if r, c :| InBoard(r, c) && SameUnit(row, col, r, c) && Holds(g[r][c], n) {
        assert Holds(h[r][c], n);
      }
    }
  }

  /** Grids whose cells resolve to the same digits give the same scans from every cell. */
  lemma SameResolvedSameScans(g: PencilGrid, h: PencilGrid, row: int, col: int)
    requires IsGrid(g) && IsGrid(h) && InBoard(row, col)
    requires forall r, c :: InBoard(r, c) ==> ResolvedDigit(h[r][c]) == ResolvedDigit(g[r][c])
    ensures UnitNumbers(h, row, col) == UnitNumbers(g, row, col)
  {
    SameResolvedSameSeen(g, h, row, col);
    UnitNumbersMeaning(g, row, col);
    UnitNumbersMeaning(h, row, col);
    assert forall n :: n in UnitNumbers(h, row, col) <==> n in UnitNumbers(g, row, col);
  }

  /**
   The fresh marks for (row, col): the digits 1..9 that the scans of its
   row, column and box do not find, with the answer hidden. A cell with a
   value is returned as it is.
   */
  function MarkPencilForCell(grid: PencilGrid, row: int, col: int): (cell: Cell)
    requires IsGrid(grid) && InBoard(row, col)
    ensures grid[row][col].value.Some? ==> cell == grid[row][col]
    ensures grid[row][col].value.None? ==>
              && cell.value == grid[row][col].value
              && cell.answer == grid[row][col].answer
              && !cell.showAnswer
              && cell.pencils == AllDigits - UnitNumbers(grid, row, col)
  {
    var cell := grid[row][col];
    if cell.value.Some? then cell
    else
      cell.(pencils := AllDigits - RowNumbers(grid, row) - ColNumbers(grid, col) - BoxNumbers(grid, row, col),
            showAnswer := false)
  }

  /**
   The marks given to an empty cell are exactly the digits 1..9 that no
   cell sharing its row, column or box resolves to.
   */
  lemma MarkPencilForCellMeaning(grid: PencilGrid, row: int, col: int)
    requires IsGrid(grid) && InBoard(row, col) && grid[row][col].value.None?
    ensures forall n :: n in MarkPencilForCell(grid, row, col).pencils <==>
                        n in AllDigits && !SeenFrom(grid, row, col, n)
  {
    UnitNumbersMeaning(grid, row, col);
  }

  /** The marking pass works on the cell: no value, and no answer on display. */
  predicate ShouldMark(cell: Cell) {
    cell.value.None? && !(cell.answer.Some? && cell.showAnswer)
  }

  /** A cell is marked exactly when it resolves to nothing. */
  lemma ShouldMarkMeaning(cell: Cell)
    ensures ShouldMark(cell) <==> ResolvedDigit(cell).None?
  {
  }

  /**
   What the marking pass leaves at (r, c): a cell that is filled or shows
   an answer stays as it is; any other cell keeps its value and answer,
   hides the answer, and is given fresh marks.
   */
  function MarkedCell(g: PencilGrid, r: int, c: int): (cell: Cell)
    requires IsGrid(g) && InBoard(r, c)
    ensures cell.value == g[r][c].value && cell.answer == g[r][c].answer
  {
    if ShouldMark(g[r][c]) then MarkPencilForCell(g, r, c) else g[r][c]
  }

  /**
   The marking pass at one cell, stated without reference to the scans:
   cells that are filled or show an answer are untouched; every other cell
   keeps its value and answer, hides the answer, and gets as marks exactly
   the digits 1..9 seen from no cell of its row, column or box.
   */
  lemma MarkedCellMeaning(g: PencilGrid, r: int, c: int)
    requires IsGrid(g) && InBoard(r, c)
    ensures !ShouldMark(g[r][c]) ==> MarkedCell(g, r, c) == g[r][c]
    ensures ShouldMark(g[r][c]) ==>
              && MarkedCell(g, r, c).value == g[r][c].value
              && MarkedCell(g, r, c).answer == g[r][c].answer
              && !MarkedCell(g, r, c).showAnswer
              && forall n :: n in MarkedCell(g, r, c).pencils <==> n in AllDigits && !SeenFrom(g, r, c, n)
  {
    if ShouldMark(g[r][c]) {
      MarkPencilForCellMeaning(g, r, c);
    }
  }

  /** A marked cell resolves to the same digit as before, and is marked again by a second pass. */
  lemma MarkedCellResolved(g: PencilGrid, r: int, c: int)
    requires IsGrid(g) && InBoard(r, c)
    ensures ResolvedDigit(MarkedCell(g, r, c)) == ResolvedDigit(g[r][c])
    ensures ShouldMark(MarkedCell(g, r, c)) == ShouldMark(g[r][c])
  {
  }

  /** Reference for the marking pass: every cell marked at once against the grid as it was before the pass. */
  function MarkAll(g: PencilGrid): (h: PencilGrid)
    requires IsGrid(g)
    ensures IsGrid(h)
    ensures forall r, c :: InBoard(r, c) ==> h[r][c] == MarkedCell(g, r, c)
  {
    seq(9, r requires 0 <= r < 9 => seq(9, c requires 0 <= c < 9 => MarkedCell(g, r, c)))
  }

  /**
   A grid each of whose cells is either the input cell or its marked
   form resolves like the input everywhere, so marks computed against it
   are the marks computed against the input.
   */
  lemma MarkAgainstPartial(g: PencilGrid, h: PencilGrid, row: int, col: int)
    requires IsGrid(g) && IsGrid(h) && InBoard(row, col)
    requires forall r, c :: InBoard(r, c) ==> h[r][c] == g[r][c] || h[r][c] == MarkedCell(g, r, c)
    requires h[row][col] == g[row][col]
    ensures MarkedCell(h, row, col) == MarkedCell(g, row, col)
  {
    forall r, c | InBoard(r, c)
      ensures ResolvedDigit(h[r][c]) == ResolvedDigit(g[r][c])
    {
      MarkedCellResolved(g, r, c);
    }
    SameResolvedSameScans(g, h, row, col);
  }

  /** Marking never changes what any cell resolves to. */
  lemma MarkAllPreservesResolved(g: PencilGrid)
    requires IsGrid(g)
    ensures forall r, c :: InBoard(r, c) ==> ResolvedDigit(MarkAll(g)[r][c]) == ResolvedDigit(g[r][c])
  {
    forall r, c | InBoard(r, c)
      ensures ResolvedDigit(MarkAll(g)[r][c]) == ResolvedDigit(g[r][c])
    {
      MarkedCellResolved(g, r, c);
    }
  }

  /** A cell marked a second time, against the marked grid, comes out as it was. */
  lemma MarkedCellTwice(g: PencilGrid, r: int, c: int)
    requires IsGrid(g) && InBoard(r, c)
    ensures MarkedCell(MarkAll(g), r, c) == MarkedCell(g, r, c)
  {
    var m := MarkAll(g);
    MarkedCellResolved(g, r, c);
    if ShouldMark(g[r][c]) {
      MarkAllPreservesResolved(g);
      SameResolvedSameScans(g, m, r, c);
    }
  }

  /** Marking a second time changes nothing. */
  lemma MarkAllIdempotent(g: PencilGrid)
    requires IsGrid(g)
    ensures MarkAll(MarkAll(g)) == MarkAll(g)
  {
    forall r, c | InBoard(r, c)
      ensures MarkAll(MarkAll(g))[r][c] == MarkAll(g)[r][c]
    {
      MarkedCellTwice(g, r, c);
    }
    GridExtensionality(MarkAll(MarkAll(g)), MarkAll(g));
  }

  /**
   The marking pass has visited every cell before (row, col) in row-major
   order: those cells hold their marked form, the rest are untouched.
   */
  ghost predicate MarkedBefore(g: PencilGrid, h: PencilGrid, row: int, col: int)
    requires IsGrid(g)
  {
    && IsGrid(h)
    && forall r, c :: InBoard(r, c) ==>
         h[r][c] == if r < row || (r == row && c < col) then MarkedCell(g, r, c) else g[r][c]
  }

  /** One step of the pass: cell (row, col) is skipped or marked in place against the grid so far. */
  lemma MarkStep(g: PencilGrid, h: PencilGrid, row: int, col: int)
    requires IsGrid(g) && InBoard(row, col) && MarkedBefore(g, h, row, col)
    ensures !ShouldMark(h[row][col]) ==> MarkedBefore(g, h, row, col + 1)
    ensures ShouldMark(h[row][col]) ==> MarkedBefore(g, Put(h, row, col, MarkPencilForCell(h, row, col)), row, col + 1)
  {
    if ShouldMark(h[row][col]) {
      MarkAgainstPartial(g, h, row, col);
    }
  }

  /** Finishing a row of the pass is starting the next one. */
  lemma MarkNextRow(g: PencilGrid, h: PencilGrid, row: int)
    requires IsGrid(g) && MarkedBefore(g, h, row, 9)
    ensures MarkedBefore(g, h, row + 1, 0)
  {
  }

  /**
   The marking pass as written: cells visited row by row, each marked in
   place against the grid as updated so far. Because marking never changes
   what a cell resolves to, the result is the all-at-once reference.
   */
  method MarkAllCellsWithPencils(g: PencilGrid) returns (h: PencilGrid)
    requires IsGrid(g)
    ensures h == MarkAll(g)
  {
    h := g;
    for row := 0 to 9
      invariant MarkedBefore(g, h, row, 0)
    {
      for col := 0 to 9
        invariant MarkedBefore(g, h, row, col)
      {
        var cell := h[row][col];
        MarkStep(g, h, row, col);
        if cell.value.Some? {
          continue;
        }
        if cell.answer.Some? && cell.showAnswer {
          continue;
        }
        h := Put(h, row, col, MarkPencilForCell(h, row, col));
      }
      MarkNextRow(g, h, row);
    }
    GridExtensionality(h, MarkAll(g));
  }
}
