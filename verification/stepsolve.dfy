/**
 The step-wise solver's dispatcher: the step number, taken modulo the
 six-step cycle with JavaScript's remainder, picks one strategy, and the
 grid it returns is the next grid on screen.
 */
module StepSolver {
  import opened SudokuTypes
  import opened CellState
  import opened Marking
  import opened Singles
  import opened Pairs

  /** The length of the strategy cycle. */
  const CycleSize: int := 6

  /** JavaScript's integer quotient: rounded toward zero. */
  function JsQuot(n: int, m: int): int
    requires m > 0
  {
    if n >= 0 then n / m else -((-n) / m)
  }

  /**
   JavaScript's `%` on integers: the remainder left by the quotient rounded
   toward zero, so it carries the sign of the dividend and a negative step
   number gives a remainder in -5..0.
   */
  function JsRem(n: int, m: int): (r: int)
    requires m > 0
    ensures n == m * JsQuot(n, m) + r
    ensures n >= 0 ==> 0 <= r < m
    ensures n < 0 ==> -m < r <= 0
  {
    if n >= 0 then n % m
    else
      var q, rest := (-n) / m, (-n) % m;
      assert m * -q == -(m * q);
      -rest
  }

  /** The strategies of the cycle, and doing nothing. */
  datatype Strategy = MarkPencils | StrikePairs | ConvertSingles | SpotSingles | NoStep

  /** The strategy a step number selects. */
  function StrategyOf(stepCount: int): (s: Strategy)
  {
    var rem := JsRem(stepCount, CycleSize);
    if rem == 0 || rem == 3 then MarkPencils
    else if rem == 1 || rem == 4 then StrikePairs
    else if rem == 2 then ConvertSingles
    else if rem == 5 then SpotSingles
    else NoStep
  }

  /**
   The schedule: from step 0 on it repeats every six steps as marks,
   pairs, singles, marks, pairs, hidden singles; a negative step number
   marks pencils when it is a multiple of six and otherwise does nothing.
   */
  lemma StrategySchedule(n: int)
    ensures n >= 0 ==> StrategyOf(n + CycleSize) == StrategyOf(n)
    ensures n >= 0 ==> StrategyOf(n) == [MarkPencils, StrikePairs, ConvertSingles, MarkPencils, StrikePairs, SpotSingles][n % 6]
    ensures n < 0 ==> (StrategyOf(n) == MarkPencils <==> n % 6 == 0)
    ensures n < 0 && n % 6 != 0 ==> StrategyOf(n) == NoStep
  {
    if n < 0 {
      var q := JsQuot(n, 6);
      assert n == 6 * q + JsRem(n, 6);
    }
  }

  /**
   Every cell keeps its value, and a cell with a value is kept whole, from
   `g` to `h`.
   */
  ghost predicate KeepsFilled(g: PencilGrid, h: PencilGrid)
    requires IsGrid(g) && IsGrid(h)
  {
    forall r, c :: InBoard(r, c) ==> h[r][c].value == g[r][c].value && (g[r][c].value.Some? ==> h[r][c] == g[r][c])
  }

  /** The box, and the index within it, of every cell of the board. */
  lemma CellOfBox(r: int, c: int) returns (br: int, bc: int, i: int)
    requires InBoard(r, c)
    ensures BoxCorner(br) && BoxCorner(bc) && 0 <= i < 9
    ensures br + OffsetRow(i) == r && bc + OffsetCol(i) == c
  {
    br := if r < 3 then 0 else if r < 6 then 3 else 6;
    bc := if c < 3 then 0 else if c < 6 then 3 else 6;
    i := 3 * (r - br) + (c - bc);
  }

  /** Pencil marking keeps filled cells. */
  lemma MarkKeepsFilled(g: PencilGrid)
    requires IsGrid(g)
    ensures KeepsFilled(g, MarkAll(g))
  {
    forall r, c | InBoard(r, c)
      ensures MarkAll(g)[r][c].value == g[r][c].value && (g[r][c].value.Some? ==> MarkAll(g)[r][c] == g[r][c])
    {
      MarkedCellMeaning(g, r, c);
    }
  }

  /** The hidden-single pass keeps filled cells. */
  lemma SpotKeepsFilled(g: PencilGrid, h: PencilGrid)
    requires IsGrid(g) && IsGrid(h)
    requires forall br, bc, i :: BoxCorner(br) && BoxCorner(bc) && 0 <= i < 9 ==> At(h, br, bc, i) == SpotCell(g, br, bc, i)
    ensures KeepsFilled(g, h)
  {
    forall r, c | InBoard(r, c)
      ensures h[r][c].value == g[r][c].value && (g[r][c].value.Some? ==> h[r][c] == g[r][c])
    {
      var br, bc, i := CellOfBox(r, c);
      SpotCellMeaning(g, br, bc, i);
      assert At(h, br, bc, i) == SpotCell(g, br, bc, i);
    }
  }

  /**
   One step of the solver. The strategy is picked by the step number alone;
   whichever runs, no cell's value changes and no cell that has a value
   changes at all.
   */
  method StepSolve(stepCount: int, prevGrid: PencilGrid) returns (grid: PencilGrid)
    requires IsGrid(prevGrid)
    ensures IsGrid(grid)
    ensures StrategyOf(stepCount) == MarkPencils ==> grid == MarkAll(prevGrid)
    ensures StrategyOf(stepCount) == StrikePairs ==> grid == StrikePencilsUsingPairs(prevGrid)
    ensures StrategyOf(stepCount) == ConvertSingles ==> grid == ConvertSinglesToAnswers(prevGrid)
    ensures StrategyOf(stepCount) == SpotSingles ==>
              forall br, bc, i :: BoxCorner(br) && BoxCorner(bc) && 0 <= i < 9 ==>
                At(grid, br, bc, i) == SpotCell(prevGrid, br, bc, i)
    ensures StrategyOf(stepCount) == NoStep ==> grid == prevGrid
    ensures KeepsFilled(prevGrid, grid)
  {
    var rem := JsRem(stepCount, CycleSize);
    if rem == 0 || rem == 3 {
      grid := MarkAllCellsWithPencils(prevGrid);
      MarkKeepsFilled(prevGrid);
      return;
    }
    if rem == 1 || rem == 4 {
      grid := StrikePencilsUsingPairs(prevGrid);
      return;
    }
    if rem == 2 {
      grid := ConvertSinglesToAnswers(prevGrid);
      return;
    }
    if rem == 5 {
      grid := SpotSingleCandidates(prevGrid);
      SpotKeepsFilled(prevGrid, grid);
      return;
    }
    grid := prevGrid;
  }
}
