/**
 The constraint checker of the bare-grid engine: may `num` be written at
 (row, col)? It scans the row, then the column, then the 3x3 box, exactly
 as the three loops of the application do, and its contract says what the
 scans amount to in terms of the unit relation.
 */
module Placement {
  import opened SudokuTypes

  /** No cell of row `row` holds `num`. */
  predicate RowFree(g: Grid, row: int, num: int)
    requires IsGrid(g) && 0 <= row < 9
  {
    forall c | 0 <= c < 9 :: g[row][c] != Some(num)
  }

  /** No cell of column `col` holds `num`. */
  predicate ColFree(g: Grid, col: int, num: int)
    requires IsGrid(g) && 0 <= col < 9
  {
    forall r | 0 <= r < 9 :: g[r][col] != Some(num)
  }

  /** No cell of the 3x3 box whose top-left cell is (br, bc) holds `num`. */
  predicate BoxFree(g: Grid, br: int, bc: int, num: int)
    requires IsGrid(g) && 0 <= br <= 6 && 0 <= bc <= 6
  {
    forall r, c | br <= r < br + 3 && bc <= c < bc + 3 :: g[r][c] != Some(num)
  }

  /**
   `num` may be placed at (row, col): neither its row, nor its column, nor
   the box whose corner is found by rounding row and column down to a
   multiple of three holds `num`.
   */
  function IsValidPlacement(g: Grid, row: int, col: int, num: int): bool
    requires IsGrid(g) && InBoard(row, col)
  {
    RowFree(g, row, num) && ColFree(g, col, num) && BoxFree(g, BoxStart(row), BoxStart(col), num)
  }

  /**
   What the check amounts to: `num` is admitted exactly when it occurs in no
   cell that shares a unit with (row, col). The cell itself belongs to its
   own row, so a cell already holding `num` is not admitted.
   */
  lemma IsValidPlacementMeaning(g: Grid, row: int, col: int, num: int)
    requires IsGrid(g) && InBoard(row, col)
    ensures IsValidPlacement(g, row, col, num) <==>
            forall r, c :: InBoard(r, c) && SameUnit(row, col, r, c) ==> g[r][c] != Some(num)
  {
    forall r, c | InBoard(r, c)
      ensures SameBox(row, col, r, c) <==>
              (BoxStart(row) <= r < BoxStart(row) + 3 && BoxStart(col) <= c < BoxStart(col) + 3)
    {
      BoxStartBounds(row, col, r, c);
    }
  }
}
