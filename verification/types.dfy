/**
 The shared data model of the sudoku core: bare grids of optional digits,
 annotated cells carrying pencil marks and a cached answer, positions, and
 the row / column / 3x3-box relation every rule of the game is phrased in.
 */
module SudokuTypes {

  /** A value that may be absent; `None` plays the role of `null`. */
  datatype Option<+T> = None | Some(value: T)

  /** A bare cell: a number, or empty. */
  type Digit = Option<int>

  /** A bare grid; well-formed ones satisfy `IsGrid`. */
  type Grid = seq<seq<Digit>>

  /** A position on the board. */
  datatype Pos = Pos(row: int, col: int)

  /** An annotated cell: committed value, candidate marks, cached answer, reveal flag. */
  datatype Cell = Cell(value: Digit, pencils: set<int>, answer: Digit, showAnswer: bool)

  /** An annotated grid; well-formed ones satisfy `IsGrid`. */
  type PencilGrid = seq<seq<Cell>>

  /** The set of legal digits, 1 through 9. */
  const AllDigits: set<int> := {1, 2, 3, 4, 5, 6, 7, 8, 9}

  /** Nine rows of nine cells each. */
  predicate IsGrid<T>(g: seq<seq<T>>) {
    |g| == 9 && forall r :: 0 <= r < 9 ==> |g[r]| == 9
  }

  predicate InBoard(r: int, c: int) {
    0 <= r < 9 && 0 <= c < 9
  }

  predicate ValidPos(p: Pos) {
    InBoard(p.row, p.col)
  }

  /** The first row (or column) of the 3x3 band holding index `i`. */
  function BoxStart(i: int): int
    requires 0 <= i < 9
  {
    (i / 3) * 3
  }

  /** (r1, c1) and (r2, c2) lie in the same 3x3 box. */
  predicate SameBox(r1: int, c1: int, r2: int, c2: int) {
    r1 / 3 == r2 / 3 && c1 / 3 == c2 / 3
  }

  /**
   (r1, c1) and (r2, c2) share a row, a column or a box; every cell shares
   a unit with itself.
   */
  predicate SameUnit(r1: int, c1: int, r2: int, c2: int) {
    r1 == r2 || c1 == c2 || SameBox(r1, c1, r2, c2)
  }

  /** Two distinct cells that share a unit. */
  predicate Peers(r1: int, c1: int, r2: int, c2: int) {
    SameUnit(r1, c1, r2, c2) && !(r1 == r2 && c1 == c2)
  }

  /** A cell of the box starting at (br, bc) lies in that box exactly when it is within three of the start. */
  lemma BoxStartBounds(r: int, c: int, r2: int, c2: int)
    requires InBoard(r, c) && InBoard(r2, c2)
    ensures SameBox(r, c, r2, c2) <==>
      (BoxStart(r) <= r2 < BoxStart(r) + 3 && BoxStart(c) <= c2 < BoxStart(c) + 3)
  {
  }

  /** Cell (r, c) lies in the 3x3 box whose top-left cell is (br, bc). */
  predicate InBox(br: int, bc: int, r: int, c: int) {
    br <= r < br + 3 && bc <= c < bc + 3
  }

  /** The row offset within its box of the i-th cell of the box read row by row, that is i / 3. */
  function OffsetRow(i: int): int {
    if i < 3 then 0 else if i < 6 then 1 else 2
  }

  /** The column offset of the i-th cell of a box read row by row, that is i % 3. */
  function OffsetCol(i: int): int {
    i - 3 * OffsetRow(i)
  }

  /** The box cells at offsets (OffsetRow(i), OffsetCol(i)) for i in 0..8 are exactly the nine cells of the box, each once. */
  lemma BoxIndex(br: int, bc: int, r: int, c: int)
    requires InBox(br, bc, r, c)
    ensures 0 <= 3 * (r - br) + (c - bc) < 9
    ensures OffsetRow(3 * (r - br) + (c - bc)) == r - br
    ensures OffsetCol(3 * (r - br) + (c - bc)) == c - bc
  {
  }

  /** The grid `g` with cell (r, c) replaced by `x`. */
  function Put<T>(g: seq<seq<T>>, r: int, c: int, x: T): (h: seq<seq<T>>)
    requires IsGrid(g) && InBoard(r, c)
    ensures IsGrid(h)
    ensures h[r] == g[r][c := x]
    ensures forall r2 :: 0 <= r2 < 9 && r2 != r ==> h[r2] == g[r2]
  {
    g[r := g[r][c := x]]
  }

  /** Two well-formed grids are equal when they agree cell by cell. */
  lemma GridExtensionality<T>(g: seq<seq<T>>, h: seq<seq<T>>)
    requires IsGrid(g) && IsGrid(h)
    requires forall r, c :: InBoard(r, c) ==> g[r][c] == h[r][c]
    ensures g == h
  {
    forall r | 0 <= r < 9
      ensures g[r] == h[r]
    {
      assert forall c :: 0 <= c < 9 ==> g[r][c] == h[r][c] by {
        forall c | 0 <= c < 9 ensures g[r][c] == h[r][c] {
          assert InBoard(r, c);
        }
      }
    }
  }

  /** Writing a cell back to what it held restores the grid: the undo of a tentative write. */
  lemma PutRestores<T>(g: seq<seq<T>>, r: int, c: int, x: T)
    requires IsGrid(g) && InBoard(r, c)
    ensures Put(Put(g, r, c, x), r, c, g[r][c]) == g
  {
    GridExtensionality(Put(Put(g, r, c, x), r, c, g[r][c]), g);
  }

  /** The empty 9x9 bare grid. */
  function EmptyGrid(): (g: Grid)
    ensures IsGrid(g)
    ensures forall r, c :: InBoard(r, c) ==> g[r][c].None?
  {
    seq(9, r => seq(9, c => None))
  }
}
