/**
 The two single-promoting strategies of the step-wise solver. Naked
 singles (step 2): a cell without a value whose marks are a single digit
 gets that digit as its shown answer. Hidden singles (step 5): within each
 3x3 box, a digit marked in exactly one unresolved cell is promoted at that
 cell.
 */
module Singles {
  import opened SudokuTypes
  import opened CellState
  import opened IntSets

  // ---------------------------------------------------------------------
  // Naked singles
  // ---------------------------------------------------------------------

  /**
   One cell of the naked-single pass: a cell without a value whose marks
   are a single digit becomes that digit's shown answer, with the marks
   wiped. Whether an answer was already shown is not consulted.
   */
  function ConvertedCell(cell: Cell): (r: Cell)
    ensures forall d :: cell.value.None? && cell.pencils == {d} ==> r == Promoted(cell, d)
    ensures !(cell.value.None? && |cell.pencils| == 1) ==> r == cell
  {
    if cell.value.None? && |cell.pencils| == 1 then Promoted(cell, Only(cell.pencils)) else cell
  }

  /** The naked-single pass over the whole grid; every cell is decided on its own. */
  function ConvertSinglesToAnswers(g: PencilGrid): (h: PencilGrid)
    requires IsGrid(g)
    ensures IsGrid(h)
    ensures forall r, c :: InBoard(r, c) ==> h[r][c] == ConvertedCell(g[r][c])
  {
    seq(9, r requires 0 <= r < 9 => seq(9, c requires 0 <= c < 9 => ConvertedCell(g[r][c])))
  }

  /**
   After the pass every converted cell resolves to its former only mark;
   values never change; and a second pass changes nothing.
   */
  lemma ConvertSinglesMeaning(g: PencilGrid)
    requires IsGrid(g)
    ensures forall r, c, d :: InBoard(r, c) && g[r][c].value.None? && g[r][c].pencils == {d} ==>
              Holds(ConvertSinglesToAnswers(g)[r][c], d)
    ensures forall r, c :: InBoard(r, c) ==> ConvertSinglesToAnswers(g)[r][c].value == g[r][c].value
    ensures ConvertSinglesToAnswers(ConvertSinglesToAnswers(g)) == ConvertSinglesToAnswers(g)
  {
    var h := ConvertSinglesToAnswers(g);
    forall r, c | InBoard(r, c)
      ensures ConvertSinglesToAnswers(h)[r][c] == h[r][c]
    {
      if g[r][c].value.None? && |g[r][c].pencils| == 1 {
        var d := Only(g[r][c].pencils);
        assert h[r][c] == Promoted(g[r][c], d);
      }
    }
    GridExtensionality(ConvertSinglesToAnswers(h), h);
  }

  // ---------------------------------------------------------------------
  // Hidden singles: the tally of one box
  // ---------------------------------------------------------------------

  /** The top-left row or column of a box. */
  predicate BoxCorner(x: int) {
    x == 0 || x == 3 || x == 6
  }

  /** The cell at index i of the box with top-left cell (br, bc), the box read row by row. */
  function At(g: PencilGrid, br: int, bc: int, i: int): Cell
    requires IsGrid(g) && BoxCorner(br) && BoxCorner(bc) && 0 <= i < 9
  {
    g[br + OffsetRow(i)][bc + OffsetCol(i)]
  }

  /** The nine cells of the box with top-left cell (br, bc), read row by row. */
  function BoxCells(g: PencilGrid, br: int, bc: int): (cells: seq<Cell>)
    requires IsGrid(g) && BoxCorner(br) && BoxCorner(bc)
    ensures |cells| == 9
    ensures forall i :: 0 <= i < 9 ==> cells[i] == At(g, br, bc, i)
  {
    seq(9, i requires 0 <= i < 9 => At(g, br, bc, i))
  }

  /** Indices below k of the unresolved cells marked with d. */
  function HoldersBelow(cells: seq<Cell>, d: int, k: int): set<int>
    requires 0 <= k <= |cells|
  {
    set i | 0 <= i < k && Unresolved(cells[i]) && d in cells[i].pencils
  }

  /** Indices of the unresolved cells marked with d. */
  function Holders(cells: seq<Cell>, d: int): set<int> {
    HoldersBelow(cells, d, |cells|)
  }

  /** Extending the scan by one cell adds that cell to the holders of each of its marks. */
  lemma HoldersStep(cells: seq<Cell>, d: int, k: int)
    requires 0 <= k < |cells|
    ensures k !in HoldersBelow(cells, d, k)
    ensures HoldersBelow(cells, d, k + 1) ==
            HoldersBelow(cells, d, k) + (if Unresolved(cells[k]) && d in cells[k].pencils then {k} else {})
  {
  }

  /** For each digit seen so far: how many scanned cells carry it, and the last of them. */
  datatype Tally = Tally(count: map<int, int>, last: map<int, int>)

  /** The tally's entry for d agrees with the holders of d among the first k cells. */
  ghost predicate DigitTallied(t: Tally, cells: seq<Cell>, k: int, d: int)
    requires 0 <= k <= |cells|
  {
    var holders := HoldersBelow(cells, d, k);
    && (d in t.count <==> holders != {})
    && (d in t.count ==> d in t.last && t.count[d] == |holders| && t.last[d] in holders)
    && (d in t.count ==> forall j :: j in holders ==> j <= t.last[d])
  }

  /** The tally agrees with the holders among the first k cells. */
  ghost predicate TallyOf(t: Tally, cells: seq<Cell>, k: int)
    requires 0 <= k <= |cells|
  {
    t.count.Keys == t.last.Keys && forall d :: DigitTallied(t, cells, k, d)
  }

  /** Record one more unresolved cell, at index k: each of its marks is counted once more and held last at k. */
  function Bump(t: Tally, cell: Cell, k: int): Tally {
    Tally(map d | d in t.count.Keys + cell.pencils ::
            if d in cell.pencils then (if d in t.count then t.count[d] else 0) + 1 else t.count[d],
          map d | d in t.last.Keys + cell.pencils :: if d in cell.pencils then k else t.last[d])
  }

  /**
   The scan over the first k cells of a box: for every mark of every
   unresolved cell, bump that digit's count and record the cell as its
   latest holder.
   */
  function TallyUpTo(cells: seq<Cell>, k: int): (t: Tally)
    requires 0 <= k <= |cells|
    ensures TallyOf(t, cells, k)
  {
    if k == 0 then Tally(map[], map[])
    else
      var t := TallyUpTo(cells, k - 1);
      TallyStep(t, cells, k - 1);
      if !Unresolved(cells[k - 1]) then t else Bump(t, cells[k - 1], k - 1)
  }

  /** One scan step keeps one digit's entry in agreement with its holders. */
  lemma TallyStepDigit(t: Tally, cells: seq<Cell>, k: int, d: int)
    requires 0 <= k < |cells| && t.count.Keys == t.last.Keys && DigitTallied(t, cells, k, d)
    ensures !Unresolved(cells[k]) ==> DigitTallied(t, cells, k + 1, d)
    ensures Unresolved(cells[k]) ==> DigitTallied(Bump(t, cells[k], k), cells, k + 1, d)
  {
    HoldersStep(cells, d, k);
  }

  /** One scan step keeps the tally in agreement with the holders. */
  lemma TallyStep(t: Tally, cells: seq<Cell>, k: int)
    requires 0 <= k < |cells| && TallyOf(t, cells, k)
    ensures !Unresolved(cells[k]) ==> TallyOf(t, cells, k + 1)
    ensures Unresolved(cells[k]) ==> TallyOf(Bump(t, cells[k], k), cells, k + 1)
  {
    var next := if Unresolved(cells[k]) then Bump(t, cells[k], k) else t;
    forall d {:trigger DigitTallied(next, cells, k + 1, d)}
      ensures DigitTallied(next, cells, k + 1, d)
    {
      TallyStepDigit(t, cells, k, d);
    }
  }

  // ---------------------------------------------------------------------
  // Hidden singles: promoting the sole holders of one box
  // ---------------------------------------------------------------------

  /** Every digit still to be promoted has a count and a latest holder inside the box. */
  predicate LastInBox(t: Tally, keys: set<int>) {
    forall d :: d in keys ==> d in t.count && d in t.last && 0 <= t.last[d] < 9
  }

  /**
   Promote digit d if it was counted exactly once: write it, as a shown
   answer, into the cell that holds it.
   */
  function PromoteOne(g: PencilGrid, br: int, bc: int, t: Tally, d: int): (h: PencilGrid)
    requires IsGrid(g) && BoxCorner(br) && BoxCorner(bc) && LastInBox(t, {d})
    ensures IsGrid(h)
  {
    if t.count[d] == 1 then
      var r, c := br + OffsetRow(t.last[d]), bc + OffsetCol(t.last[d]);
      Put(g, r, c, Promoted(g[r][c], d))
    else g
  }

  /**
   Walk the tallied digits in ascending order; each digit counted exactly
   once is written, as a shown answer, into the cell that holds it,
   overwriting whatever an earlier digit wrote there.
   */
  function PromoteDigits(g: PencilGrid, br: int, bc: int, t: Tally, keys: set<int>): (h: PencilGrid)
    requires IsGrid(g) && BoxCorner(br) && BoxCorner(bc) && LastInBox(t, keys)
    ensures IsGrid(h)
    decreases keys
  {
    if keys == {} then g
    else
      var d := MinOf(keys);
      PromoteDigits(PromoteOne(g, br, bc, t, d), br, bc, t, keys - {d})
  }

  /** The digits among `keys` counted once whose only holder is box index i. */
  function SoleAt(t: Tally, keys: set<int>, i: int): set<int> {
    set d | d in keys && d in t.count && t.count[d] == 1 && d in t.last && t.last[d] == i
  }

  /** The cell after promoting each digit of `s` in ascending order: the largest one wins. */
  function PromoteWith(cell: Cell, s: set<int>): (r: Cell)
    ensures r.value == cell.value
  {
    if s == {} then cell else Promoted(cell, MaxOf(s))
  }

  /** Promoting a digit below all of `s` first makes no difference once `s` is promoted. */
  lemma PromoteWithStep(cell: Cell, d: int, s: set<int>)
    requires forall x :: x in s ==> d < x
    ensures PromoteWith(Promoted(cell, d), s) == PromoteWith(cell, s + {d})
  {
    if s == {} {
      assert s + {d} == {d};
    } else {
      assert MaxOf(s + {d}) == MaxOf(s);
    }
  }

  /** Promoting d and then the digits of `rest` above it is promoting the digits of `all`. */
  lemma PromoteCombine(cell: Cell, after: Cell, d: int, rest: set<int>, all: set<int>, promoted: bool)
    requires after == if promoted then Promoted(cell, d) else cell
    requires all == rest + (if promoted then {d} else {})
    requires forall x :: x in rest ==> d < x
    ensures PromoteWith(after, rest) == PromoteWith(cell, all)
  {
    if promoted {
      PromoteWithStep(cell, d, rest);
    } else {
      assert all == rest;
    }
  }

  /** Distinct box indices name distinct cells. */
  lemma BoxOffsetsDistinct(i: int, j: int)
    requires 0 <= i < 9 && 0 <= j < 9 && i != j
    ensures OffsetRow(i) != OffsetRow(j) || OffsetCol(i) != OffsetCol(j)
  {
  }

  /** One promotion changes at most the cell holding the digit, and that one only by promoting it. */
  lemma PromoteOneInside(g: PencilGrid, br: int, bc: int, t: Tally, d: int, i: int)
    requires IsGrid(g) && BoxCorner(br) && BoxCorner(bc) && LastInBox(t, {d}) && 0 <= i < 9
    ensures At(PromoteOne(g, br, bc, t, d), br, bc, i) ==
            if t.count[d] == 1 && t.last[d] == i then Promoted(At(g, br, bc, i), d)
            else At(g, br, bc, i)
  {
    if t.count[d] == 1 && t.last[d] != i {
      BoxOffsetsDistinct(i, t.last[d]);
    }
  }

  /** One promotion leaves every cell outside the box alone. */
  lemma PromoteOneOutside(g: PencilGrid, br: int, bc: int, t: Tally, d: int)
    requires IsGrid(g) && BoxCorner(br) && BoxCorner(bc) && LastInBox(t, {d})
    ensures forall r, c :: InBoard(r, c) && !InBox(br, bc, r, c) ==> PromoteOne(g, br, bc, t, d)[r][c] == g[r][c]
  {
  }

  /** Taking the least digit out of `keys` takes it out of the sole digits of each index, if it was there. */
  lemma SoleAtSplit(t: Tally, keys: set<int>, d: int, i: int)
    requires d in keys && forall x :: x in keys ==> d <= x
    ensures SoleAt(t, keys, i) ==
            SoleAt(t, keys - {d}, i) + (if d in t.count && t.count[d] == 1 && d in t.last && t.last[d] == i then {d} else {})
    ensures forall x :: x in SoleAt(t, keys - {d}, i) ==> d < x
  {
  }

  /** The induction step of the promotions at one box index. */
  lemma PromoteDigitsCell(g: PencilGrid, br: int, bc: int, t: Tally, keys: set<int>, i: int)
    requires IsGrid(g) && BoxCorner(br) && BoxCorner(bc) && LastInBox(t, keys) && keys != {} && 0 <= i < 9
    requires
      var h := PromoteOne(g, br, bc, t, MinOf(keys));
      At(PromoteDigits(h, br, bc, t, keys - {MinOf(keys)}), br, bc, i) ==
      PromoteWith(At(h, br, bc, i), SoleAt(t, keys - {MinOf(keys)}, i))
    ensures At(PromoteDigits(g, br, bc, t, keys), br, bc, i) ==
            PromoteWith(At(g, br, bc, i), SoleAt(t, keys, i))
  {
    var d := MinOf(keys);
    PromoteOneInside(g, br, bc, t, d, i);
    SoleAtSplit(t, keys, d, i);
    PromoteCombine(At(g, br, bc, i), At(PromoteOne(g, br, bc, t, d), br, bc, i), d, SoleAt(t, keys - {d}, i), SoleAt(t, keys, i),
                   t.count[d] == 1 && t.last[d] == i);
  }

  /**
   The promotions of one box, cell by cell: the cell at box index i ends up
   promoted to the largest digit counted once with its holder at i, or
   untouched when there is none; cells outside the box are untouched.
   */
  lemma {:induction false} PromoteDigitsMeaning(g: PencilGrid, br: int, bc: int, t: Tally, keys: set<int>)
    requires IsGrid(g) && BoxCorner(br) && BoxCorner(bc) && LastInBox(t, keys)
    ensures forall i :: 0 <= i < 9 ==>
              At(PromoteDigits(g, br, bc, t, keys), br, bc, i) ==
              PromoteWith(At(g, br, bc, i), SoleAt(t, keys, i))
    ensures forall r, c :: InBoard(r, c) && !InBox(br, bc, r, c) ==> PromoteDigits(g, br, bc, t, keys)[r][c] == g[r][c]
    decreases keys
  {
    if keys == {} {
      forall i | 0 <= i < 9
        ensures SoleAt(t, keys, i) == {}
      {
      }
    } else {
      var d := MinOf(keys);
      var h := PromoteOne(g, br, bc, t, d);
      PromoteDigitsMeaning(h, br, bc, t, keys - {d});
      forall i | 0 <= i < 9
        ensures At(PromoteDigits(g, br, bc, t, keys), br, bc, i) ==
                PromoteWith(At(g, br, bc, i), SoleAt(t, keys, i))
      {
        PromoteDigitsCell(g, br, bc, t, keys, i);
      }
      PromoteOneOutside(g, br, bc, t, d);
    }
  }

  // ---------------------------------------------------------------------
  // Hidden singles: one box, and the whole grid
  // ---------------------------------------------------------------------

  /** The digits marked in box cell i and in no other unresolved cell of the box. */
  function SoleDigits(cells: seq<Cell>, i: int): set<int>
    requires 0 <= i < |cells|
  {
    set d | d in cells[i].pencils && Holders(cells, d) == {i}
  }

  /** After the full scan of a box, the digits the tally counts once at i are the sole digits of cell i. */
  lemma TallySole(cells: seq<Cell>, t: Tally, i: int)
    requires 0 <= i < |cells| && TallyOf(t, cells, |cells|)
    ensures LastInBox(t, t.count.Keys) || |cells| != 9
    ensures SoleAt(t, t.count.Keys, i) == SoleDigits(cells, i)
  {
    assert forall d :: DigitTallied(t, cells, |cells|, d);
    forall d | d in t.count
      ensures 0 <= t.last[d] < |cells|
    {
      assert DigitTallied(t, cells, |cells|, d);
    }
    forall d
      ensures d in SoleAt(t, t.count.Keys, i) <==> d in SoleDigits(cells, i)
    {
      assert DigitTallied(t, cells, |cells|, d);
      var holders := Holders(cells, d);
      if d in t.count && t.count[d] == 1 {
        SingletonElements(holders);
        assert holders == {t.last[d]};
      }
      if holders == {i} {
        assert i in holders;
      }
    }
  }

  /**
   One box's pass: tally the box as it stands, then promote the digits
   counted once, in ascending order.
   */
  function BoxPass(g: PencilGrid, br: int, bc: int): (h: PencilGrid)
    requires IsGrid(g) && BoxCorner(br) && BoxCorner(bc)
    ensures IsGrid(h)
  {
    var cells := BoxCells(g, br, bc);
    var t := TallyUpTo(cells, 9);
    TallySole(cells, t, 0);
    PromoteDigits(g, br, bc, t, t.count.Keys)
  }

  /**
   What a box's pass does: each cell of the box is promoted to the largest
   of its sole digits, or left as it is when it has none; no cell outside
   the box changes.
   */
  lemma BoxPassMeaning(g: PencilGrid, br: int, bc: int)
    requires IsGrid(g) && BoxCorner(br) && BoxCorner(bc)
    ensures forall i :: 0 <= i < 9 ==>
              At(BoxPass(g, br, bc), br, bc, i) ==
              PromoteWith(At(g, br, bc, i), SoleDigits(BoxCells(g, br, bc), i))
    ensures forall r, c :: InBoard(r, c) && !InBox(br, bc, r, c) ==> BoxPass(g, br, bc)[r][c] == g[r][c]
  {
    var cells := BoxCells(g, br, bc);
    var t := TallyUpTo(cells, 9);
    TallySole(cells, t, 0);
    PromoteDigitsMeaning(g, br, bc, t, t.count.Keys);
    forall i | 0 <= i < 9
      ensures SoleAt(t, t.count.Keys, i) == SoleDigits(cells, i)
    {
      TallySole(cells, t, i);
    }
  }

  /**
   The hidden-single reference for the cell at index i of the box with
   top-left (br, bc): promoted to the largest digit that no other
   unresolved cell of its box carries as a mark, if any.
   */
  ghost function SpotCell(g: PencilGrid, br: int, bc: int, i: int): Cell
    requires IsGrid(g) && BoxCorner(br) && BoxCorner(bc) && 0 <= i < 9
  {
    PromoteWith(At(g, br, bc, i), SoleDigits(BoxCells(g, br, bc), i))
  }

  /**
   The reference in plain terms: a digit is a sole digit of box cell i
   exactly when that cell is unresolved and marked with it and no other
   unresolved cell of the box is; the pass keeps every value, leaves a
   filled or answered cell alone, and otherwise either leaves the cell
   alone (no sole digit, whatever the counts of the other digits) or shows
   the largest sole digit as its answer.
   */
  lemma SpotCellMeaning(g: PencilGrid, br: int, bc: int, i: int)
    requires IsGrid(g) && BoxCorner(br) && BoxCorner(bc) && 0 <= i < 9
    ensures forall d :: d in SoleDigits(BoxCells(g, br, bc), i) <==>
              && Unresolved(At(g, br, bc, i)) && d in At(g, br, bc, i).pencils
              && forall j :: 0 <= j < 9 && j != i && Unresolved(At(g, br, bc, j)) ==> d !in At(g, br, bc, j).pencils
    ensures SpotCell(g, br, bc, i).value == At(g, br, bc, i).value
    ensures !Unresolved(At(g, br, bc, i)) ==> SpotCell(g, br, bc, i) == At(g, br, bc, i)
    ensures SoleDigits(BoxCells(g, br, bc), i) == {} ==> SpotCell(g, br, bc, i) == At(g, br, bc, i)
    ensures SoleDigits(BoxCells(g, br, bc), i) != {} ==>
              SpotCell(g, br, bc, i) == Promoted(At(g, br, bc, i), MaxOf(SoleDigits(BoxCells(g, br, bc), i)))
  {
    var cells := BoxCells(g, br, bc);
    forall d
      ensures d in SoleDigits(cells, i) <==>
              && Unresolved(At(g, br, bc, i)) && d in At(g, br, bc, i).pencils
              && forall j :: 0 <= j < 9 && j != i && Unresolved(At(g, br, bc, j)) ==> d !in At(g, br, bc, j).pencils
    {
      if d in SoleDigits(cells, i) {
        assert i in Holders(cells, d);
        forall j | 0 <= j < 9 && j != i && Unresolved(At(g, br, bc, j))
          ensures d !in At(g, br, bc, j).pencils
        {
          assert j !in Holders(cells, d);
        }
      }
    }
  }

  /** Boxes before (row, col), in row-major order, have had their pass; the rest are untouched. */
  ghost predicate SpottedBefore(g: PencilGrid, h: PencilGrid, row: int, col: int)
    requires IsGrid(g)
  {
    && IsGrid(h)
    && forall br, bc, i :: BoxCorner(br) && BoxCorner(bc) && 0 <= i < 9 ==>
         At(h, br, bc, i) ==
         if br < row || (br == row && bc < col) then SpotCell(g, br, bc, i)
         else At(g, br, bc, i)
  }

  /** A box not yet passed reads in the grid so far as in the input grid. */
  lemma UnpassedBox(g: PencilGrid, h: PencilGrid, row: int, col: int)
    requires IsGrid(g) && BoxCorner(row) && BoxCorner(col) && SpottedBefore(g, h, row, col)
    ensures BoxCells(h, row, col) == BoxCells(g, row, col)
  {
    assert forall i :: 0 <= i < 9 ==> BoxCells(h, row, col)[i] == BoxCells(g, row, col)[i];
  }

  /** A cell of one box lies outside every other box. */
  lemma OtherBoxOutside(br: int, bc: int, row: int, col: int, i: int)
    requires BoxCorner(br) && BoxCorner(bc) && BoxCorner(row) && BoxCorner(col) && 0 <= i < 9
    requires br != row || bc != col
    ensures !InBox(row, col, br + OffsetRow(i), bc + OffsetCol(i))
  {
  }

  /** A box's pass leaves every other box as it was. */
  lemma BoxPassOtherBoxes(g: PencilGrid, row: int, col: int)
    requires IsGrid(g) && BoxCorner(row) && BoxCorner(col)
    ensures forall br, bc, i :: BoxCorner(br) && BoxCorner(bc) && 0 <= i < 9 && (br != row || bc != col) ==>
              At(BoxPass(g, row, col), br, bc, i) == At(g, br, bc, i)
  {
    BoxPassMeaning(g, row, col);
    forall br, bc, i | BoxCorner(br) && BoxCorner(bc) && 0 <= i < 9 && (br != row || bc != col)
      ensures At(BoxPass(g, row, col), br, bc, i) == At(g, br, bc, i)
    {
      OtherBoxOutside(br, bc, row, col, i);
    }
  }

  /** The pass over box (row, col) extends the passes done so far by one box. */
  lemma SpotStep(g: PencilGrid, h: PencilGrid, row: int, col: int)
    requires IsGrid(g) && BoxCorner(row) && BoxCorner(col) && SpottedBefore(g, h, row, col)
    ensures SpottedBefore(g, BoxPass(h, row, col), row, col + 3)
  {
    UnpassedBox(g, h, row, col);
    BoxPassMeaning(h, row, col);
    BoxPassOtherBoxes(h, row, col);
  }

  /** Finishing a band of boxes is starting the next one. */
  lemma SpotNextBand(g: PencilGrid, h: PencilGrid, row: int)
    requires IsGrid(g) && BoxCorner(row) && SpottedBefore(g, h, row, 9)
    ensures SpottedBefore(g, h, row + 3, 0)
  {
  }

  /**
   The hidden-single pass as written: boxes visited row by row, each box
   tallied as it stands and its sole holders promoted in place. A box's
   pass touches only that box, so each box is tallied as in the input
   grid, and every cell ends up as the reference says.
   */
  method SpotSingleCandidates(g: PencilGrid) returns (h: PencilGrid)
    requires IsGrid(g)
    ensures IsGrid(h)
    ensures forall br, bc, i :: BoxCorner(br) && BoxCorner(bc) && 0 <= i < 9 ==>
              At(h, br, bc, i) == SpotCell(g, br, bc, i)
  {
    h := g;
    var row := 0;
    while row < 9
      invariant BoxCorner(row) || row == 9
      invariant SpottedBefore(g, h, row, 0)
    {
      var col := 0;
      while col < 9
        invariant BoxCorner(col) || col == 9
        invariant SpottedBefore(g, h, row, col)
      {
        SpotStep(g, h, row, col);
        h := BoxPass(h, row, col);
        col := col + 3;
      }
      SpotNextBand(g, h, row);
      row := row + 3;
    }
  }
}
