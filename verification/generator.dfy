/**
 Generating a complete sudoku: the three diagonal 3x3 boxes are seeded with
 shuffled digits, then the backtracking completer fills the rest.

 The shuffle is Fisher-Yates; the random index drawn at step i is supplied
 by the caller as `choices[i]`, which must lie in 0..i as the draw
 `floor(random() * (i + 1))` does.
 */
module Generator {
  import opened SudokuTypes
  import opened Backtrack

  // ---------------------------------------------------------------------
  // The shuffle
  // ---------------------------------------------------------------------

  /** Random draws for shuffling a list of length n: the draw for step i lies in 0..i. */
  predicate ValidChoices(choices: seq<int>, n: int) {
    |choices| == n && forall i :: 0 <= i < n ==> 0 <= choices[i] <= i
  }

  /** Exchange the entries at i and j. */
  function Swap<T>(a: seq<T>, i: int, j: int): (b: seq<T>)
    requires 0 <= i < |a| && 0 <= j < |a|
    ensures |b| == |a| && b[i] == a[j] && b[j] == a[i]
    ensures forall k :: 0 <= k < |a| && k != i && k != j ==> b[k] == a[k]
    ensures multiset(b) == multiset(a)
  {
    a[i := a[j]][j := a[i]]
  }

  /**
   The Fisher-Yates steps i, i - 1, ..., 1: step k swaps entry k with entry
   choices[k]. Entries above i are never touched.
   */
  function ShuffleDown<T>(a: seq<T>, choices: seq<int>, i: int): (b: seq<T>)
    requires ValidChoices(choices, |a|) && 0 <= i < |a|
    ensures |b| == |a|
    ensures multiset(b) == multiset(a)
    ensures forall k :: i < k < |a| ==> b[k] == a[k]
    decreases i
  {
    if i == 0 then a
    else ShuffleDown(Swap(a, i, choices[i]), choices, i - 1)
  }

  /** Fisher-Yates from the last entry down to the second: the result is a rearrangement of `a`. */
  function Shuffle<T>(a: seq<T>, choices: seq<int>): (b: seq<T>)
    requires ValidChoices(choices, |a|)
    ensures |b| == |a|
    ensures multiset(b) == multiset(a)
  {
    if |a| == 0 then a else ShuffleDown(a, choices, |a| - 1)
  }

  // ---------------------------------------------------------------------
  // Seeding the diagonal boxes
  // ---------------------------------------------------------------------

  /** The digits 1..9, as cell contents, in ascending order. */
  const DigitCells: seq<Digit> := [Some(1), Some(2), Some(3), Some(4), Some(5), Some(6), Some(7), Some(8), Some(9)]

  /** The nine cells of the box at (br, bc), read row by row. */
  function BoxSeq(h: Grid, br: int, bc: int): (s: seq<Digit>)
    requires IsGrid(h) && 0 <= br <= 6 && 0 <= bc <= 6
    ensures |s| == 9
  {
    seq(9, i requires 0 <= i < 9 => h[br + OffsetRow(i)][bc + OffsetCol(i)])
  }

  /** The box at (br, bc), read row by row, is a permutation of 1..9. */
  predicate BoxHoldsAllDigits(h: Grid, br: int, bc: int)
    requires IsGrid(h) && 0 <= br <= 6 && 0 <= bc <= 6
  {
    multiset(BoxSeq(h, br, bc)) == multiset(DigitCells)
  }

  /**
   The write loops of the box fill: entry 3 * i + j of `numbers` goes to
   row row + i, column col + j; every other cell keeps its content.
   */
  function WriteBox(g: Grid, row: int, col: int, numbers: seq<Digit>): (h: Grid)
    requires IsGrid(g) && 0 <= row <= 6 && 0 <= col <= 6 && |numbers| == 9
    ensures IsGrid(h)
    ensures BoxSeq(h, row, col) == numbers
    ensures forall r, c :: InBoard(r, c) && !InBox(row, col, r, c) ==> h[r][c] == g[r][c]
  {
    var h := seq(9, r requires 0 <= r < 9 =>
               seq(9, c requires 0 <= c < 9 =>
                 if InBox(row, col, r, c) then numbers[3 * (r - row) + (c - col)] else g[r][c]));
    assert forall i | 0 <= i < 9 :: BoxSeq(h, row, col)[i] == numbers[i];
    h
  }

  /**
   Fill the box at (row, col) with the digits 1..9 in shuffled order: the
   box then holds a permutation of 1..9 and no other cell changes.
   */
  method FillBox(g: Grid, row: int, col: int, choices: seq<int>) returns (h: Grid)
    requires IsGrid(g) && 0 <= row <= 6 && 0 <= col <= 6 && ValidChoices(choices, 9)
    ensures IsGrid(h)
    ensures BoxHoldsAllDigits(h, row, col)
    ensures forall r, c :: InBoard(r, c) && !InBox(row, col, r, c) ==> h[r][c] == g[r][c]
  {
    var numbers := Shuffle(DigitCells, choices);
    h := WriteBox(g, row, col, numbers);
  }

  /** Two grids that agree outside a box agree on every box that does not overlap it. */
  lemma BoxSeqUntouched(g: Grid, h: Grid, br: int, bc: int, wr: int, wc: int)
    requires IsGrid(g) && IsGrid(h) && 0 <= br <= 6 && 0 <= bc <= 6
    requires forall r, c :: InBoard(r, c) && !InBox(wr, wc, r, c) ==> h[r][c] == g[r][c]
    requires forall r, c :: InBox(br, bc, r, c) ==> !InBox(wr, wc, r, c)
    ensures BoxSeq(h, br, bc) == BoxSeq(g, br, bc)
  {
    forall i | 0 <= i < 9
      ensures BoxSeq(h, br, bc)[i] == BoxSeq(g, br, bc)[i]
    {
      assert InBox(br, bc, br + OffsetRow(i), bc + OffsetCol(i));
    }
  }

  /** Cell (r, c) lies in one of the three diagonal boxes. */
  predicate InDiagonalBox(r: int, c: int) {
    InBox(0, 0, r, c) || InBox(3, 3, r, c) || InBox(6, 6, r, c)
  }

  // ---------------------------------------------------------------------
  // Permutations of the digits
  // ---------------------------------------------------------------------

  /** A value found at two different positions occurs at least twice. */
  lemma RepeatCountsTwice<T>(s: seq<T>, i: int, j: int)
    requires 0 <= i < j < |s| && s[i] == s[j]
    ensures multiset(s)[s[i]] >= 2
  {
    assert s == s[..j] + s[j..];
    assert s[..j][i] == s[i];
    assert s[j..][0] == s[j];
    assert s[i] in multiset(s[..j]) && s[j] in multiset(s[j..]);
  }

  /** In a list without repeats every value occurs at most once. */
  lemma {:induction false} DistinctCountsOnce<T>(t: seq<T>, x: T)
    requires forall i, j :: 0 <= i < j < |t| ==> t[i] != t[j]
    ensures multiset(t)[x] <= 1
    decreases |t|
  {
    if |t| > 0 {
      var rest := t[1..];
      assert forall i, j :: 0 <= i < j < |rest| ==> rest[i] != rest[j] by {
        forall i, j | 0 <= i < j < |rest|
          ensures rest[i] != rest[j]
        {
          assert rest[i] == t[i + 1] && rest[j] == t[j + 1];
        }
      }
      DistinctCountsOnce(rest, x);
      assert t == [t[0]] + rest;
      if x == t[0] {
        assert x !in rest;
      }
    }
  }

  /** Nine different digits, each from 1..9, listed in some order. */
  predicate DistinctDigits(s: seq<Digit>) {
    && |s| == 9
    && (forall i :: 0 <= i < |s| ==> s[i].Some? && 1 <= s[i].value <= 9)
    && (forall i, j :: 0 <= i < j < |s| ==> s[i] != s[j])
  }

  /** `DigitCells` lists nine different digits, each from 1..9. */
  lemma DigitCellsDistinct()
    ensures DistinctDigits(DigitCells)
  {
  }

  /** A value that occurs in a rearrangement of 1..9 is a digit 1..9. */
  lemma PermutationMember(s: seq<Digit>, i: int)
    requires multiset(s) == multiset(DigitCells) && 0 <= i < |s|
    ensures s[i].Some? && 1 <= s[i].value <= 9
  {
    assert s[i] in multiset(s);
    assert s[i] in DigitCells;
    DigitCellsDistinct();
  }

  /** A rearrangement of 1..9 has no value at two positions. */
  lemma PermutationNoRepeat(s: seq<Digit>, i: int, j: int)
    requires multiset(s) == multiset(DigitCells) && 0 <= i < j < |s|
    ensures s[i] != s[j]
  {
    DigitCellsDistinct();
    DistinctCountsOnce(DigitCells, s[i]);
    if s[i] == s[j] {
      RepeatCountsTwice(s, i, j);
    }
  }

  /** A rearrangement of 1..9 holds nine different digits, each from 1..9. */
  lemma PermutationOfDigits(s: seq<Digit>)
    requires multiset(s) == multiset(DigitCells)
    ensures DistinctDigits(s)
  {
    assert |s| == |multiset(s)| == |multiset(DigitCells)| == 9;
    forall i | 0 <= i < |s|
      ensures s[i].Some? && 1 <= s[i].value <= 9
    {
      PermutationMember(s, i);
    }
    forall i, j | 0 <= i < j < |s|
      ensures s[i] != s[j]
    {
      PermutationNoRepeat(s, i, j);
    }
  }

  /** A box whose cells, read row by row, are nine different digits holds them cell by cell. */
  lemma BoxDigitsDistinct(h: Grid, br: int, bc: int)
    requires IsGrid(h) && 0 <= br <= 6 && 0 <= bc <= 6 && DistinctDigits(BoxSeq(h, br, bc))
    ensures forall r, c :: InBox(br, bc, r, c) ==> h[r][c].Some? && 1 <= h[r][c].value <= 9
    ensures forall r1, c1, r2, c2 :: InBox(br, bc, r1, c1) && InBox(br, bc, r2, c2) && (r1 != r2 || c1 != c2)
                                   ==> h[r1][c1] != h[r2][c2]
  {
    var s := BoxSeq(h, br, bc);
    forall r, c | InBox(br, bc, r, c)
      ensures h[r][c] == s[3 * (r - br) + (c - bc)]
    {
    }
    forall r1, c1, r2, c2 | InBox(br, bc, r1, c1) && InBox(br, bc, r2, c2) && (r1 != r2 || c1 != c2)
      ensures h[r1][c1] != h[r2][c2]
    {
      var i, j := 3 * (r1 - br) + (c1 - bc), 3 * (r2 - br) + (c2 - bc);
      if i < j {
        assert s[i] != s[j];
      } else {
        assert s[j] != s[i];
      }
    }
  }

  /**
   A grid that is empty outside the diagonal boxes and holds nine different
   digits in each of them breaks no rule: the diagonal boxes share no row,
   column or box.
   */
  lemma SeededGridConsistent(g: Grid)
    requires IsGrid(g)
    requires forall r, c :: InBoard(r, c) && !InDiagonalBox(r, c) ==> g[r][c].None?
    requires DistinctDigits(BoxSeq(g, 0, 0)) && DistinctDigits(BoxSeq(g, 3, 3)) && DistinctDigits(BoxSeq(g, 6, 6))
    ensures Consistent(g)
  {
    BoxDigitsDistinct(g, 0, 0);
    BoxDigitsDistinct(g, 3, 3);
    BoxDigitsDistinct(g, 6, 6);
    forall r1, c1, r2, c2 | InBoard(r1, c1) && InBoard(r2, c2) && Peers(r1, c1, r2, c2) && g[r1][c1].Some?
      ensures g[r2][c2] != g[r1][c1]
    {
      if g[r2][c2].Some? {
        assert InDiagonalBox(r1, c1) && InDiagonalBox(r2, c2);
      }
    }
  }

  // ---------------------------------------------------------------------
  // The generator
  // ---------------------------------------------------------------------

  /** Random draws for the three box shuffles, one Fisher-Yates draw list per box. */
  predicate ValidDraws(draws: seq<seq<int>>) {
    |draws| == 3 && forall k :: 0 <= k < 3 ==> ValidChoices(draws[k], 9)
  }

  /** Cell (r, c) lies in one of the diagonal boxes the seeding loop has filled before reaching `box`. */
  predicate SeededBefore(box: int, r: int, c: int) {
    || (0 < box && InBox(0, 0, r, c))
    || (3 < box && InBox(3, 3, r, c))
    || (6 < box && InBox(6, 6, r, c))
  }

  /**
   Seed the boxes at (0, 0), (3, 3) and (6, 6), in that order, each with
   its own shuffle of 1..9. Each of the three boxes ends up holding a
   permutation of 1..9; no other cell changes.
   */
  method FillDiagonalBoxes(g: Grid, draws: seq<seq<int>>) returns (h: Grid)
    requires IsGrid(g) && ValidDraws(draws)
    ensures IsGrid(h)
    ensures BoxHoldsAllDigits(h, 0, 0) && BoxHoldsAllDigits(h, 3, 3) && BoxHoldsAllDigits(h, 6, 6)
    ensures forall r, c :: InBoard(r, c) && !InDiagonalBox(r, c) ==> h[r][c] == g[r][c]
  {
    h := g;
    var box := 0;
    while box < 9
      invariant box == 0 || box == 3 || box == 6 || box == 9
      invariant IsGrid(h)
      invariant 0 < box ==> BoxHoldsAllDigits(h, 0, 0)
      invariant 3 < box ==> BoxHoldsAllDigits(h, 3, 3)
      invariant 6 < box ==> BoxHoldsAllDigits(h, 6, 6)
      invariant forall r, c :: InBoard(r, c) && !SeededBefore(box, r, c) ==> h[r][c] == g[r][c]
      decreases 9 - box
    {
      var next := FillBox(h, box, box, draws[box / 3]);
      if 0 < box {
        BoxSeqUntouched(h, next, 0, 0, box, box);
      }
      if 3 < box {
        BoxSeqUntouched(h, next, 3, 3, box, box);
      }
      h := next;
      box := box + 3;
    }
  }

  /** A grid empty outside the diagonal boxes is not full. */
  lemma SeedNotFull(seed: Grid)
    requires IsGrid(seed)
    requires forall r, c :: InBoard(r, c) && !InDiagonalBox(r, c) ==> seed[r][c].None?
    ensures !Full(seed)
  {
    assert InBoard(0, 3) && !InDiagonalBox(0, 3);
  }

  /**
   Running the completer on a legal grid that is not full: the result keeps
   every given cell, and is a legal complete sudoku exactly when the grid
   can be completed; otherwise it is the grid itself.
   */
  lemma CompleteLegalPartial(seed: Grid)
    requires IsGrid(seed) && Consistent(seed) && !Full(seed)
    ensures forall r, c :: InBoard(r, c) && seed[r][c].Some? ==> SolveSudoku(seed).1[r][c] == seed[r][c]
    ensures IsSolvedSudoku(SolveSudoku(seed).1) <==> Solvable(seed)
    ensures !Solvable(seed) ==> SolveSudoku(seed).1 == seed
  {
    SolveSudokuCorrect(seed);
  }

  /**
   Seed the diagonal boxes of an empty grid and run the completer on it.
   The seed (returned alongside, for the contract only) is a legal partial
   sudoku holding a permutation of 1..9 in each diagonal box and nothing
   elsewhere. The result keeps every seeded cell; it is a legal complete
   sudoku exactly when the seed can be completed, and otherwise it is the
   seed itself.
   */
  method GenerateCompleteSudoku(draws: seq<seq<int>>) returns (g: Grid, ghost seed: Grid)
    requires ValidDraws(draws)
    ensures IsGrid(seed) && IsGrid(g)
    ensures BoxHoldsAllDigits(seed, 0, 0) && BoxHoldsAllDigits(seed, 3, 3) && BoxHoldsAllDigits(seed, 6, 6)
    ensures forall r, c :: InBoard(r, c) && !InDiagonalBox(r, c) ==> seed[r][c].None?
    ensures Consistent(seed)
    ensures forall r, c :: InBoard(r, c) && seed[r][c].Some? ==> g[r][c] == seed[r][c]
    ensures IsSolvedSudoku(g) <==> Solvable(seed)
    ensures !Solvable(seed) ==> g == seed
  {
    var grid := EmptyGrid();
    grid := FillDiagonalBoxes(grid, draws);
    seed := grid;
    PermutationOfDigits(BoxSeq(seed, 0, 0));
    PermutationOfDigits(BoxSeq(seed, 3, 3));
    PermutationOfDigits(BoxSeq(seed, 6, 6));
    SeededGridConsistent(seed);
    SeedNotFull(seed);
    CompleteLegalPartial(seed);
    var solved := SolveSudoku(grid);
    g := solved.1;
  }
}
