/**
 The backtracking search of the bare-grid engine: the row-major completer
 `SolveSudoku` (with its undo of every failed tentative write) and the
 early-stopping completion counter `CountSolutionsRecursive`.

 Both are related to one reference definition, `Completions`, the list of
 every grid the search can reach, in the order the search reaches them.
 `IsCompletion` states independently which grids those are.
 */
module Backtrack {
  import opened SudokuTypes
  import opened Placement

  // ---------------------------------------------------------------------
  // Empty cells: the termination measure and the search order
  // ---------------------------------------------------------------------

  function EmptyInRow(row: seq<Digit>): nat {
    if |row| == 0 then 0 else (if row[0].None? then 1 else 0) + EmptyInRow(row[1..])
  }

  function EmptyInRows(g: Grid, r: int): nat
    requires IsGrid(g) && 0 <= r <= 9
    decreases 9 - r
  {
    if r == 9 then 0 else EmptyInRow(g[r]) + EmptyInRows(g, r + 1)
  }

  /** The number of empty cells of the grid. */
  function EmptyCount(g: Grid): nat
    requires IsGrid(g)
  {
    EmptyInRows(g, 0)
  }

  lemma {:induction false} EmptyInRowFill(row: seq<Digit>, c: int, d: int)
    requires 0 <= c < |row| && row[c].None?
    ensures EmptyInRow(row[c := Some(d)]) + 1 == EmptyInRow(row)
    decreases |row|
  {
    if c == 0 {
      assert row[c := Some(d)][1..] == row[1..];
    } else {
      EmptyInRowFill(row[1..], c - 1, d);
      assert row[c := Some(d)][1..] == row[1..][c - 1 := Some(d)];
    }
  }

  lemma {:induction false} EmptyInRowsFill(g: Grid, r: int, r0: int, c0: int, d: int)
    requires IsGrid(g) && InBoard(r0, c0) && g[r0][c0].None? && 0 <= r <= 9
    ensures r <= r0 ==> EmptyInRows(Put(g, r0, c0, Some(d)), r) + 1 == EmptyInRows(g, r)
    ensures r > r0 ==> EmptyInRows(Put(g, r0, c0, Some(d)), r) == EmptyInRows(g, r)
    decreases 9 - r
  {
    var h := Put(g, r0, c0, Some(d));
    if r < 9 {
      EmptyInRowsFill(g, r + 1, r0, c0, d);
      if r == r0 {
        assert h[r] == g[r][c0 := Some(d)];
        EmptyInRowFill(g[r], c0, d);
      } else {
        assert h[r] == g[r];
      }
    }
  }

  /** Filling one empty cell removes exactly one empty cell: the search's termination measure. */
  lemma EmptyCountFill(g: Grid, r: int, c: int, d: int)
    requires IsGrid(g) && InBoard(r, c) && g[r][c].None?
    ensures EmptyCount(Put(g, r, c, Some(d))) + 1 == EmptyCount(g)
  {
    EmptyInRowsFill(g, 0, r, c, d);
  }

  /** Every cell holds a number. */
  predicate Full(g: Grid)
    requires IsGrid(g)
  {
    forall r, c :: 0 <= r < 9 && 0 <= c < 9 ==> g[r][c].Some?
  }

  /** Row-major index k names the cell (k / 9, k % 9), and no other cell. */
  lemma RowMajorCell(k: int)
    requires 0 <= k < 81
    ensures InBoard(k / 9, k % 9) && 9 * (k / 9) + k % 9 == k
    ensures forall r, c :: InBoard(r, c) && 9 * r + c == k ==> r == k / 9 && c == k % 9
  {
  }

  /** The first empty cell at row-major index k or later, if any. */
  function FirstEmptyFrom(g: Grid, k: int): (p: Option<Pos>)
    requires IsGrid(g) && 0 <= k <= 81
    ensures p.None? ==> forall r, c :: InBoard(r, c) && k <= 9 * r + c ==> g[r][c].Some?
    ensures p.Some? ==> ValidPos(p.value) && g[p.value.row][p.value.col].None?
                        && k <= 9 * p.value.row + p.value.col
                        && forall r, c :: InBoard(r, c) && k <= 9 * r + c < 9 * p.value.row + p.value.col
                                          ==> g[r][c].Some?
    decreases 81 - k
  {
    if k == 81 then None
    else
      RowMajorCell(k);
      if g[k / 9][k % 9].None? then Some(Pos(k / 9, k % 9))
      else FirstEmptyFrom(g, k + 1)
  }

  /** The first empty cell in row-major order, which is where both searches branch. */
  function FirstEmpty(g: Grid): (p: Option<Pos>)
    requires IsGrid(g)
    ensures p.None? <==> Full(g)
    ensures p.Some? ==> ValidPos(p.value) && g[p.value.row][p.value.col].None?
    ensures p.Some? ==> forall r, c :: InBoard(r, c) && 9 * r + c < 9 * p.value.row + p.value.col
                                       ==> g[r][c].Some?
  {
    FirstEmptyFrom(g, 0)
  }

  // ---------------------------------------------------------------------
  // The reference: which grids complete a partial grid
  // ---------------------------------------------------------------------

  /**
   The cell (r, c) of `s` holds a digit 1..9 that no other cell of its row,
   column or box repeats.
   */
  ghost predicate Fits(s: Grid, r: int, c: int)
    requires IsGrid(s) && InBoard(r, c)
  {
    && s[r][c].Some?
    && 1 <= s[r][c].value <= 9
    && forall r2, c2 :: InBoard(r2, c2) && Peers(r, c, r2, c2) ==> s[r2][c2] != s[r][c]
  }

  /**
   `s` completes `g`: it keeps every filled cell of `g`, and every cell that
   is empty in `g` holds a digit that clashes with nothing else in `s`.
   These are exactly the grids the search builds by writing, in row-major
   order, digits that `IsValidPlacement` admits at the moment of writing.
   */
  ghost predicate IsCompletion(g: Grid, s: Grid)
    requires IsGrid(g)
  {
    && IsGrid(s)
    && (forall r, c :: InBoard(r, c) && g[r][c].Some? ==> s[r][c] == g[r][c])
    && (forall r, c :: InBoard(r, c) && g[r][c].None? ==> Fits(s, r, c))
  }

  /** Every completion of `g`, in the order the row-major search finds them. */
  ghost function Completions(g: Grid): seq<Grid>
    requires IsGrid(g)
    decreases EmptyCount(g), 1, 0
  {
    match FirstEmpty(g)
    case None => [g]
    case Some(p) => CompletionsFrom(g, p, 1)
  }

  /** The completions of `g` that put a digit n or larger at the empty cell p. */
  ghost function CompletionsFrom(g: Grid, p: Pos, n: int): seq<Grid>
    requires IsGrid(g) && ValidPos(p) && g[p.row][p.col].None? && 1 <= n <= 10
    decreases EmptyCount(g), 0, 10 - n
  {
    if n > 9 then []
    else
      var here := if IsValidPlacement(g, p.row, p.col, n) then
                    EmptyCountFill(g, p.row, p.col, n);
                    Completions(Put(g, p.row, p.col, Some(n)))
                  else [];
      here + CompletionsFrom(g, p, n + 1)
  }

  /** Writing a valid digit d at an empty cell: the completions afterwards are those of before that hold d there. */
  lemma PlaceStep(g: Grid, p: Pos, d: int, s: Grid)
    requires IsGrid(g) && ValidPos(p) && g[p.row][p.col].None? && 1 <= d <= 9
    requires IsValidPlacement(g, p.row, p.col, d)
    ensures IsCompletion(Put(g, p.row, p.col, Some(d)), s) <==> IsCompletion(g, s) && s[p.row][p.col] == Some(d)
  {
    var h := Put(g, p.row, p.col, Some(d));
    IsValidPlacementMeaning(g, p.row, p.col, d);
    if IsCompletion(h, s) {
      assert s[p.row][p.col] == Some(d);
      forall r, c | InBoard(r, c) && g[r][c].None?
        ensures Fits(s, r, c)
      {
        if r == p.row && c == p.col {
          forall r2, c2 | InBoard(r2, c2) && Peers(r, c, r2, c2)
            ensures s[r2][c2] != s[r][c]
          {
            if g[r2][c2].None? {
              assert h[r2][c2].None?;
              assert Fits(s, r2, c2);
              assert Peers(r2, c2, r, c);
            }
          }
        } else {
          assert h[r][c].None?;
        }
      }
    }
    if IsCompletion(g, s) && s[p.row][p.col] == Some(d) {
      forall r, c | InBoard(r, c) && h[r][c].None?
        ensures Fits(s, r, c)
      {
        assert g[r][c].None?;
      }
    }
  }

  /** Whatever a completion holds at an empty cell is a digit the placement check admits there. */
  lemma CompletionDigitIsValid(g: Grid, p: Pos, s: Grid)
    requires IsGrid(g) && ValidPos(p) && g[p.row][p.col].None? && IsCompletion(g, s)
    ensures s[p.row][p.col].Some? && 1 <= s[p.row][p.col].value <= 9
    ensures IsValidPlacement(g, p.row, p.col, s[p.row][p.col].value)
  {
    assert Fits(s, p.row, p.col);
    var d := s[p.row][p.col].value;
    IsValidPlacementMeaning(g, p.row, p.col, d);
    forall r, c | InBoard(r, c) && SameUnit(p.row, p.col, r, c)
      ensures g[r][c] != Some(d)
    {
      if g[r][c].Some? {
        assert s[r][c] == g[r][c];
      }
    }
  }

  /** A full grid completes only to itself. */
  lemma FullCompletion(g: Grid, s: Grid)
    requires IsGrid(g) && Full(g)
    ensures IsCompletion(g, s) <==> s == g
  {
    if IsCompletion(g, s) {
      GridExtensionality(g, s);
    }
  }

  /** The search list holds exactly the completions of `g`. */
  lemma {:induction false} CompletionsExact(g: Grid, s: Grid)
    requires IsGrid(g)
    ensures s in Completions(g) <==> IsCompletion(g, s)
    decreases EmptyCount(g), 1, 0
  {
    match FirstEmpty(g)
    case None =>
      FullCompletion(g, s);
    case Some(p) =>
      CompletionsFromExact(g, p, 1, s);
      if IsCompletion(g, s) {
        CompletionDigitIsValid(g, p, s);
      }
  }

  lemma {:induction false} CompletionsFromExact(g: Grid, p: Pos, n: int, s: Grid)
    requires IsGrid(g) && ValidPos(p) && g[p.row][p.col].None? && 1 <= n <= 10
    ensures s in CompletionsFrom(g, p, n) <==>
            IsCompletion(g, s) && n <= s[p.row][p.col].value
    decreases EmptyCount(g), 0, 10 - n
  {
    if n <= 9 {
      CompletionsFromExact(g, p, n + 1, s);
      if IsCompletion(g, s) {
        CompletionDigitIsValid(g, p, s);
      }
      if IsValidPlacement(g, p.row, p.col, n) {
        var h := Put(g, p.row, p.col, Some(n));
        EmptyCountFill(g, p.row, p.col, n);
        CompletionsExact(h, s);
        PlaceStep(g, p, n, s);
      } else if IsCompletion(g, s) && s[p.row][p.col] == Some(n) {
        assert false;
      }
    } else if IsCompletion(g, s) {
      CompletionDigitIsValid(g, p, s);
    }
  }

  ghost predicate NoDuplicates(ss: seq<Grid>) {
    forall i, j :: 0 <= i < j < |ss| ==> ss[i] != ss[j]
  }

  lemma NoDuplicatesConcat(a: seq<Grid>, b: seq<Grid>)
    requires NoDuplicates(a) && NoDuplicates(b)
    requires forall x, y :: x in a && y in b ==> x != y
    ensures NoDuplicates(a + b)
  {
    forall i, j | 0 <= i < j < |a + b|
      ensures (a + b)[i] != (a + b)[j]
    {
      if j < |a| {
      } else if i < |a| {
        assert (a + b)[i] in a && (a + b)[j] in b;
      } else {
        assert (a + b)[i] == b[i - |a|] && (a + b)[j] == b[j - |a|];
      }
    }
  }

  /** The search never reaches the same completion twice. */
  lemma {:induction false} CompletionsDistinct(g: Grid)
    requires IsGrid(g)
    ensures NoDuplicates(Completions(g))
    decreases EmptyCount(g), 1, 0
  {
    match FirstEmpty(g)
    case None =>
    case Some(p) =>
      CompletionsFromDistinct(g, p, 1);
  }

  lemma {:induction false} CompletionsFromDistinct(g: Grid, p: Pos, n: int)
    requires IsGrid(g) && ValidPos(p) && g[p.row][p.col].None? && 1 <= n <= 10
    ensures NoDuplicates(CompletionsFrom(g, p, n))
    decreases EmptyCount(g), 0, 10 - n
  {
    if n <= 9 {
      CompletionsFromDistinct(g, p, n + 1);
      if IsValidPlacement(g, p.row, p.col, n) {
        var h := Put(g, p.row, p.col, Some(n));
        EmptyCountFill(g, p.row, p.col, n);
        CompletionsDistinct(h);
        var rest := CompletionsFrom(g, p, n + 1);
        forall x, y | x in Completions(h) && y in rest
          ensures x != y
        {
          CompletionsExact(h, x);
          PlaceStep(g, p, n, x);
          CompletionsFromExact(g, p, n + 1, y);
        }
        NoDuplicatesConcat(Completions(h), rest);
      } else {
        assert CompletionsFrom(g, p, n) == [] + CompletionsFrom(g, p, n + 1);
      }
    }
  }

  // ---------------------------------------------------------------------
  // The completer
  // ---------------------------------------------------------------------

  /**
   The backtracking completer. The application works in place and reports
   success; here the grid is threaded through explicitly and returned with
   the flag. On success the grid is the first completion in search order;
   on failure every tentative write has been undone, so the grid is the
   input exactly.
   */
  function SolveSudoku(g: Grid): (res: (bool, Grid))
    requires IsGrid(g)
    ensures IsGrid(res.1)
    ensures res.0 <==> |Completions(g)| > 0
    ensures res.0 ==> res.1 == Completions(g)[0]
    ensures !res.0 ==> res.1 == g
    decreases EmptyCount(g), 1, 0
  {
    match FirstEmpty(g)
    case None => (true, g)
    case Some(p) => TryDigits(g, p, 1)
  }

  /** The digit loop at the first empty cell p, from digit n upwards. */
  function TryDigits(g: Grid, p: Pos, n: int): (res: (bool, Grid))
    requires IsGrid(g) && ValidPos(p) && g[p.row][p.col].None? && 1 <= n <= 10
    ensures IsGrid(res.1)
    ensures res.0 <==> |CompletionsFrom(g, p, n)| > 0
    ensures res.0 ==> res.1 == CompletionsFrom(g, p, n)[0]
    ensures !res.0 ==> res.1 == g
    decreases EmptyCount(g), 0, 10 - n
  {
    if n > 9 then (false, g)
    else if IsValidPlacement(g, p.row, p.col, n) then
      EmptyCountFill(g, p.row, p.col, n);
      var placed := Put(g, p.row, p.col, Some(n));
      var (ok, after) := SolveSudoku(placed);
      ghost var here := Completions(placed);
      assert CompletionsFrom(g, p, n) == here + CompletionsFrom(g, p, n + 1);
      if ok then
        assert (here + CompletionsFrom(g, p, n + 1))[0] == here[0];
        (true, after)
      else
        // the tentative write is undone before the next digit is tried
        PutRestores(g, p.row, p.col, Some(n));
        TryDigits(Put(after, p.row, p.col, None), p, n + 1)
    else
      assert CompletionsFrom(g, p, n) == [] + CompletionsFrom(g, p, n + 1);
      TryDigits(g, p, n + 1)
  }

  // ---------------------------------------------------------------------
  // The counter
  // ---------------------------------------------------------------------

  /** Counts up to two: every count of two or more means "several". */
  function Cap(x: nat): nat {
    if x >= 2 then 2 else x
  }

  /** The arithmetic of the counter's early return. */
  lemma CapStepStop(solutions: nat, sub: nat, here: nat, whole: nat)
    requires Cap(sub) == Cap(here) && solutions + sub > 1 && here <= whole
    ensures Cap(solutions + sub) == Cap(solutions + whole)
  {
  }

  /** The arithmetic of the counter's move to the next digit. */
  lemma CapStepContinue(solutions: nat, sub: nat, here: nat, later: nat, whole: nat, count: nat)
    requires Cap(sub) == Cap(here) && solutions + sub <= 1 && whole == here + later
    requires Cap(count) == Cap(solutions + sub + later)
    ensures Cap(count) == Cap(solutions + whole)
  {
  }

  /**
   The completion counter. It stops as soon as its running count exceeds
   one, so its result is the exact number of completions when that number
   is 0 or 1, and some number of at least 2 otherwise.
   */
  function CountSolutionsRecursive(g: Grid): (count: nat)
    requires IsGrid(g)
    ensures Cap(count) == Cap(|Completions(g)|)
    decreases EmptyCount(g), 1, 0
  {
    match FirstEmpty(g)
    case None => 1
    case Some(p) => CountFrom(g, p, 1, 0)
  }

  /** One step of the digit loop's completion list: the digit n contributes the completions after writing it, if it is admitted. */
  lemma CompletionsFromStep(g: Grid, p: Pos, n: int)
    requires IsGrid(g) && ValidPos(p) && g[p.row][p.col].None? && 1 <= n <= 9
    ensures IsValidPlacement(g, p.row, p.col, n) ==>
              EmptyCount(Put(g, p.row, p.col, Some(n))) < EmptyCount(g) &&
              |CompletionsFrom(g, p, n)| == |Completions(Put(g, p.row, p.col, Some(n)))| + |CompletionsFrom(g, p, n + 1)|
    ensures !IsValidPlacement(g, p.row, p.col, n) ==>
              |CompletionsFrom(g, p, n)| == |CompletionsFrom(g, p, n + 1)|
  {
    EmptyCountFill(g, p.row, p.col, n);
  }

  /** The digit loop of the counter at the empty cell p, with running count `solutions`. */
  function CountFrom(g: Grid, p: Pos, n: int, solutions: nat): (count: nat)
    requires IsGrid(g) && ValidPos(p) && g[p.row][p.col].None? && 1 <= n <= 10
    ensures Cap(count) == Cap(solutions + |CompletionsFrom(g, p, n)|)
    decreases EmptyCount(g), 0, 10 - n
  {
    if n > 9 then
      assert |CompletionsFrom(g, p, n)| == 0;
      solutions
    else if IsValidPlacement(g, p.row, p.col, n) then
      CompletionsFromStep(g, p, n);
      var placed := Put(g, p.row, p.col, Some(n));
      var sub := CountSolutionsRecursive(placed);
      var total := solutions + sub;
      if total > 1 then
        CapStepStop(solutions, sub, |Completions(placed)|, |CompletionsFrom(g, p, n)|);
        total
      else
        var count := CountFrom(g, p, n + 1, total);
        CapStepContinue(solutions, sub, |Completions(placed)|, |CompletionsFrom(g, p, n + 1)|,
                        |CompletionsFrom(g, p, n)|, count);
        count
    else
      CompletionsFromStep(g, p, n);
      CountFrom(g, p, n + 1, solutions)
  }

  /** A copy of the grid, cell by cell; in a value model it equals its input. */
  function CopyGrid(g: Grid): (h: Grid)
    requires IsGrid(g)
    ensures h == g
  {
    var h := seq(9, r requires 0 <= r < 9 => seq(9, c requires 0 <= c < 9 => g[r][c]));
    GridExtensionality(h, g);
    h
  }

  /** The counter run on a copy, so the caller's grid is not touched. */
  function CountSolutions(g: Grid): (count: nat)
    requires IsGrid(g)
    ensures Cap(count) == Cap(|Completions(g)|)
  {
    CountSolutionsRecursive(CopyGrid(g))
  }

  // ---------------------------------------------------------------------
  // What the completer and the counter mean for sudoku
  // ---------------------------------------------------------------------

  /** Every number on the grid is a digit 1..9 and no two cells that share a unit hold the same one. */
  ghost predicate Consistent(g: Grid)
    requires IsGrid(g)
  {
    && (forall r, c :: InBoard(r, c) && g[r][c].Some? ==> 1 <= g[r][c].value <= 9)
    && (forall r1, c1, r2, c2 :: InBoard(r1, c1) && InBoard(r2, c2) && Peers(r1, c1, r2, c2) && g[r1][c1].Some?
                                ==> g[r2][c2] != g[r1][c1])
  }

  /** A legal, completely filled sudoku. */
  ghost predicate IsSolvedSudoku(g: Grid)
    requires IsGrid(g)
  {
    Full(g) && Consistent(g)
  }

  /** Completing a consistent grid gives a legal sudoku. */
  lemma CompletionIsSolved(g: Grid, s: Grid)
    requires IsGrid(g) && Consistent(g) && IsCompletion(g, s)
    ensures IsSolvedSudoku(s)
  {
    forall r1, c1, r2, c2 | InBoard(r1, c1) && InBoard(r2, c2) && Peers(r1, c1, r2, c2) && s[r1][c1].Some?
      ensures s[r2][c2] != s[r1][c1]
    {
      if g[r1][c1].None? {
        assert Fits(s, r1, c1);
      } else if g[r2][c2].None? {
        assert Fits(s, r2, c2);
        assert Peers(r2, c2, r1, c1);
      }
    }
    forall r, c | InBoard(r, c)
      ensures s[r][c].Some? && 1 <= s[r][c].value <= 9
    {
      if g[r][c].None? {
        assert Fits(s, r, c);
      }
    }
  }

  /** A legal sudoku completes every grid obtained from it by clearing cells. */
  lemma SolvedCompletesItsClues(g: Grid, s: Grid)
    requires IsGrid(g) && IsGrid(s) && IsSolvedSudoku(s)
    requires forall r, c :: InBoard(r, c) && g[r][c].Some? ==> g[r][c] == s[r][c]
    ensures IsCompletion(g, s)
  {
    forall r, c | InBoard(r, c) && g[r][c].None?
      ensures Fits(s, r, c)
    {
      assert s[r][c].Some?;
    }
  }

  /**
   The completer succeeds exactly when the grid has a completion, and then
   returns one: a full grid keeping every given number, each written digit
   having passed the placement check. A consistent grid is completed to a
   legal sudoku. On failure the grid is returned untouched.
   */
  lemma SolveSudokuCorrect(g: Grid)
    requires IsGrid(g)
    ensures SolveSudoku(g).0 <==> Solvable(g)
    ensures SolveSudoku(g).0 ==> IsCompletion(g, SolveSudoku(g).1) && Full(SolveSudoku(g).1)
    ensures SolveSudoku(g).0 && Consistent(g) ==> IsSolvedSudoku(SolveSudoku(g).1)
    ensures !SolveSudoku(g).0 ==> SolveSudoku(g).1 == g
  {
    var (ok, out) := SolveSudoku(g);
    CompletionListMeaning(g);
    if ok {
      CompletionsExact(g, Completions(g)[0]);
      CompletionIsFull(g, out);
      if Consistent(g) {
        CompletionIsSolved(g, out);
      }
    }
  }

  /** A completion leaves no cell empty. */
  lemma CompletionIsFull(g: Grid, s: Grid)
    requires IsGrid(g) && IsCompletion(g, s)
    ensures Full(s)
  {
    forall r, c | InBoard(r, c)
      ensures s[r][c].Some?
    {
      if g[r][c].None? {
        assert Fits(s, r, c);
      }
    }
  }

  /** All completions of `g`, as a collection. */
  ghost function CompletionSet(g: Grid): iset<Grid>
    requires IsGrid(g)
  {
    iset s | IsCompletion(g, s)
  }

  /** `C` has exactly one member. */
  ghost predicate IsSingleton(C: iset<Grid>) {
    exists s :: s in C && forall t :: t in C ==> t == s
  }

  /** `C` has two different members. */
  ghost predicate HasTwo(C: iset<Grid>) {
    exists s, t :: s in C && t in C && s != t
  }

  /** The grid has at least one completion. */
  ghost predicate Solvable(g: Grid)
    requires IsGrid(g)
  {
    exists s :: s in CompletionSet(g)
  }

  /** The grid has exactly one completion. */
  ghost predicate UniquelySolvable(g: Grid)
    requires IsGrid(g)
  {
    IsSingleton(CompletionSet(g))
  }

  /** The grid has two different completions. */
  ghost predicate Ambiguous(g: Grid)
    requires IsGrid(g)
  {
    HasTwo(CompletionSet(g))
  }

  /** A duplicate-free list with at least two entries holds two different elements. */
  lemma FirstTwoDiffer(all: seq<Grid>)
    requires NoDuplicates(all) && |all| >= 2
    ensures all[0] != all[1]
  {
  }

  /**
   How the length of a duplicate-free list relates to the collection `C`
   whose members it lists: empty, a singleton, or at least two elements.
   */
  lemma ListedCollection(all: seq<Grid>, C: iset<Grid>)
    requires NoDuplicates(all)
    requires forall s :: s in all <==> s in C
    ensures |all| == 0 <==> !exists s :: s in C
    ensures |all| == 1 <==> IsSingleton(C)
    ensures |all| >= 2 <==> HasTwo(C)
  {
    if |all| > 0 {
      assert all[0] in C;
    }
    if |all| == 1 {
      assert forall t :: t in C ==> t == all[0];
    }
    if |all| >= 2 {
      FirstTwoDiffer(all);
      assert all[0] in C && all[1] in C;
    } else {
      forall s, t | s in C && t in C
        ensures s == t
      {
        assert s in all && t in all;
      }
    }
  }

  /**
   The completion list is empty exactly when the grid has no completion,
   has one entry exactly when the completion is unique, and two or more
   exactly when there are two different completions.
   */
  lemma CompletionListMeaning(g: Grid)
    requires IsGrid(g)
    ensures |Completions(g)| == 0 <==> !Solvable(g)
    ensures |Completions(g)| == 1 <==> UniquelySolvable(g)
    ensures |Completions(g)| >= 2 <==> Ambiguous(g)
  {
    var C := CompletionSet(g);
    CompletionsDistinct(g);
    forall s
      ensures s in Completions(g) <==> s in C
    {
      CompletionsExact(g, s);
    }
    ListedCollection(Completions(g), C);
  }

  /** Two numbers with the same cap agree on being 0, 1, or at least 2. */
  lemma CapAgrees(a: nat, b: nat)
    requires Cap(a) == Cap(b)
    ensures a == 0 <==> b == 0
    ensures a == 1 <==> b == 1
    ensures a >= 2 <==> b >= 2
  {
  }

  /**
   The counter's verdicts: 0 means the grid has no completion, 1 means it
   has exactly one, 2 or more means it has at least two different ones.
   A full grid counts as one.
   */
  lemma CountSolutionsMeaning(g: Grid)
    requires IsGrid(g)
    ensures CountSolutions(g) == 0 <==> !Solvable(g)
    ensures CountSolutions(g) == 1 <==> UniquelySolvable(g)
    ensures CountSolutions(g) >= 2 <==> Ambiguous(g)
    ensures Full(g) ==> CountSolutions(g) == 1
  {
    CompletionListMeaning(g);
    CapAgrees(CountSolutions(g), |Completions(g)|);
    if Full(g) {
      assert Completions(g) == [g];
    }
  }

  /**
   An empty cell at which no digit passes the placement check makes the
   count 0, wherever that cell is.
   */
  lemma DeadCellCountsZero(g: Grid, p: Pos)
    requires IsGrid(g) && ValidPos(p) && g[p.row][p.col].None?
    requires forall d :: 1 <= d <= 9 ==> !IsValidPlacement(g, p.row, p.col, d)
    ensures CountSolutions(g) == 0
  {
    forall s | IsCompletion(g, s)
      ensures false
    {
      CompletionDigitIsValid(g, p, s);
    }
    CountSolutionsMeaning(g);
  }
}
