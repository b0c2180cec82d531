/**
 Naked pairs, the strategy of steps 1 and 4 of the solver's cycle. Along
 each row, a two-digit set of marks carried by exactly two unresolved cells
 is a pair; each pair in turn, in order of first occurrence, is struck from
 the marks of every other unresolved cell of the row.
 */
module Pairs {
  import opened SudokuTypes
  import opened CellState
  import opened IntSets

  /** A cell the pair scan looks at: unresolved, with exactly two marks. */
  predicate TwoMarks(cell: Cell) {
    Unresolved(cell) && |cell.pencils| == 2
  }

  /** Indices below k of the two-mark cells whose marks are exactly `p`. */
  function Occurrences(cells: seq<Cell>, p: set<int>, k: int): set<int>
    requires 0 <= k <= |cells|
  {
    set i | 0 <= i < k && TwoMarks(cells[i]) && cells[i].pencils == p
  }

  /** `p` is a naked pair of the row: exactly two two-mark cells carry exactly these marks. */
  predicate IsNakedPair(cells: seq<Cell>, p: set<int>) {
    |Occurrences(cells, p, |cells|)| == 2
  }

  /** No set occurs twice in the sequence. */
  predicate Distinct(keys: seq<set<int>>) {
    forall a, b :: 0 <= a < b < |keys| ==> keys[a] != keys[b]
  }

  /** The pair scan so far: the mark sets seen, in order of first occurrence, and how often each was seen. */
  datatype PairTally = PairTally(keys: seq<set<int>>, count: map<set<int>, int>)

  /** The scan's entry for `p` agrees with the occurrences of `p` among the first k cells. */
  ghost predicate KeyTallied(t: PairTally, cells: seq<Cell>, k: int, p: set<int>)
    requires 0 <= k <= |cells|
  {
    && (p in t.keys <==> p in t.count)
    && (p in t.count <==> Occurrences(cells, p, k) != {})
    && (p in t.count ==> t.count[p] == |Occurrences(cells, p, k)|)
  }

  /** The index of the first two-mark cell below k whose marks are exactly `p`, or k when there is none. */
  function FirstOf(cells: seq<Cell>, p: set<int>, k: int): (i: int)
    requires 0 <= k <= |cells|
    ensures Occurrences(cells, p, k) == {} ==> i == k
    ensures Occurrences(cells, p, k) != {} ==>
              i in Occurrences(cells, p, k) && forall j :: j in Occurrences(cells, p, k) ==> i <= j
  {
    var occ := Occurrences(cells, p, k);
    if occ == {} then k else MinOf(occ)
  }

  /** The keys are listed in the order in which they first occur among the first k cells. */
  ghost predicate InFirstOrder(keys: seq<set<int>>, cells: seq<Cell>, k: int)
    requires 0 <= k <= |cells|
  {
    forall a, b :: 0 <= a < b < |keys| ==> FirstOf(cells, keys[a], k) < FirstOf(cells, keys[b], k)
  }

  /** The scan agrees with the first k cells. */
  ghost predicate PairTallyOf(t: PairTally, cells: seq<Cell>, k: int)
    requires 0 <= k <= |cells|
  {
    Distinct(t.keys) && InFirstOrder(t.keys, cells, k) && forall p :: KeyTallied(t, cells, k, p)
  }

  /** Extending the scan by one cell adds that cell to the occurrences of its own marks only. */
  lemma OccurrencesStep(cells: seq<Cell>, p: set<int>, k: int)
    requires 0 <= k < |cells|
    ensures k !in Occurrences(cells, p, k)
    ensures Occurrences(cells, p, k + 1) ==
            Occurrences(cells, p, k) + (if TwoMarks(cells[k]) && cells[k].pencils == p then {k} else {})
  {
  }

  /** One more cell leaves a first occurrence where it was, or makes the cell itself the first. */
  lemma FirstStep(cells: seq<Cell>, p: set<int>, k: int)
    requires 0 <= k < |cells|
    ensures Occurrences(cells, p, k) != {} ==> FirstOf(cells, p, k + 1) == FirstOf(cells, p, k) < k
    ensures Occurrences(cells, p, k) == {} && TwoMarks(cells[k]) && cells[k].pencils == p ==> FirstOf(cells, p, k + 1) == k
  {
    OccurrencesStep(cells, p, k);
  }

  /** Count one more two-mark cell: bump its mark set, appending it to the keys the first time. */
  function AddPair(t: PairTally, cell: Cell): PairTally
    requires forall p :: p in t.keys ==> p in t.count
  {
    if cell.pencils in t.count then PairTally(t.keys, t.count[cell.pencils := t.count[cell.pencils] + 1])
    else PairTally(t.keys + [cell.pencils], t.count[cell.pencils := 1])
  }

  /** One scan step keeps the entry for one mark set in agreement with its occurrences. */
  lemma PairScanStepKey(t: PairTally, cells: seq<Cell>, k: int, p: set<int>)
    requires 0 <= k < |cells| && (forall q :: q in t.keys ==> q in t.count) && KeyTallied(t, cells, k, p)
    ensures !TwoMarks(cells[k]) ==> KeyTallied(t, cells, k + 1, p)
    ensures TwoMarks(cells[k]) ==> KeyTallied(AddPair(t, cells[k]), cells, k + 1, p)
  {
    OccurrencesStep(cells, p, k);
  }

  /** One scan step keeps the scan in agreement with the cells. */
  lemma PairScanStep(t: PairTally, cells: seq<Cell>, k: int)
    requires 0 <= k < |cells| && PairTallyOf(t, cells, k)
    ensures forall q :: q in t.keys ==> q in t.count
    ensures !TwoMarks(cells[k]) ==> PairTallyOf(t, cells, k + 1)
    ensures TwoMarks(cells[k]) ==> PairTallyOf(AddPair(t, cells[k]), cells, k + 1)
  {
    assert forall q :: q in t.keys ==> KeyTallied(t, cells, k, q);
    var next := if TwoMarks(cells[k]) then AddPair(t, cells[k]) else t;
    forall p {:trigger KeyTallied(next, cells, k + 1, p)}
      ensures KeyTallied(next, cells, k + 1, p)
    {
      PairScanStepKey(t, cells, k, p);
    }
    if TwoMarks(cells[k]) && cells[k].pencils !in t.count {
      assert KeyTallied(t, cells, k, cells[k].pencils);
    }
    forall a, b | 0 <= a < b < |next.keys|
      ensures FirstOf(cells, next.keys[a], k + 1) < FirstOf(cells, next.keys[b], k + 1)
    {
      assert next.keys[a] == t.keys[a] && KeyTallied(t, cells, k, t.keys[a]);
      FirstStep(cells, t.keys[a], k);
      if b < |t.keys| {
        assert next.keys[b] == t.keys[b] && KeyTallied(t, cells, k, t.keys[b]);
        FirstStep(cells, t.keys[b], k);
      } else {
        assert next.keys[b] == cells[k].pencils && KeyTallied(t, cells, k, cells[k].pencils);
        FirstStep(cells, cells[k].pencils, k);
      }
    }
  }

  /**
   The counting loop of the pair scan over the first k cells: each
   two-mark unresolved cell bumps the count of its mark set, which is
   appended to the keys the first time it is seen. The keys end up listed
   once each, in order of first occurrence, which is the order in which
   JavaScript enumerates a record's non-numeric keys.
   */
  function ScanPairs(cells: seq<Cell>, k: int): (t: PairTally)
    requires 0 <= k <= |cells|
    ensures PairTallyOf(t, cells, k)
  {
    if k == 0 then PairTally([], map[])
    else
      var t := ScanPairs(cells, k - 1);
      PairScanStep(t, cells, k - 1);
      if !TwoMarks(cells[k - 1]) then t else AddPair(t, cells[k - 1])
  }

  /** The keys seen exactly twice, in their original order. */
  function KeepTwice(keys: seq<set<int>>, count: map<set<int>, int>): (kept: seq<set<int>>)
    requires forall p :: p in keys ==> p in count
    ensures forall p :: p in kept <==> p in keys && count[p] == 2
    ensures Distinct(keys) ==> Distinct(kept)
  {
    if |keys| == 0 then []
    else
      var rest := KeepTwice(keys[1..], count);
      assert forall p :: p in keys[1..] ==> p in keys;
      if count[keys[0]] == 2 then [keys[0]] + rest else rest
  }

  /** Keeping some of the keys keeps them in first-occurrence order. */
  lemma {:induction false} KeepTwiceInOrder(keys: seq<set<int>>, count: map<set<int>, int>, cells: seq<Cell>, k: int)
    requires forall p :: p in keys ==> p in count
    requires 0 <= k <= |cells| && InFirstOrder(keys, cells, k)
    ensures InFirstOrder(KeepTwice(keys, count), cells, k)
  {
    if |keys| > 0 {
      var rest := keys[1..];
      assert forall p :: p in rest ==> p in keys;
      assert InFirstOrder(rest, cells, k) by {
        forall a, b | 0 <= a < b < |rest|
          ensures FirstOf(cells, rest[a], k) < FirstOf(cells, rest[b], k)
        {
          assert rest[a] == keys[a + 1] && rest[b] == keys[b + 1];
        }
      }
      KeepTwiceInOrder(rest, count, cells, k);
      var kept := KeepTwice(rest, count);
      forall b | 0 <= b < |kept|
        ensures FirstOf(cells, keys[0], k) < FirstOf(cells, kept[b], k)
      {
        assert kept[b] in rest;
        var j :| 0 <= j < |rest| && rest[j] == kept[b];
        assert keys[j + 1] == kept[b];
      }
    }
  }

  /** After the full scan, the keys counted twice are exactly the naked pairs, and each has two marks. */
  lemma ScanPairsMeaning(cells: seq<Cell>)
    ensures forall p :: p in ScanPairs(cells, |cells|).keys ==> p in ScanPairs(cells, |cells|).count
    ensures forall p :: p in ScanPairs(cells, |cells|).keys && ScanPairs(cells, |cells|).count[p] == 2 <==>
                        IsNakedPair(cells, p)
    ensures forall p :: IsNakedPair(cells, p) ==> |p| == 2
  {
    var t := ScanPairs(cells, |cells|);
    forall p
      ensures p in t.keys ==> p in t.count
      ensures p in t.keys && t.count[p] == 2 <==> IsNakedPair(cells, p)
      ensures IsNakedPair(cells, p) ==> |p| == 2
    {
      assert KeyTallied(t, cells, |cells|, p);
      var occ := Occurrences(cells, p, |cells|);
      if IsNakedPair(cells, p) {
        Inhabited(occ);
        var i :| i in occ;
      }
    }
  }

  /**
   The naked pairs of a row, each once, in order of first occurrence: the
   mark sets of exactly two unresolved two-mark cells.
   */
  function GetPencilPairs(cells: seq<Cell>): (pairs: seq<set<int>>)
    ensures Distinct(pairs)
    ensures forall p :: p in pairs <==> IsNakedPair(cells, p)
    ensures forall p :: p in pairs ==> |p| == 2
    ensures InFirstOrder(pairs, cells, |cells|)
  {
    ScanPairsMeaning(cells);
    var t := ScanPairs(cells, |cells|);
    KeepTwiceInOrder(t.keys, t.count, cells, |cells|);
    KeepTwice(t.keys, t.count)
  }

  /** A list in first-occurrence order holds each key once. */
  lemma InFirstOrderDistinct(keys: seq<set<int>>, cells: seq<Cell>, k: int)
    requires 0 <= k <= |cells| && InFirstOrder(keys, cells, k)
    ensures Distinct(keys)
  {
  }

  /** A non-empty list has a member: its first entry. */
  lemma HeadIsMember(ys: seq<set<int>>)
    ensures |ys| > 0 ==> ys[0] in ys
  {
  }

  /** Dropping the first key of a list in first-occurrence order leaves one, holding the other keys. */
  lemma InFirstOrderTail(xs: seq<set<int>>, cells: seq<Cell>, k: int)
    requires 0 <= k <= |cells| && InFirstOrder(xs, cells, k) && |xs| > 0
    ensures InFirstOrder(xs[1..], cells, k)
    ensures forall p :: p in xs[1..] <==> p in xs && p != xs[0]
  {
    var xr := xs[1..];
    forall a, b | 0 <= a < b < |xr|
      ensures FirstOf(cells, xr[a], k) < FirstOf(cells, xr[b], k)
    {
      assert xr[a] == xs[a + 1] && xr[b] == xs[b + 1];
    }
    forall p
      ensures p in xr <==> p in xs && p != xs[0]
    {
      if p in xr {
        var a :| 0 <= a < |xr| && xr[a] == p;
        assert xs[a + 1] == p;
      }
      if p in xs && p != xs[0] {
        var a :| 0 <= a < |xs| && xs[a] == p;
        assert xr[a - 1] == p;
      }
    }
  }

  /** Two non-empty lists in first-occurrence order with the same members start with the same key. */
  lemma HeadsAgree(xs: seq<set<int>>, ys: seq<set<int>>, cells: seq<Cell>, k: int)
    requires 0 <= k <= |cells| && InFirstOrder(xs, cells, k) && InFirstOrder(ys, cells, k)
    requires forall p :: p in xs <==> p in ys
    requires |xs| > 0 && |ys| > 0
    ensures xs[0] == ys[0]
  {
    assert xs[0] in ys;
    assert ys[0] in xs;
    var j :| 0 <= j < |ys| && ys[j] == xs[0];
    var i :| 0 <= i < |xs| && xs[i] == ys[0];
  }

  /**
   Two lists in first-occurrence order with the same members are the same
   list, so the pairs of a row come in exactly one order.
   */
  lemma {:induction false} FirstOrderUnique(xs: seq<set<int>>, ys: seq<set<int>>, cells: seq<Cell>, k: int)
    requires 0 <= k <= |cells| && InFirstOrder(xs, cells, k) && InFirstOrder(ys, cells, k)
    requires forall p :: p in xs <==> p in ys
    ensures xs == ys
    decreases |xs|
  {
    if |xs| == 0 {
      HeadIsMember(ys);
    } else {
      assert xs[0] in ys;
      HeadsAgree(xs, ys, cells, k);
      InFirstOrderTail(xs, cells, k);
      InFirstOrderTail(ys, cells, k);
      FirstOrderUnique(xs[1..], ys[1..], cells, k);
      assert xs == [xs[0]] + xs[1..] && ys == [ys[0]] + ys[1..];
    }
  }

  /**
   The pair list is determined: any list of exactly the row's naked pairs,
   in order of first occurrence, is the one the scan returns.
   */
  lemma GetPencilPairsDetermined(cells: seq<Cell>, pairs: seq<set<int>>)
    requires InFirstOrder(pairs, cells, |cells|)
    requires forall p :: p in pairs <==> IsNakedPair(cells, p)
    ensures pairs == GetPencilPairs(cells)
  {
    FirstOrderUnique(pairs, GetPencilPairs(cells), cells, |cells|);
  }

  // ---------------------------------------------------------------------
  // Striking the pairs
  // ---------------------------------------------------------------------

  /** A two-element subset of a two-element set is the set itself. */
  lemma TwoOfTwo(a: set<int>, b: set<int>)
    requires |a| == 2 && |b| == 2 && a <= b
    ensures a == b
  {
    assert b == a + (b - a);
    assert a * (b - a) == {};
  }

  /**
   Strike one pair from one cell: a filled or answered cell is skipped, a
   cell with exactly the pair's two marks keeps them, and any other cell
   loses both digits of the pair.
   */
  function StrikeCell(cell: Cell, pair: set<int>): (r: Cell)
    requires |pair| == 2
    ensures r.value == cell.value && r.answer == cell.answer && r.showAnswer == cell.showAnswer
    ensures !Unresolved(cell) || cell.pencils == pair ==> r == cell
    ensures Unresolved(cell) && cell.pencils != pair ==> r.pencils == cell.pencils - pair
  {
    if !Unresolved(cell) then cell
    else if |cell.pencils| == 2 && pair <= cell.pencils then
      TwoOfTwo(pair, cell.pencils);
      cell
    else cell.(pencils := cell.pencils - pair)
  }

  /** Strike one pair from every cell of a row. */
  function StrikeWith(cells: seq<Cell>, pair: set<int>): (r: seq<Cell>)
    requires |pair| == 2
    ensures |r| == |cells|
    ensures forall i :: 0 <= i < |cells| ==> r[i] == StrikeCell(cells[i], pair)
  {
    seq(|cells|, i requires 0 <= i < |cells| => StrikeCell(cells[i], pair))
  }

  /**
   Striking a pair leaves every unresolved cell either carrying exactly
   the pair or sharing no digit with it, so striking it again changes
   nothing.
   */
  lemma StrikeWithMeaning(cells: seq<Cell>, pair: set<int>)
    requires |pair| == 2
    ensures forall i :: 0 <= i < |cells| && Unresolved(cells[i]) ==>
              StrikeWith(cells, pair)[i].pencils == pair || StrikeWith(cells, pair)[i].pencils * pair == {}
    ensures StrikeWith(StrikeWith(cells, pair), pair) == StrikeWith(cells, pair)
  {
    var once := StrikeWith(cells, pair);
    forall i | 0 <= i < |cells|
      ensures StrikeWith(once, pair)[i] == once[i]
    {
      if Unresolved(cells[i]) && cells[i].pencils != pair {
        assert once[i].pencils * pair == {};
      }
    }
  }

  /** The marks of an unresolved cell lie within the pair or avoid it altogether. */
  predicate SettledBy(cell: Cell, pair: set<int>) {
    Unresolved(cell) ==> cell.pencils <= pair || cell.pencils * pair == {}
  }

  /** A cell whose marks are the pair itself, or avoid it, is left alone by the strike. */
  lemma StrikeCellKeeps(cell: Cell, pair: set<int>)
    requires |pair| == 2
    ensures pair == cell.pencils || pair * cell.pencils == {} ==> StrikeCell(cell, pair) == cell
  {
    if Unresolved(cell) && pair != cell.pencils && pair * cell.pencils == {} {
      assert forall x :: x in cell.pencils ==> x !in pair * cell.pencils;
      assert cell.pencils - pair == cell.pencils;
    }
  }

  /**
   Strike the pairs one after another, each from the whole row as left by
   the ones before it. Marks only disappear, and only digits of some pair:
   a mark in no pair stays. Filled or answered cells and every other field
   stay as they were; a cell every pair either equals or avoids is left
   whole; and at the end every unresolved cell is settled by every pair.
   */
  function StrikeRow(cells: seq<Cell>, pairs: seq<set<int>>): (r: seq<Cell>)
    requires forall p :: p in pairs ==> |p| == 2
    ensures |r| == |cells|
    ensures forall i :: 0 <= i < |cells| ==>
              && r[i].value == cells[i].value && r[i].answer == cells[i].answer
              && r[i].showAnswer == cells[i].showAnswer
              && r[i].pencils <= cells[i].pencils
              && (!Unresolved(cells[i]) ==> r[i] == cells[i])
    ensures forall i, d :: 0 <= i < |cells| && d in cells[i].pencils && (forall p :: p in pairs ==> d !in p) ==>
              d in r[i].pencils
    ensures forall i :: 0 <= i < |cells| && (forall p :: p in pairs ==> p == cells[i].pencils || p * cells[i].pencils == {}) ==>
              r[i] == cells[i]
    ensures forall i, p :: 0 <= i < |cells| && p in pairs ==> SettledBy(r[i], p)
    decreases |pairs|
  {
    if |pairs| == 0 then cells
    else
      var struck := StrikeWith(cells, pairs[0]);
      StrikeWithMeaning(cells, pairs[0]);
      assert forall p :: p in pairs[1..] ==> p in pairs;
      var r := StrikeRow(struck, pairs[1..]);
      assert forall p :: p in pairs ==> p == pairs[0] || p in pairs[1..];
      assert forall i :: 0 <= i < |cells| && (forall p :: p in pairs ==> p == cells[i].pencils || p * cells[i].pencils == {}) ==>
               struck[i] == cells[i] by {
        forall i | 0 <= i < |cells| {
          StrikeCellKeeps(cells[i], pairs[0]);
        }
      }
      r
  }

  /**
   The order in which the pairs are struck matters: in a row holding {1, 2}
   twice and then {2, 3} twice, striking {1, 2} first empties the third cell,
   while striking {2, 3} first leaves it {3}.
   */
  lemma StrikeOrderMatters()
    ensures var a, b := Cell(None, {1, 2}, None, false), Cell(None, {2, 3}, None, false);
            && StrikeRow([a, a, b, b], [{1, 2}, {2, 3}])[2].pencils == {}
            && StrikeRow([a, a, b, b], [{2, 3}, {1, 2}])[2].pencils == {3}
  {
    var a, b := Cell(None, {1, 2}, None, false), Cell(None, {2, 3}, None, false);
    assert StrikeCell(b, {1, 2}).pencils == {3};
    assert StrikeCell(StrikeCell(b, {1, 2}), {2, 3}).pencils == {};
    assert StrikeCell(b, {2, 3}) == b;
    assert StrikeCell(b, {1, 2}).pencils == {3};
  }

  /** The naked-pair pass on one row, stated in terms of the row's naked pairs. */
  lemma StrikeRowOfPairs(row: seq<Cell>)
    ensures forall i, d :: 0 <= i < |row| && d in row[i].pencils && (forall p :: IsNakedPair(row, p) ==> d !in p) ==>
              d in StrikeRow(row, GetPencilPairs(row))[i].pencils
    ensures forall i :: 0 <= i < |row| && (forall p :: IsNakedPair(row, p) ==> p == row[i].pencils || p * row[i].pencils == {}) ==>
              StrikeRow(row, GetPencilPairs(row))[i] == row[i]
    ensures forall i, p :: 0 <= i < |row| && IsNakedPair(row, p) ==> SettledBy(StrikeRow(row, GetPencilPairs(row))[i], p)
  {
  }

  /**
   The naked-pair pass: each row struck with its own pairs, found before any
   striking in that row. A row's pass touches only that row, so the rows do
   not interact. Only digits of the row's pairs are struck; a cell that every
   pair of its row either equals or avoids is kept whole, so a row without a
   pair is left as it was.
   */
  function StrikePencilsUsingPairs(g: PencilGrid): (h: PencilGrid)
    requires IsGrid(g)
    ensures IsGrid(h)
    ensures forall r, c :: InBoard(r, c) ==>
              && h[r][c].value == g[r][c].value && h[r][c].answer == g[r][c].answer
              && h[r][c].showAnswer == g[r][c].showAnswer
              && h[r][c].pencils <= g[r][c].pencils
              && (!Unresolved(g[r][c]) ==> h[r][c] == g[r][c])
    ensures forall r, c, d :: InBoard(r, c) && d in g[r][c].pencils && (forall p :: IsNakedPair(g[r], p) ==> d !in p) ==>
              d in h[r][c].pencils
    ensures forall r, c :: InBoard(r, c) && (forall p :: IsNakedPair(g[r], p) ==> p == g[r][c].pencils || p * g[r][c].pencils == {}) ==>
              h[r][c] == g[r][c]
    ensures forall r :: 0 <= r < 9 && (forall p :: !IsNakedPair(g[r], p)) ==> h[r] == g[r]
    ensures forall r, c, p :: InBoard(r, c) && IsNakedPair(g[r], p) ==> SettledBy(h[r][c], p)
  {
    var h := seq(9, r requires 0 <= r < 9 => StrikeRow(g[r], GetPencilPairs(g[r])));
    forall r | 0 <= r < 9 {
      StrikeRowOfPairs(g[r]);
    }
    h
  }
}
