/** The classical 0/1 knapsack table of solveBackpack (src/backpack.h):
    n items with weights w and prices c, a capacity W, and the table
    d[i][j] over the first i + 1 items and the weights 0 .. W. */
module Knapsack {

  function Max(a: int, b: int): int {
    if a >= b then a else b
  }

  /** Every weight is non-negative: the table is indexed by j + w[i]. */
  predicate NonNegative(w: seq<int>) {
    forall k :: 0 <= k < |w| ==> w[k] >= 0
  }

  /** The total weight of the items picked among the first |pick|. */
  function Weight(w: seq<int>, pick: seq<bool>): int
    requires |pick| <= |w|
    decreases |pick|
  {
    if pick == [] then 0
    else Weight(w, pick[..|pick| - 1]) + (if pick[|pick| - 1] then w[|pick| - 1] else 0)
  }

  /** The total price of the items picked among the first |pick|. */
  function Value(c: seq<int>, pick: seq<bool>): int
    requires |pick| <= |c|
    decreases |pick|
  {
    if pick == [] then 0
    else Value(c, pick[..|pick| - 1]) + (if pick[|pick| - 1] then c[|pick| - 1] else 0)
  }

  /** A choice of items, one flag per item, within the capacity. */
  predicate Feasible(w: seq<int>, W: int, pick: seq<bool>) {
    |pick| == |w| && Weight(w, pick) <= W
  }

  /** Picking nothing weighs nothing and is worth nothing. */
  function Nothing(w: seq<int>, c: seq<int>, n: nat): (pick: seq<bool>)
    requires n <= |w| && n <= |c|
    ensures |pick| == n && Weight(w, pick) == 0 && Value(c, pick) == 0
  {
    if n == 0 then []
    else
      var p := Nothing(w, c, n - 1);
      assert (p + [false])[..n - 1] == p;
      p + [false]
  }

  /** Picking only among non-negative weights never weighs less than nothing. */
  lemma {:induction false} WeightNonNegative(w: seq<int>, pick: seq<bool>)
    requires NonNegative(w) && |pick| <= |w|
    ensures Weight(w, pick) >= 0
    decreases |pick|
  {
    if pick != [] {
      WeightNonNegative(w, pick[..|pick| - 1]);
    }
  }

  /** What the row for item i adds to cell j by taking item i: nothing when it
      does not fit below j, otherwise the cell j - w[i] of the row before plus
      c[i], but never less than the 0 the table starts with. */
  function Added(w: seq<int>, c: seq<int>, W: int, i: nat, j: int): int
    requires |w| == |c| && NonNegative(w) && 0 < i < |w| && 0 <= j <= W
    decreases i, 0
  {
    if j >= w[i] then Max(0, Cell(w, c, W, i - 1, j - w[i]) + c[i]) else 0
  }

  /** d[i][j] once row i is filled: row 0 holds c[0] at w[0] and 0
      elsewhere; a later row takes the better of adding item i to the row
      before and skipping it. */
  function Cell(w: seq<int>, c: seq<int>, W: int, i: nat, j: int): int
    requires |w| == |c| && NonNegative(w) && i < |w| && 0 <= j <= W
    decreases i, 1
  {
    if i == 0 then (if j == w[0] then c[0] else 0)
    else Max(Added(w, c, W, i, j), Cell(w, c, W, i - 1, j))
  }

  /** The answer after the first k cells of row i: the greatest of them, and 0. */
  function RowMax(w: seq<int>, c: seq<int>, W: int, i: nat, k: nat): (m: int)
    requires |w| == |c| && NonNegative(w) && i < |w| && k <= W + 1
    ensures m >= 0 && forall j :: 0 <= j < k ==> Cell(w, c, W, i, j) <= m
  {
    if k == 0 then 0 else Max(RowMax(w, c, W, i, k - 1), Cell(w, c, W, i, k - 1))
  }

  /** `m` is one of the first k cells of row i. */
  ghost predicate InRow(w: seq<int>, c: seq<int>, W: int, i: nat, k: nat, m: int)
    requires |w| == |c| && NonNegative(w) && i < |w| && k <= W + 1
  {
    exists j :: 0 <= j < k && Cell(w, c, W, i, j) == m
  }

  /** The answer is 0 or one of the cells. */
  lemma {:induction false} RowMaxAttained(w: seq<int>, c: seq<int>, W: int, i: nat, k: nat)
    requires |w| == |c| && NonNegative(w) && i < |w| && k <= W + 1
    ensures RowMax(w, c, W, i, k) == 0 || InRow(w, c, W, i, k, RowMax(w, c, W, i, k))
  {
    if k > 0 {
      var m, x, prev := RowMax(w, c, W, i, k), Cell(w, c, W, i, k - 1), RowMax(w, c, W, i, k - 1);
      if m == x {
        assert InRow(w, c, W, i, k, m);
      } else {
        assert m == prev;
        RowMaxAttained(w, c, W, i, k - 1);
        if prev != 0 {
          var j :| 0 <= j < k - 1 && Cell(w, c, W, i, j) == prev;
          assert InRow(w, c, W, i, k, m);
        }
      }
    }
  }

  /** Every cell is the price of a choice among the first i + 1 items that
      weighs at most j. */
  ghost function PickFor(w: seq<int>, c: seq<int>, W: int, i: nat, j: int): (pick: seq<bool>)
    requires |w| == |c| && NonNegative(w) && i < |w| && 0 <= j <= W
    ensures |pick| == i + 1 && Weight(w, pick) <= j && Value(c, pick) == Cell(w, c, W, i, j)
    decreases i
  {
    if i == 0 then
      var p := if j == w[0] then [true] else [false];
      assert p[..0] == [];
      p
    else if j >= w[i] && Cell(w, c, W, i, j) == Cell(w, c, W, i - 1, j - w[i]) + c[i] then
      var p := PickFor(w, c, W, i - 1, j - w[i]);
      assert (p + [true])[..i] == p;
      p + [true]
    else if Cell(w, c, W, i, j) == Cell(w, c, W, i - 1, j) then
      var p := PickFor(w, c, W, i - 1, j);
      assert (p + [false])[..i] == p;
      p + [false]
    else
      Nothing(w, c, i + 1)
  }

  /** Every choice among the first i + 1 items that weighs exactly j is worth
      at most cell j, or at most 0 — unless item 0 weighs nothing and has a
      negative price, which row 0 records in place of the empty choice. */
  lemma {:induction false} CellComplete(w: seq<int>, c: seq<int>, W: int, i: nat, j: int, pick: seq<bool>)
    requires |w| == |c| && NonNegative(w) && i < |w| && 0 <= j <= W
    requires w[0] > 0 || c[0] >= 0
    requires |pick| == i + 1 && Weight(w, pick) == j
    ensures Value(c, pick) <= Max(0, Cell(w, c, W, i, j))
    decreases i
  {
    var p := pick[..i];
    WeightNonNegative(w, p);
    if i == 0 {
      assert p == [];
    } else if !pick[i] {
      CellComplete(w, c, W, i - 1, j, p);
    } else {
      var k := j - w[i];
      CellComplete(w, c, W, i - 1, k, p);
      if Cell(w, c, W, i - 1, k) < 0 {
        assert i - 1 == 0 && k == w[0] && w[0] > 0;
        assert p == [p[0]] && p[..0] == [];
        assert p[0];
      }
    }
  }

  /** solveBackpack, after reading the input: fill the table row by row and
      answer the greatest cell of the last row (or 0). The answer is the
      price of a choice of items within the capacity, and no such choice is
      worth more — the 0/1 knapsack optimum — provided item 0 has a positive
      weight or a non-negative price. */
  method SolveBackpack(w: seq<int>, c: seq<int>, W: int) returns (ans: int)
    requires |w| == |c| >= 1 && NonNegative(w) && w[0] <= W
    ensures exists pick :: Feasible(w, W, pick) && Value(c, pick) == ans
    ensures w[0] > 0 || c[0] >= 0 ==> forall pick :: Feasible(w, W, pick) ==> Value(c, pick) <= ans
  {
    var n := |w|;
    var d := NewTable(w, c, W);
    for i := 1 to n
      invariant forall r, k :: 0 <= r < i && 0 <= k <= W ==> d[r, k] == Cell(w, c, W, r, k)
      invariant forall r, k :: i <= r < n && 0 <= k <= W ==> d[r, k] == 0
    {
      FillRow(d, w, c, W, i);
    }
    ans := LastRowMax(d, w, c, W);
    Answer(w, c, W, ans);
  }

  /** The table of zeros with c[0] at d[0][w[0]]: row 0 is filled. */
  method NewTable(w: seq<int>, c: seq<int>, W: int) returns (d: array2<int>)
    requires |w| == |c| >= 1 && NonNegative(w) && w[0] <= W
    ensures fresh(d) && d.Length0 == |w| && d.Length1 == W + 1
    ensures forall k :: 0 <= k <= W ==> d[0, k] == Cell(w, c, W, 0, k)
    ensures forall r, k :: 1 <= r < |w| && 0 <= k <= W ==> d[r, k] == 0
  {
    d := new int[|w|, W + 1]((i, j) => 0);
    d[0, w[0]] := c[0];
  }

  /** The answer loop: the greatest cell of the last row, starting from 0. */
  method LastRowMax(d: array2<int>, w: seq<int>, c: seq<int>, W: int) returns (ans: int)
    requires |w| == |c| >= 1 && NonNegative(w) && 0 <= W
    requires d.Length0 == |w| && d.Length1 == W + 1
    requires forall r, k :: 0 <= r < |w| && 0 <= k <= W ==> d[r, k] == Cell(w, c, W, r, k)
    ensures ans == RowMax(w, c, W, |w| - 1, W + 1)
  {
    ans := 0;
    for j := 0 to W + 1
      invariant ans == RowMax(w, c, W, |w| - 1, j)
    {
      ans := Max(ans, d[|w| - 1, j]);
    }
  }

  /** The last row's greatest cell, or 0, is the knapsack optimum. */
  lemma Answer(w: seq<int>, c: seq<int>, W: int, ans: int)
    requires |w| == |c| >= 1 && NonNegative(w) && w[0] <= W
    requires ans == RowMax(w, c, W, |w| - 1, W + 1)
    ensures exists pick :: Feasible(w, W, pick) && Value(c, pick) == ans
    ensures w[0] > 0 || c[0] >= 0 ==> forall pick :: Feasible(w, W, pick) ==> Value(c, pick) <= ans
  {
    var n := |w|;
    if ans == 0 {
      var none := Nothing(w, c, n);
      assert Feasible(w, W, none);
    } else {
      RowMaxAttained(w, c, W, n - 1, W + 1);
      var j :| 0 <= j < W + 1 && Cell(w, c, W, n - 1, j) == ans;
      var p := PickFor(w, c, W, n - 1, j);
      assert Feasible(w, W, p);
    }
    if w[0] > 0 || c[0] >= 0 {
      forall pick | Feasible(w, W, pick) ensures Value(c, pick) <= ans {
        WeightNonNegative(w, pick);
        CellComplete(w, c, W, n - 1, Weight(w, pick), pick);
      }
    }
  }

  /** One row of the table: for every j, first offer d[i-1][j] + c[i] to
      d[i][j + w[i]] when that is within the capacity, then offer d[i-1][j]
      to d[i][j]. */
  method FillRow(d: array2<int>, w: seq<int>, c: seq<int>, W: int, i: nat)
    requires |w| == |c| && NonNegative(w) && 0 < i < |w| && 0 <= W
    requires d.Length0 == |w| && d.Length1 == W + 1
    requires forall r, k :: 0 <= r < i && 0 <= k <= W ==> d[r, k] == Cell(w, c, W, r, k)
    requires forall k :: 0 <= k <= W ==> d[i, k] == 0
    modifies d
    ensures forall k :: 0 <= k <= W ==> d[i, k] == Cell(w, c, W, i, k)
    ensures forall r, k :: 0 <= r < d.Length0 && 0 <= k < d.Length1 && r != i ==> d[r, k] == old(d[r, k])
  {
    for j := 0 to W + 1
      invariant forall k :: 0 <= k < j ==> d[i, k] == Cell(w, c, W, i, k)
      invariant forall k :: j <= k <= W ==> d[i, k] == (if k - w[i] < j then Added(w, c, W, i, k) else 0)
      invariant forall r, k :: 0 <= r < d.Length0 && 0 <= k < d.Length1 && r != i ==> d[r, k] == old(d[r, k])
    {
      if j + w[i] <= W {
        d[i, j + w[i]] := Max(d[i, j + w[i]], d[i - 1, j] + c[i]);
      }
      d[i, j] := Max(d[i, j], d[i - 1, j]);
    }
  }

  /** Item 0 weighing nothing with price -5 takes the place of the empty
      choice in row 0, so the table answers 5 where taking item 1 alone is
      worth 10. */
  lemma ZeroWeightFirstItem()
    ensures RowMax([0, 1], [-5, 10], 1, 1, 2) == 5
    ensures Feasible([0, 1], 1, [false, true]) && Value([-5, 10], [false, true]) == 10
  {
    var w, c := [0, 1], [-5, 10];
    assert Cell(w, c, 1, 0, 0) == -5 && Cell(w, c, 1, 0, 1) == 0;
    assert Cell(w, c, 1, 1, 0) == 0 && Cell(w, c, 1, 1, 1) == 5;
    assert [false, true][..1] == [false] && [false][..0] == [];
  }

  /** Weights 1, 3, 4, 5 and prices 1, 4, 5, 7 with capacity 7: the table
      answers 9, items 1 and 2. */
  lemma SmallInstance()
    ensures RowMax([1, 3, 4, 5], [1, 4, 5, 7], 7, 3, 8) == 9
  {
  }
}
