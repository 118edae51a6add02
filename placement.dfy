/** Placing an item into the container grid (src/backpack.h, tryPutItem).
    In the container, '_' is a free cell, '#' a blocked one, and a digit-like
    symbol marks a cell taken by an item; in the item, '@' is a cell the item
    occupies. The item is laid over the container with its top-left corner at
    (rowOffset, colOffset) and its cells are scanned row by row. */
module Placement {
  import opened Geometry

  /** (row, col) lies inside the container and is free. A negative index is
      outside: the C++ compares it with an unsigned size. */
  predicate IsFreeAt(bp: Grid, row: int, col: int) {
    0 <= row < |bp| && 0 <= col < |bp[row]| && bp[row][col] == '_'
  }

  /** Item cell (r1, c1) is scanned before item cell (r2, c2). */
  predicate Precedes(r1: int, c1: int, r2: int, c2: int) {
    r1 < r2 || (r1 == r2 && c1 < c2)
  }

  /** Item cell (ir, ic) is an occupied cell of the item. */
  predicate IsPixel(item: Grid, ir: int, ic: int) {
    0 <= ir < |item| && 0 <= ic < |item[ir]| && item[ir][ic] == '@'
  }

  /** Container cell (row, col) is covered by an item pixel scanned before (r, c). */
  predicate HitBefore(item: Grid, ro: int, co: int, row: int, col: int, r: int, c: int) {
    IsPixel(item, row - ro, col - co) && Precedes(row - ro, col - co, r, c)
  }

  /** Every item pixel scanned before (r, c) lands on a free container cell. */
  ghost predicate FitsBefore(item: Grid, bp: Grid, ro: int, co: int, r: int, c: int) {
    forall ir, ic :: IsPixel(item, ir, ic) && Precedes(ir, ic, r, c) ==> IsFreeAt(bp, ro + ir, co + ic)
  }

  /** Every item pixel lands on a free container cell. */
  ghost predicate Fits(item: Grid, bp: Grid, ro: int, co: int) {
    FitsBefore(item, bp, ro, co, |item|, 0)
  }

  /** `g` has the rows and row lengths of `bp`. */
  predicate SameDims(g: Grid, bp: Grid) {
    |g| == |bp| && forall row :: 0 <= row < |bp| ==> |g[row]| == |bp[row]|
  }

  /** The container with `symbol` written into the cells covered by the item
      pixels scanned before (r, c). */
  function StampBefore(item: Grid, bp: Grid, ro: int, co: int, symbol: char, r: int, c: int): (g: Grid)
    ensures SameDims(g, bp)
  {
    seq(|bp|, row requires 0 <= row < |bp| =>
      seq(|bp[row]|, col requires 0 <= col < |bp[row]| =>
        if HitBefore(item, ro, co, row, col, r, c) then symbol else bp[row][col]))
  }

  /** The container with the whole item stamped in. */
  function Stamp(item: Grid, bp: Grid, ro: int, co: int, symbol: char): Grid {
    StampBefore(item, bp, ro, co, symbol, |item|, 0)
  }

  /** (r, c) is the first item pixel, in scan order, that does not land on a free cell. */
  ghost predicate FirstMisfit(item: Grid, bp: Grid, ro: int, co: int, r: int, c: int) {
    IsPixel(item, r, c) && FitsBefore(item, bp, ro, co, r, c) && !IsFreeAt(bp, ro + r, co + c)
  }

  // ---------------------------------------------------------------------------
  // One step of the scan

  lemma StampStepBlank(item: Grid, bp: Grid, ro: int, co: int, symbol: char, r: nat, c: nat)
    requires r < |item| && c < |item[r]| && item[r][c] != '@'
    ensures StampBefore(item, bp, ro, co, symbol, r, c + 1) == StampBefore(item, bp, ro, co, symbol, r, c)
    ensures FitsBefore(item, bp, ro, co, r, c) ==> FitsBefore(item, bp, ro, co, r, c + 1)
  {
    var g1, g0 := StampBefore(item, bp, ro, co, symbol, r, c + 1), StampBefore(item, bp, ro, co, symbol, r, c);
    forall row | 0 <= row < |bp| ensures g1[row] == g0[row] {
      forall col | 0 <= col < |bp[row]| ensures g1[row][col] == g0[row][col] {
        assert HitBefore(item, ro, co, row, col, r, c + 1) == HitBefore(item, ro, co, row, col, r, c);
      }
    }
  }

  lemma StampStepPixel(item: Grid, bp: Grid, ro: int, co: int, symbol: char, r: nat, c: nat)
    requires r < |item| && c < |item[r]| && item[r][c] == '@'
    requires IsFreeAt(bp, ro + r, co + c)
    ensures StampBefore(item, bp, ro, co, symbol, r, c + 1) ==
      var g := StampBefore(item, bp, ro, co, symbol, r, c);
      g[ro + r := g[ro + r][co + c := symbol]]
    ensures FitsBefore(item, bp, ro, co, r, c) ==> FitsBefore(item, bp, ro, co, r, c + 1)
  {
    var g0 := StampBefore(item, bp, ro, co, symbol, r, c);
    var g1 := StampBefore(item, bp, ro, co, symbol, r, c + 1);
    assert !HitBefore(item, ro, co, ro + r, co + c, r, c);
    var g2 := g0[ro + r := g0[ro + r][co + c := symbol]];
    forall row | 0 <= row < |bp| ensures g1[row] == g2[row] {
      forall col | 0 <= col < |bp[row]| ensures g1[row][col] == g2[row][col] {
        if row != ro + r || col != co + c {
          assert HitBefore(item, ro, co, row, col, r, c + 1) == HitBefore(item, ro, co, row, col, r, c);
        }
      }
    }
  }

  lemma StampStepRow(item: Grid, bp: Grid, ro: int, co: int, symbol: char, r: nat)
    requires r < |item|
    ensures StampBefore(item, bp, ro, co, symbol, r + 1, 0) == StampBefore(item, bp, ro, co, symbol, r, |item[r]|)
    ensures FitsBefore(item, bp, ro, co, r, |item[r]|) ==> FitsBefore(item, bp, ro, co, r + 1, 0)
  {
    var g1, g0 := StampBefore(item, bp, ro, co, symbol, r + 1, 0), StampBefore(item, bp, ro, co, symbol, r, |item[r]|);
    forall row | 0 <= row < |bp| ensures g1[row] == g0[row] {
      forall col | 0 <= col < |bp[row]| ensures g1[row][col] == g0[row][col] {
        assert HitBefore(item, ro, co, row, col, r + 1, 0) == HitBefore(item, ro, co, row, col, r, |item[r]|);
      }
    }
  }

  /** The cell under the pixel being scanned has not been written yet. */
  lemma StampBeforeUntouched(item: Grid, bp: Grid, ro: int, co: int, symbol: char, r: int, c: int)
    requires 0 <= ro + r < |bp| && 0 <= co + c < |bp[ro + r]|
    ensures StampBefore(item, bp, ro, co, symbol, r, c)[ro + r][co + c] == bp[ro + r][co + c]
  {
    assert !HitBefore(item, ro, co, ro + r, co + c, r, c);
  }

  /** Before the scan starts, nothing is stamped. */
  lemma StampNothing(item: Grid, bp: Grid, ro: int, co: int, symbol: char)
    ensures StampBefore(item, bp, ro, co, symbol, 0, 0) == bp
  {
    var g := StampBefore(item, bp, ro, co, symbol, 0, 0);
    forall row | 0 <= row < |bp| ensures g[row] == bp[row] {
      assert forall col :: 0 <= col < |bp[row]| ==> g[row][col] == bp[row][col];
    }
  }

  /** A cell that is not free in the container keeps its value in every partial stamp. */
  lemma StampKeepsTaken(item: Grid, bp: Grid, ro: int, co: int, symbol: char, r: int, c: int, row: int, col: int)
    requires FitsBefore(item, bp, ro, co, r, c)
    requires 0 <= row < |bp| && 0 <= col < |bp[row]| && bp[row][col] != '_'
    ensures StampBefore(item, bp, ro, co, symbol, r, c)[row][col] == bp[row][col]
  {
    assert HitBefore(item, ro, co, row, col, r, c) ==> IsFreeAt(bp, ro + (row - ro), co + (col - co));
  }

  /** tryPutItem: stamp `symbol` into the cells of `bp` under the item's
      '@' pixels, and report whether every pixel found a free cell. The scan
      stops at the first pixel that does not fit, leaving the earlier pixels
      stamped: the grid is not restored. */
  method TryPutItem(item: Grid, bp: Grid, rowOffset: int, colOffset: int, symbol: char)
    returns (ok: bool, grid: Grid)
    ensures ok <==> Fits(item, bp, rowOffset, colOffset)
    ensures ok ==> grid == Stamp(item, bp, rowOffset, colOffset, symbol)
    ensures !ok ==> exists r, c :: (FirstMisfit(item, bp, rowOffset, colOffset, r, c) &&
      grid == StampBefore(item, bp, rowOffset, colOffset, symbol, r, c))
    ensures SameDims(grid, bp)
    ensures forall row, col :: 0 <= row < |bp| && 0 <= col < |bp[row]| && bp[row][col] != '_' ==>
      grid[row][col] == bp[row][col]
  {
    grid := bp;
    StampNothing(item, bp, rowOffset, colOffset, symbol);
    for r := 0 to |item|
      invariant FitsBefore(item, bp, rowOffset, colOffset, r, 0)
      invariant grid == StampBefore(item, bp, rowOffset, colOffset, symbol, r, 0)
    {
      for c := 0 to |item[r]|
        invariant FitsBefore(item, bp, rowOffset, colOffset, r, c)
        invariant grid == StampBefore(item, bp, rowOffset, colOffset, symbol, r, c)
      {
        if item[r][c] == '@' {
          var row, col := rowOffset + r, colOffset + c;
          if 0 <= row < |grid| && 0 <= col < |grid[row]| {
            StampBeforeUntouched(item, bp, rowOffset, colOffset, symbol, r, c);
          }
          if row < 0 || row >= |grid| || col < 0 || col >= |grid[row]| || grid[row][col] != '_' {
            assert FirstMisfit(item, bp, rowOffset, colOffset, r, c);
            forall rr, cc | 0 <= rr < |bp| && 0 <= cc < |bp[rr]| && bp[rr][cc] != '_'
              ensures grid[rr][cc] == bp[rr][cc]
            {
              StampKeepsTaken(item, bp, rowOffset, colOffset, symbol, r, c, rr, cc);
            }
            return false, grid;
          }
          StampStepPixel(item, bp, rowOffset, colOffset, symbol, r, c);
          grid := grid[row := grid[row][col := symbol]];
        } else {
          StampStepBlank(item, bp, rowOffset, colOffset, symbol, r, c);
        }
      }
      StampStepRow(item, bp, rowOffset, colOffset, symbol, r);
    }
    forall rr, cc | 0 <= rr < |bp| && 0 <= cc < |bp[rr]| && bp[rr][cc] != '_'
      ensures grid[rr][cc] == bp[rr][cc]
    {
      StampKeepsTaken(item, bp, rowOffset, colOffset, symbol, |item|, 0, rr, cc);
    }
    ok := true;
  }
}
