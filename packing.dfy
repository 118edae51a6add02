/** The packing search of src/backpack.h: backpack states ordered by (price,
    weight), the solution set they are collected in, and the solution tree
    whose nodes place one more item in every possible way. */
module Packing {
  import opened Geometry
  import opened Placement

  /** An item: its weight, its price and its picture ('@' cells). */
  datatype Item = Item(weight: int, price: int, shape: Grid)

  /** A (partly) filled backpack: the container grid, the total weight and the total price. */
  datatype BackPack = BackPack(shape: Grid, weight: int, price: int)

  /** BackPack::operator<: by price, and by weight among equal prices. The grid
      plays no part. */
  predicate Less(a: BackPack, b: BackPack) {
    if a.price == b.price then a.weight < b.weight else a.price < b.price
  }

  /** Neither is less than the other: std::set treats them as the same element. */
  predicate Equivalent(a: BackPack, b: BackPack) {
    !Less(a, b) && !Less(b, a)
  }

  /** operator< is a strict weak order whose equivalence classes are the
      backpacks with equal price and weight. */
  lemma LessIsStrictWeakOrder(a: BackPack, b: BackPack, c: BackPack)
    ensures !Less(a, a)
    ensures Less(a, b) && Less(b, c) ==> Less(a, c)
    ensures Equivalent(a, b) <==> a.price == b.price && a.weight == b.weight
    ensures Less(a, b) || Less(b, a) || Equivalent(a, b)
  {
  }

  // ---------------------------------------------------------------------------
  // The solution set: a std::set<BackPack>, kept as its ascending contents

  predicate StrictlyAscending(s: seq<BackPack>) {
    forall i, j {:trigger Less(s[i], s[j])} :: 0 <= i < j < |s| ==> Less(s[i], s[j])
  }

  /** Some element of `s` is equivalent to `x`. */
  predicate HasEquivalent(s: seq<BackPack>, x: BackPack) {
    exists k :: 0 <= k < |s| && Equivalent(s[k], x)
  }

  /** std::set::insert: nothing happens when an equivalent backpack is already
      present, otherwise `x` goes in before the first greater one. */
  function Insert(s: seq<BackPack>, x: BackPack): (r: seq<BackPack>)
    requires StrictlyAscending(s)
    ensures StrictlyAscending(r)
    ensures HasEquivalent(s, x) ==> r == s
    ensures !HasEquivalent(s, x) ==> |r| == |s| + 1
    decreases |s|, 0
  {
    if s == [] then [x]
    else if Less(s[0], x) then
      var tail := Insert(s[1..], x);
      assert forall k :: 0 <= k < |tail| ==> Less(s[0], tail[k]) by {
        forall k | 0 <= k < |tail| ensures Less(s[0], tail[k]) {
          InsertMembers(s[1..], x, tail[k]);
          if tail[k] != x {
            var m :| 0 <= m < |s[1..]| && s[1..][m] == tail[k];
            assert s[m + 1] == tail[k];
          }
        }
      }
      assert HasEquivalent(s, x) ==> HasEquivalent(s[1..], x) by {
        if HasEquivalent(s, x) {
          var k :| 0 <= k < |s| && Equivalent(s[k], x);
          assert k != 0;
          assert s[1..][k - 1] == s[k];
        }
      }
      assert HasEquivalent(s[1..], x) ==> HasEquivalent(s, x) by {
        if HasEquivalent(s[1..], x) {
          var k :| 0 <= k < |s[1..]| && Equivalent(s[1..][k], x);
          assert s[k + 1] == s[1..][k];
        }
      }
      assert s == [s[0]] + s[1..];
      [s[0]] + tail
    else if Less(x, s[0]) then
      assert !HasEquivalent(s, x) by {
        forall k | 0 <= k < |s| ensures !Equivalent(s[k], x) {
          if k > 0 { assert Less(s[0], s[k]); }
        }
      }
      assert forall k :: 0 <= k < |s| ==> Less(x, s[k]) by {
        forall k | 0 <= k < |s| ensures Less(x, s[k]) {
          if k > 0 { assert Less(s[0], s[k]); }
        }
      }
      [x] + s
    else
      s
  }

  /** After insertion the set holds its old members, and `x` when no
      equivalent backpack was present. */
  lemma {:induction false} InsertMembers(s: seq<BackPack>, x: BackPack, y: BackPack)
    requires StrictlyAscending(s)
    ensures y in Insert(s, x) <==> y in s || (y == x && !HasEquivalent(s, x))
    decreases |s|, 1
  {
    if s != [] && Less(s[0], x) {
      InsertMembers(s[1..], x, y);
      assert y in s <==> y == s[0] || y in s[1..] by {
        assert s == [s[0]] + s[1..];
      }
      assert HasEquivalent(s, x) <==> HasEquivalent(s[1..], x) by {
        if HasEquivalent(s, x) {
          var k :| 0 <= k < |s| && Equivalent(s[k], x);
          assert s[1..][k - 1] == s[k];
        }
        if HasEquivalent(s[1..], x) {
          var k :| 0 <= k < |s[1..]| && Equivalent(s[1..][k], x);
          assert s[k + 1] == s[1..][k];
        }
      }
    } else if s != [] && !Less(x, s[0]) {
      assert Equivalent(s[0], x);
    }
  }

  /** The elements of `xs` inserted one by one, first to last. */
  function InsertAll(s: seq<BackPack>, xs: seq<BackPack>): (r: seq<BackPack>)
    requires StrictlyAscending(s)
    ensures StrictlyAscending(r)
    decreases |xs|
  {
    if xs == [] then s else InsertAll(Insert(s, xs[0]), xs[1..])
  }

  /** Inserting a concatenation is inserting its halves in turn. */
  lemma {:induction false} InsertAllAppend(s: seq<BackPack>, a: seq<BackPack>, b: seq<BackPack>)
    requires StrictlyAscending(s)
    ensures InsertAll(s, a + b) == InsertAll(InsertAll(s, a), b)
    decreases |a|
  {
    if a != [] {
      assert (a + b)[1..] == a[1..] + b;
      InsertAllAppend(Insert(s, a[0]), a[1..], b);
    } else {
      assert a + b == b;
    }
  }

  /** Every element of the result was already there or was inserted. */
  lemma {:induction false} InsertAllSound(s: seq<BackPack>, xs: seq<BackPack>, y: BackPack)
    requires StrictlyAscending(s)
    requires y in InsertAll(s, xs)
    ensures y in s || y in xs
    decreases |xs|
  {
    if xs != [] {
      InsertAllSound(Insert(s, xs[0]), xs[1..], y);
      InsertMembers(s, xs[0], y);
      if y in xs[1..] {
        assert y in xs;
      }
    }
  }

  /** Every inserted backpack is represented, by itself or by an equivalent one. */
  lemma {:induction false} InsertAllComplete(s: seq<BackPack>, xs: seq<BackPack>, x: BackPack)
    requires StrictlyAscending(s)
    requires x in s || x in xs
    ensures HasEquivalent(InsertAll(s, xs), x)
    decreases |xs|
  {
    if xs == [] {
      var k :| 0 <= k < |s| && s[k] == x;
      assert Equivalent(s[k], x);
    } else {
      var s1 := Insert(s, xs[0]);
      if x in s || x == xs[0] {
        InsertKeepsEquivalent(s, xs[0], x);
        var k :| 0 <= k < |s1| && Equivalent(s1[k], x);
        InsertAllKeepsEquivalent(s1, xs[1..], s1[k]);
        var r := InsertAll(s1, xs[1..]);
        var m :| 0 <= m < |r| && Equivalent(r[m], s1[k]);
        assert Equivalent(r[m], x);
      } else {
        assert x in xs[1..];
        InsertAllComplete(s1, xs[1..], x);
      }
    }
  }

  /** Inserting keeps a representative of every class already present or inserted. */
  lemma InsertKeepsEquivalent(s: seq<BackPack>, x: BackPack, y: BackPack)
    requires StrictlyAscending(s)
    requires y in s || y == x
    ensures HasEquivalent(Insert(s, x), y)
  {
    var r := Insert(s, x);
    if HasEquivalent(s, x) {
      if y in s {
        var k :| 0 <= k < |s| && s[k] == y;
        assert Equivalent(r[k], y);
      } else {
        var k :| 0 <= k < |s| && Equivalent(s[k], x);
        assert Equivalent(r[k], y);
      }
    } else {
      InsertMembers(s, x, y);
      var k :| 0 <= k < |r| && r[k] == y;
      assert Equivalent(r[k], y);
    }
  }

  /** Once a class is represented it stays represented. */
  lemma {:induction false} InsertAllKeepsEquivalent(s: seq<BackPack>, xs: seq<BackPack>, y: BackPack)
    requires StrictlyAscending(s)
    requires y in s
    ensures HasEquivalent(InsertAll(s, xs), y)
    decreases |xs|
  {
    if xs == [] {
      var k :| 0 <= k < |s| && s[k] == y;
      assert Equivalent(s[k], y);
    } else {
      var s1 := Insert(s, xs[0]);
      InsertKeepsEquivalent(s, xs[0], y);
      var k :| 0 <= k < |s1| && Equivalent(s1[k], y);
      InsertAllKeepsEquivalent(s1, xs[1..], s1[k]);
      var r := InsertAll(s1, xs[1..]);
      var m :| 0 <= m < |r| && Equivalent(r[m], s1[k]);
      assert Equivalent(r[m], y);
    }
  }

  /** Nothing already in the set is ever replaced. */
  lemma {:induction false} InsertAllKeeps(s: seq<BackPack>, xs: seq<BackPack>, y: BackPack)
    requires StrictlyAscending(s)
    requires y in s
    ensures y in InsertAll(s, xs)
    decreases |xs|
  {
    if xs != [] {
      InsertMembers(s, xs[0], y);
      InsertAllKeeps(Insert(s, xs[0]), xs[1..], y);
    }
  }

  /** Equivalent backpacks collapse to the one inserted first: the first
      inserted member of a class that the set did not yet represent is the
      one that ends up in the set. */
  lemma {:induction false} InsertAllFirstWins(s: seq<BackPack>, xs: seq<BackPack>, i: nat)
    requires StrictlyAscending(s)
    requires i < |xs| && !HasEquivalent(s, xs[i])
    requires forall k :: 0 <= k < i ==> !Equivalent(xs[k], xs[i])
    ensures xs[i] in InsertAll(s, xs)
    decreases |xs|
  {
    var s1 := Insert(s, xs[0]);
    if i == 0 {
      InsertMembers(s, xs[0], xs[0]);
      InsertAllKeeps(s1, xs[1..], xs[0]);
    } else {
      forall k | 0 <= k < |s1| ensures !Equivalent(s1[k], xs[i]) {
        InsertMembers(s, xs[0], s1[k]);
        if s1[k] in s {
          var m :| 0 <= m < |s| && s[m] == s1[k];
        }
      }
      forall k | 0 <= k < i - 1 ensures !Equivalent(xs[1..][k], xs[1..][i - 1]) {
        assert xs[1..][k] == xs[k + 1];
      }
      InsertAllFirstWins(s1, xs[1..], i - 1);
    }
  }

  // ---------------------------------------------------------------------------
  // The keys of a node: the indices of the items in the backpack, ascending

  /** Each key is smaller than the next. */
  predicate Increasing(keys: seq<nat>)
    decreases |keys|
  {
    |keys| < 2 || (keys[0] < keys[1] && Increasing(keys[1..]))
  }

  /** In increasing keys, every key is smaller than every later one. */
  lemma {:induction false} IncreasingPair(keys: seq<nat>, i: nat, j: nat)
    requires Increasing(keys) && i < j < |keys|
    ensures keys[i] < keys[j]
    decreases j
  {
    if i > 0 {
      IncreasingPair(keys[1..], i - 1, j - 1);
    } else if j > 1 {
      IncreasingPair(keys[1..], 0, j - 1);
    }
  }

  predicate Below(keys: seq<nat>, n: nat) {
    forall j :: 0 <= j < |keys| ==> keys[j] < n
  }

  /** std::lower_bound: the first position whose key is not less than `k`. */
  function LowerBound(keys: seq<nat>, k: nat): (p: nat)
    ensures p <= |keys|
  {
    if keys == [] || keys[0] >= k then 0 else 1 + LowerBound(keys[1..], k)
  }

  /** The keys before the lower bound are less than `k`; the one at it, if
      any, is not. */
  lemma {:induction false} LowerBoundSplits(keys: seq<nat>, k: nat)
    ensures forall j :: 0 <= j < LowerBound(keys, k) ==> keys[j] < k
    ensures LowerBound(keys, k) < |keys| ==> keys[LowerBound(keys, k)] >= k
  {
    if keys != [] && keys[0] < k {
      LowerBoundSplits(keys[1..], k);
    }
  }

  /** keys.insert(lower_bound(keys, k), k) for a key not yet present: the
      keys stay strictly increasing, so the is_sorted check never throws. */
  function InsertKey(keys: seq<nat>, k: nat): (r: seq<nat>)
    requires Increasing(keys) && k !in keys
    ensures Increasing(r)
    ensures |r| == |keys| + 1
  {
    var p := LowerBound(keys, k);
    LowerBoundSplits(keys, k);
    InsertSorted(keys, k, p);
    keys[..p] + [k] + keys[p..]
  }

  /** The inserted keys are the old ones and `k`. */
  lemma InsertKeyMembers(keys: seq<nat>, k: nat)
    requires Increasing(keys) && k !in keys
    ensures forall x :: x in InsertKey(keys, k) <==> x in keys || x == k
  {
    var p := LowerBound(keys, k);
    assert keys == keys[..p] + keys[p..];
  }

  /** Inserting a new key at its lower bound keeps the keys increasing. */
  lemma {:induction false} InsertSorted(keys: seq<nat>, k: nat, p: nat)
    requires Increasing(keys) && k !in keys && p <= |keys|
    requires forall j :: 0 <= j < p ==> keys[j] < k
    requires p < |keys| ==> keys[p] >= k
    ensures Increasing(keys[..p] + [k] + keys[p..])
    decreases p
  {
    var r := keys[..p] + [k] + keys[p..];
    if p == 0 {
      assert r[1..] == keys;
      if keys != [] {
        assert keys[0] != k;
      }
    } else {
      var rest := keys[1..];
      assert forall x :: x in rest ==> x in keys;
      InsertSorted(rest, k, p - 1);
      assert r[1..] == rest[..p - 1] + [k] + rest[p - 1..];
    }
  }

  /** Between two positions, strictly increasing keys grow at least by the distance. */
  lemma {:induction false} IncreasingGap(keys: seq<nat>, i: nat, j: nat)
    requires Increasing(keys) && i <= j < |keys|
    ensures keys[j] - keys[i] >= j - i
    decreases j - i
  {
    if i < j {
      IncreasingGap(keys, i, j - 1);
      IncreasingPair(keys, j - 1, j);
    }
  }

  /** Strictly increasing indices below n number at most n, and exactly n
      only when every index below n is present: a node whose keys number as
      many as the items holds every item once. */
  lemma KeysFit(keys: seq<nat>, n: nat)
    requires Increasing(keys) && Below(keys, n)
    ensures |keys| <= n
    ensures |keys| == n ==> forall i :: 0 <= i < n ==> keys[i] == i
  {
    if keys != [] {
      IncreasingGap(keys, 0, |keys| - 1);
      forall j | 0 <= j < |keys| ensures j <= keys[j] <= n - |keys| + j {
        IncreasingGap(keys, 0, j);
        IncreasingGap(keys, j, |keys| - 1);
      }
    }
  }

  // ---------------------------------------------------------------------------
  // The moves solve tries: every free anchor cell, every orientation, every unused item

  /** char('1' + i): the symbol item i is drawn with, truncated to 8 bits. */
  function Symbol(i: nat): char {
    ((49 + i) % 256) as char
  }

  /** The backpack after item i (picture `shape`) is put with its top-left
      corner at (row, col). */
  function PutAt(bp: BackPack, item: Item, i: nat, shape: Grid, row: int, col: int): BackPack {
    BackPack(Stamp(shape, bp.shape, row, col, Symbol(i)), bp.weight + item.weight, bp.price + item.price)
  }

  /** A placement solve tries: item `key`, drawn as `shape`, anchored at (row, col). */
  datatype Move = Move(key: nat, shape: Grid, row: nat, col: nat)

  /** The anchor lies in the picture, is not blocked, and the item fits there. */
  ghost predicate CanPlace(grid: Grid, shape: Grid, row: nat, col: nat) {
    row < |grid| && col < |grid[row]| && grid[row][col] != '#' && Fits(shape, grid, row, col)
  }

  /** The placement at anchor (row, col), if there is one. */
  ghost function MoveAt(grid: Grid, i: nat, shape: Grid, row: nat, col: nat): seq<Move> {
    if CanPlace(grid, shape, row, col) then [Move(i, shape, row, col)] else []
  }

  /** The length of a row of the picture (0 past the last row). */
  function RowLength(grid: Grid, row: nat): nat {
    if row < |grid| then |grid[row]| else 0
  }

  /** The placements at anchors (row, 0) .. (row, cols - 1), in scan order. */
  ghost function AnchorMoves(grid: Grid, i: nat, shape: Grid, row: nat, cols: nat): seq<Move> {
    if cols == 0 then [] else AnchorMoves(grid, i, shape, row, cols - 1) + MoveAt(grid, i, shape, row, cols - 1)
  }

  /** The placements at the anchors of rows 0 .. rows - 1, row by row. */
  ghost function RowMoves(grid: Grid, i: nat, shape: Grid, rows: nat): seq<Move> {
    if rows == 0 then []
    else RowMoves(grid, i, shape, rows - 1) + AnchorMoves(grid, i, shape, rows - 1, RowLength(grid, rows - 1))
  }

  /** The placements of item i in the orientations shapes[0 .. n - 1]. */
  ghost function ShapeMoves(grid: Grid, i: nat, shapes: seq<Grid>, n: nat): seq<Move> {
    if n == 0 then []
    else ShapeMoves(grid, i, shapes, n - 1) + (if n - 1 < |shapes| then RowMoves(grid, i, shapes[n - 1], |grid|) else [])
  }

  /** The orientations of every item, as genAllRotations yields them: solve
      recomputes them at every node, and they are always the same. */
  ghost predicate RotationsOf(orients: seq<seq<Grid>>, items: seq<Item>) {
    |orients| == |items| &&
    forall k {:trigger Orientations(items[k].shape)} :: 0 <= k < |items| ==> orients[k] == Orientations(items[k].shape)
  }

  ghost function Rotations(items: seq<Item>): (orients: seq<seq<Grid>>)
    ensures RotationsOf(orients, items)
  {
    seq(|items|, k requires 0 <= k < |items| => Orientations(items[k].shape))
  }

  /** The placements of item k: none when it is already in the backpack,
      otherwise those in all its orientations. */
  ghost function ItemMovesAt(grid: Grid, keys: seq<nat>, orients: seq<seq<Grid>>, k: nat): seq<Move> {
    if k < |orients| && k !in keys then ShapeMoves(grid, k, orients[k], |orients[k]|) else []
  }

  /** The placements of the items 0 .. n - 1 that are not in `keys`. */
  ghost function ItemMoves(grid: Grid, keys: seq<nat>, orients: seq<seq<Grid>>, n: nat): seq<Move> {
    if n == 0 then [] else ItemMoves(grid, keys, orients, n - 1) + ItemMovesAt(grid, keys, orients, n - 1)
  }

  /** All the placements solve turns into children, in the order it creates them. */
  ghost function Moves(grid: Grid, keys: seq<nat>, items: seq<Item>, orients: seq<seq<Grid>>): seq<Move> {
    ItemMoves(grid, keys, orients, |items|)
  }

  /** `m` places an unused item, in one of its orientations, at an unblocked
      anchor where it fits. */
  ghost predicate IsMove(grid: Grid, keys: seq<nat>, items: seq<Item>, m: Move) {
    m.key < |items| && m.key !in keys && m.shape in Orientations(items[m.key].shape) &&
    CanPlace(grid, m.shape, m.row, m.col)
  }

  /** A member of either part is a member of the concatenation. */
  lemma InAppend(m: Move, a: seq<Move>, b: seq<Move>)
    requires m in a || m in b
    ensures m in a + b
  {
  }

  // Soundness: every enumerated placement fits, at an anchor of the scan.

  lemma {:induction false} AnchorMovesSound(grid: Grid, i: nat, shape: Grid, row: nat, cols: nat, m: Move)
    requires m in AnchorMoves(grid, i, shape, row, cols)
    ensures m.key == i && m.shape == shape && m.row == row && m.col < cols
    ensures CanPlace(grid, shape, row, m.col)
  {
    if m !in MoveAt(grid, i, shape, row, cols - 1) {
      AnchorMovesSound(grid, i, shape, row, cols - 1, m);
    }
  }

  lemma {:induction false} RowMovesSound(grid: Grid, i: nat, shape: Grid, rows: nat, m: Move)
    requires m in RowMoves(grid, i, shape, rows)
    ensures m.key == i && m.shape == shape && m.row < rows
    ensures CanPlace(grid, shape, m.row, m.col)
  {
    var last := AnchorMoves(grid, i, shape, rows - 1, RowLength(grid, rows - 1));
    if m in last {
      AnchorMovesSound(grid, i, shape, rows - 1, RowLength(grid, rows - 1), m);
    } else {
      RowMovesSound(grid, i, shape, rows - 1, m);
    }
  }

  lemma {:induction false} ShapeMovesSound(grid: Grid, i: nat, shapes: seq<Grid>, n: nat, m: Move)
    requires m in ShapeMoves(grid, i, shapes, n)
    ensures m.key == i && m.shape in shapes
    ensures CanPlace(grid, m.shape, m.row, m.col)
  {
    if n - 1 < |shapes| && m in RowMoves(grid, i, shapes[n - 1], |grid|) {
      RowMovesSound(grid, i, shapes[n - 1], |grid|, m);
    } else {
      ShapeMovesSound(grid, i, shapes, n - 1, m);
    }
  }

  lemma {:induction false} ItemMovesSound(grid: Grid, keys: seq<nat>, items: seq<Item>, orients: seq<seq<Grid>>,
                                          n: nat, m: Move)
    requires RotationsOf(orients, items)
    requires m in ItemMoves(grid, keys, orients, n)
    ensures m.key < n && IsMove(grid, keys, items, m)
  {
    var k := n - 1;
    if m in ItemMovesAt(grid, keys, orients, k) {
      ShapeMovesSound(grid, k, orients[k], |orients[k]|, m);
      assert orients[k] == Orientations(items[k].shape);
    } else {
      ItemMovesSound(grid, keys, items, orients, k, m);
    }
  }

  // Completeness: every placement that fits is enumerated.

  lemma {:induction false} AnchorMovesComplete(grid: Grid, i: nat, shape: Grid, row: nat, cols: nat, col: nat)
    requires col < cols && CanPlace(grid, shape, row, col)
    ensures Move(i, shape, row, col) in AnchorMoves(grid, i, shape, row, cols)
  {
    var prev, last := AnchorMoves(grid, i, shape, row, cols - 1), MoveAt(grid, i, shape, row, cols - 1);
    if col < cols - 1 {
      AnchorMovesComplete(grid, i, shape, row, cols - 1, col);
    }
    InAppend(Move(i, shape, row, col), prev, last);
  }

  lemma {:induction false} RowMovesComplete(grid: Grid, i: nat, shape: Grid, rows: nat, m: Move)
    requires m.key == i && m.shape == shape && m.row < rows && m.col < RowLength(grid, m.row)
    requires CanPlace(grid, shape, m.row, m.col)
    ensures m in RowMoves(grid, i, shape, rows)
  {
    var prev, last := RowMoves(grid, i, shape, rows - 1), AnchorMoves(grid, i, shape, rows - 1, RowLength(grid, rows - 1));
    if m.row < rows - 1 {
      RowMovesComplete(grid, i, shape, rows - 1, m);
    } else {
      AnchorMovesComplete(grid, i, shape, m.row, RowLength(grid, m.row), m.col);
    }
    InAppend(m, prev, last);
  }

  lemma {:induction false} ShapeMovesComplete(grid: Grid, i: nat, shapes: seq<Grid>, n: nat, s: nat, m: Move)
    requires s < n <= |shapes| && m in RowMoves(grid, i, shapes[s], |grid|)
    ensures m in ShapeMoves(grid, i, shapes, n)
  {
    var prev, last := ShapeMoves(grid, i, shapes, n - 1), RowMoves(grid, i, shapes[n - 1], |grid|);
    if s < n - 1 {
      ShapeMovesComplete(grid, i, shapes, n - 1, s, m);
    }
    InAppend(m, prev, last);
  }

  lemma {:induction false} ItemMovesComplete(grid: Grid, keys: seq<nat>, orients: seq<seq<Grid>>, n: nat, m: Move)
    requires m.key < n && m in ItemMovesAt(grid, keys, orients, m.key)
    ensures m in ItemMoves(grid, keys, orients, n)
  {
    var prev, last := ItemMoves(grid, keys, orients, n - 1), ItemMovesAt(grid, keys, orients, n - 1);
    if m.key < n - 1 {
      ItemMovesComplete(grid, keys, orients, n - 1, m);
    }
    InAppend(m, prev, last);
  }

  lemma ItemMovesAtComplete(grid: Grid, keys: seq<nat>, items: seq<Item>, orients: seq<seq<Grid>>, m: Move)
    requires RotationsOf(orients, items) && IsMove(grid, keys, items, m)
    ensures m in ItemMovesAt(grid, keys, orients, m.key)
  {
    var shapes := orients[m.key];
    RotationsAt(orients, items, m.key);
    var s :| 0 <= s < |shapes| && shapes[s] == m.shape;
    RowMovesComplete(grid, m.key, m.shape, |grid|, m);
    ShapeMovesComplete(grid, m.key, shapes, |shapes|, s, m);
  }

  lemma RotationsAt(orients: seq<seq<Grid>>, items: seq<Item>, k: nat)
    requires RotationsOf(orients, items) && k < |items|
    ensures orients[k] == Orientations(items[k].shape)
  {
  }

  /** solve turns exactly the placements of unused items, in one of their
      orientations, at unblocked anchors where they fit, into children. */
  lemma MovesExact(grid: Grid, keys: seq<nat>, items: seq<Item>, orients: seq<seq<Grid>>, m: Move)
    requires RotationsOf(orients, items)
    ensures m in Moves(grid, keys, items, orients) <==> IsMove(grid, keys, items, m)
  {
    if m in Moves(grid, keys, items, orients) {
      ItemMovesSound(grid, keys, items, orients, |items|, m);
    }
    if IsMove(grid, keys, items, m) {
      ItemMovesAtComplete(grid, keys, items, orients, m);
      ItemMovesComplete(grid, keys, orients, |items|, m);
    }
  }

  /** Once every item is in the backpack there is nothing left to try. */
  lemma {:induction false} NoItemMoves(grid: Grid, keys: seq<nat>, orients: seq<seq<Grid>>, n: nat)
    requires forall i :: 0 <= i < n ==> i in keys
    ensures ItemMoves(grid, keys, orients, n) == []
  {
    if n > 0 {
      NoItemMoves(grid, keys, orients, n - 1);
    }
  }

  // ---------------------------------------------------------------------------
  // The merge scan of solve over the items and the sorted keys

  /** Only the lower bound splits the keys into those below `k` and the rest. */
  lemma {:induction false} LowerBoundUnique(keys: seq<nat>, k: nat, p: nat)
    requires p <= |keys| && (forall j :: 0 <= j < p ==> keys[j] < k) && (p < |keys| ==> keys[p] >= k)
    ensures LowerBound(keys, k) == p
  {
    if keys != [] && keys[0] < k {
      assert p != 0;
      assert forall j :: 0 <= j < p - 1 ==> keys[1..][j] == keys[j + 1];
      LowerBoundUnique(keys[1..], k, p - 1);
    }
  }

  /** The scan meets item i among the keys and steps past it: at item i it
      stands at the lower bound of i, and then at that of i + 1. */
  lemma ScanSkip(keys: seq<nat>, idx: nat, i: nat)
    requires Increasing(keys) && idx == LowerBound(keys, i) && idx < |keys| && keys[idx] == i
    ensures i in keys && idx + 1 == LowerBound(keys, i + 1)
  {
    LowerBoundSplits(keys, i);
    if idx + 1 < |keys| {
      IncreasingPair(keys, idx, idx + 1);
    }
    LowerBoundUnique(keys, i + 1, idx + 1);
  }

  /** The scan does not meet item i: it is not a key. */
  lemma ScanPass(keys: seq<nat>, idx: nat, i: nat)
    requires Increasing(keys) && idx == LowerBound(keys, i) && !(idx < |keys| && keys[idx] == i)
    ensures i !in keys && idx == LowerBound(keys, i + 1)
  {
    LowerBoundSplits(keys, i);
    forall j | 0 <= j < |keys| ensures keys[j] != i {
      if j > idx { IncreasingPair(keys, idx, j); }
    }
    LowerBoundUnique(keys, i + 1, idx);
  }

  // ---------------------------------------------------------------------------
  // The solution tree

  /** A node of the solution tree: its backpack, the indices of the items in
      it, its children in creation order, and whether it is a leaf. */
  datatype Node = Node(bp: BackPack, keys: seq<nat>, children: seq<Node>, leaf: bool)

  /** Inserting an item index below `n` keeps every key below `n`. */
  lemma InsertKeyBelow(keys: seq<nat>, k: nat, n: nat)
    requires Increasing(keys) && k !in keys && Below(keys, n) && k < n
    ensures Below(InsertKey(keys, k), n)
  {
    var r := InsertKey(keys, k);
    InsertKeyMembers(keys, k);
    forall j | 0 <= j < |r| ensures r[j] < n {
      assert r[j] in keys || r[j] == k;
    }
  }

  /** The node solve builds for backpack `bp` holding the items `keys`: one
      child per placement, in the order solve tries them; a leaf when there
      is none. */
  ghost function Build(bp: BackPack, keys: seq<nat>, items: seq<Item>, orients: seq<seq<Grid>>): Node
    requires Increasing(keys) && Below(keys, |items|)
    decreases |items| - |keys|, 1
  {
    KeysFit(keys, |items|);
    var children := ChildrenFor(bp, keys, items, orients, Moves(bp.shape, keys, items, orients));
    Node(bp, keys, children, children == [])
  }

  /** The children for the placements `moves`, in order. */
  ghost function ChildrenFor(bp: BackPack, keys: seq<nat>, items: seq<Item>, orients: seq<seq<Grid>>,
                             moves: seq<Move>): seq<Node>
    requires Increasing(keys) && Below(keys, |items|) && |keys| <= |items|
    decreases |items| - |keys|, 0, |moves|
  {
    if moves == [] then []
    else ChildrenFor(bp, keys, items, orients, moves[..|moves| - 1]) + [ChildFor(bp, keys, items, orients, moves[|moves| - 1])]
  }

  /** The child for placement `m`: the item stamped in, its weight and price
      added, its index inserted into the keys, and that node built in turn.
      A placement of an item that is missing or already in is never tried. */
  ghost function ChildFor(bp: BackPack, keys: seq<nat>, items: seq<Item>, orients: seq<seq<Grid>>, m: Move): Node
    requires Increasing(keys) && Below(keys, |items|) && |keys| <= |items|
    decreases |items| - |keys|, 0, 0
  {
    if m.key < |items| && m.key !in keys then
      InsertKeyBelow(keys, m.key, |items|);
      Build(PutAt(bp, items[m.key], m.key, m.shape, m.row, m.col), InsertKey(keys, m.key), items, orients)
    else
      Node(bp, keys, [], true)
  }

  /** The children for two runs of placements are those of the first, then those of the second. */
  lemma {:induction false} ChildrenForAppend(bp: BackPack, keys: seq<nat>, items: seq<Item>, orients: seq<seq<Grid>>,
                                             a: seq<Move>, b: seq<Move>)
    requires Increasing(keys) && Below(keys, |items|) && |keys| <= |items|
    ensures ChildrenFor(bp, keys, items, orients, a + b) ==
      ChildrenFor(bp, keys, items, orients, a) + ChildrenFor(bp, keys, items, orients, b)
    decreases |b|
  {
    if b == [] {
      assert a + b == a;
    } else {
      var b' := b[..|b| - 1];
      assert (a + b)[..|a + b| - 1] == a + b';
      assert (a + b)[|a + b| - 1] == b[|b| - 1];
      ChildrenForAppend(bp, keys, items, orients, a, b');
    }
  }

  /** The loops of solve append the children of one more run of placements. */
  lemma ChildrenStep(children: seq<Node>, bp: BackPack, keys: seq<nat>, items: seq<Item>, orients: seq<seq<Grid>>,
                     a: seq<Move>, b: seq<Move>)
    requires Increasing(keys) && Below(keys, |items|) && |keys| <= |items|
    ensures children + ChildrenFor(bp, keys, items, orients, a) + ChildrenFor(bp, keys, items, orients, b) ==
      children + ChildrenFor(bp, keys, items, orients, a + b)
  {
    ChildrenForAppend(bp, keys, items, orients, a, b);
  }

  /** The row loop of solve appends the children of one more row of anchors. */
  lemma RowStep(children: seq<Node>, bp: BackPack, keys: seq<nat>, items: seq<Item>, orients: seq<seq<Grid>>,
                i: nat, shape: Grid, row: nat)
    requires Increasing(keys) && Below(keys, |items|) && |keys| <= |items|
    ensures children + ChildrenFor(bp, keys, items, orients, RowMoves(bp.shape, i, shape, row)) +
      ChildrenFor(bp, keys, items, orients, AnchorMoves(bp.shape, i, shape, row, RowLength(bp.shape, row))) ==
      children + ChildrenFor(bp, keys, items, orients, RowMoves(bp.shape, i, shape, row + 1))
  {
    ChildrenForAppend(bp, keys, items, orients, RowMoves(bp.shape, i, shape, row),
                      AnchorMoves(bp.shape, i, shape, row, RowLength(bp.shape, row)));
  }

  /** One child per placement. */
  lemma {:induction false} ChildrenForLength(bp: BackPack, keys: seq<nat>, items: seq<Item>, orients: seq<seq<Grid>>,
                                             moves: seq<Move>)
    requires Increasing(keys) && Below(keys, |items|) && |keys| <= |items|
    ensures |ChildrenFor(bp, keys, items, orients, moves)| == |moves|
    decreases |moves|
  {
    if moves != [] {
      ChildrenForLength(bp, keys, items, orients, moves[..|moves| - 1]);
    }
  }

  /** The j-th child is the one for the j-th placement. */
  lemma {:induction false} ChildrenForAt(bp: BackPack, keys: seq<nat>, items: seq<Item>, orients: seq<seq<Grid>>,
                                         moves: seq<Move>, j: nat)
    requires Increasing(keys) && Below(keys, |items|) && |keys| <= |items| && j < |moves|
    ensures j < |ChildrenFor(bp, keys, items, orients, moves)|
    ensures ChildrenFor(bp, keys, items, orients, moves)[j] == ChildFor(bp, keys, items, orients, moves[j])
    decreases |moves|
  {
    var init := moves[..|moves| - 1];
    ChildrenForLength(bp, keys, items, orients, init);
    if j < |init| {
      ChildrenForAt(bp, keys, items, orients, init, j);
      assert init[j] == moves[j];
    }
  }

  /** The node solve builds keeps the given backpack and keys, and is a leaf
      exactly when no placement fits, in particular when every item is in. */
  lemma BuildLeaf(bp: BackPack, keys: seq<nat>, items: seq<Item>, orients: seq<seq<Grid>>)
    requires Increasing(keys) && Below(keys, |items|)
    ensures Build(bp, keys, items, orients).bp == bp && Build(bp, keys, items, orients).keys == keys
    ensures Build(bp, keys, items, orients).leaf <==> Moves(bp.shape, keys, items, orients) == []
    ensures (forall i :: 0 <= i < |items| ==> i in keys) ==> Build(bp, keys, items, orients).leaf
  {
    var moves := Moves(bp.shape, keys, items, orients);
    KeysFit(keys, |items|);
    ChildrenForLength(bp, keys, items, orients, moves);
    if forall i :: 0 <= i < |items| ==> i in keys {
      NoItemMoves(bp.shape, keys, orients, |items|);
    }
  }

  /** The j-th child of the node solve builds is the node for the j-th
      placement, which puts an unused item, in one of its orientations, at an
      unblocked anchor where it fits, stamps it with its symbol, adds its
      weight and price, and inserts its index into the keys. */
  lemma BuildChildren(bp: BackPack, keys: seq<nat>, items: seq<Item>, orients: seq<seq<Grid>>, j: nat)
    requires RotationsOf(orients, items) && Increasing(keys) && Below(keys, |items|)
    requires j < |Moves(bp.shape, keys, items, orients)|
    ensures var m := Moves(bp.shape, keys, items, orients)[j];
      var children := Build(bp, keys, items, orients).children;
      |children| == |Moves(bp.shape, keys, items, orients)| &&
      IsMove(bp.shape, keys, items, m) &&
      children[j].bp == PutAt(bp, items[m.key], m.key, m.shape, m.row, m.col) &&
      children[j].keys == InsertKey(keys, m.key)
  {
    var moves := Moves(bp.shape, keys, items, orients);
    KeysFit(keys, |items|);
    ChildrenForLength(bp, keys, items, orients, moves);
    ChildrenForAt(bp, keys, items, orients, moves, j);
    MovesExact(bp.shape, keys, items, orients, moves[j]);
    var m := moves[j];
    InsertKeyBelow(keys, m.key, |items|);
    BuildLeaf(PutAt(bp, items[m.key], m.key, m.shape, m.row, m.col), InsertKey(keys, m.key), items, orients);
  }

  /** The backpacks of the leaves under `node`, left to right: the order in
      which solve inserts them into the solution set. */
  function Leaves(node: Node): seq<BackPack>
    decreases node
  {
    if node.children == [] then [node.bp] else LeavesOf(node.children)
  }

  function LeavesOf(cs: seq<Node>): seq<BackPack>
    decreases cs
  {
    if cs == [] then [] else Leaves(cs[0]) + LeavesOf(cs[1..])
  }

  lemma {:induction false} LeavesOfAppend(cs: seq<Node>, c: Node)
    ensures LeavesOf(cs + [c]) == LeavesOf(cs) + Leaves(c)
  {
    if cs == [] {
      assert [] + [c] == [c];
      assert LeavesOf([c]) == Leaves(c) + LeavesOf([]);
    } else {
      assert (cs + [c])[1..] == cs[1..] + [c];
      LeavesOfAppend(cs[1..], c);
    }
  }

  /** Node(backpack, parent, parent_keys, new_key, solutions, items): the node
      for a child. Its keys are the parent's with the new item inserted in
      order (so the is_sorted check cannot fail); holding every item it is a
      leaf and joins the solutions, otherwise it is solved further. */
  method NewNode(bp: BackPack, parentKeys: seq<nat>, newKey: nat, sols: seq<BackPack>, items: seq<Item>,
                 ghost orients: seq<seq<Grid>>)
    returns (node: Node, sols': seq<BackPack>)
    requires RotationsOf(orients, items)
    requires Increasing(parentKeys) && Below(parentKeys, |items|)
    requires newKey < |items| && newKey !in parentKeys
    requires StrictlyAscending(sols)
    ensures Increasing(InsertKey(parentKeys, newKey)) && Below(InsertKey(parentKeys, newKey), |items|)
    ensures node == Build(bp, InsertKey(parentKeys, newKey), items, orients)
    ensures sols' == InsertAll(sols, Leaves(node))
    decreases |items| - |parentKeys|, 0
  {
    var keys := InsertKey(parentKeys, newKey);
    InsertKeyBelow(parentKeys, newKey, |items|);
    KeysFit(keys, |items|);
    if |keys| == |items| {
      forall i | 0 <= i < |items| ensures i in keys {
        assert keys[i] == i;
      }
      NoItemMoves(bp.shape, keys, orients, |items|);
      node := Node(bp, keys, [], true);
      sols' := Insert(sols, bp);
      assert InsertAll(sols, [bp]) == InsertAll(Insert(sols, bp), []);
    } else {
      var children, leaf;
      children, leaf, sols' := Solve(bp, keys, sols, items, orients);
      node := Node(bp, keys, children, leaf);
    }
  }

  /** Node::solve: try every unused item, in every orientation, at every
      unblocked anchor, creating a child for each placement that fits; a node
      without children is a leaf and its backpack joins the solutions. */
  method Solve(bp: BackPack, keys: seq<nat>, sols: seq<BackPack>, items: seq<Item>, ghost orients: seq<seq<Grid>>)
    returns (children: seq<Node>, leaf: bool, sols': seq<BackPack>)
    requires RotationsOf(orients, items)
    requires Increasing(keys) && Below(keys, |items|) && StrictlyAscending(sols)
    ensures Node(bp, keys, children, leaf) == Build(bp, keys, items, orients)
    ensures sols' == InsertAll(sols, Leaves(Node(bp, keys, children, leaf)))
    decreases |items| - |keys|, 8
  {
    KeysFit(keys, |items|);
    children, sols' := PlaceAll(bp, keys, sols, items, orients);
    leaf, sols' := MarkLeaf(bp, children, sols', sols);
  }

  /** The end of solve: a node that created no children is a leaf, and its
      backpack joins the solutions. */
  method MarkLeaf(bp: BackPack, children: seq<Node>, sols: seq<BackPack>, ghost sols0: seq<BackPack>)
    returns (leaf: bool, sols': seq<BackPack>)
    requires StrictlyAscending(sols0) && sols == InsertAll(sols0, LeavesOf(children))
    ensures leaf <==> children == []
    ensures sols' == InsertAll(sols0, if children == [] then [bp] else LeavesOf(children))
  {
    leaf := children == [];
    sols' := sols;
    if leaf {
      sols' := Insert(sols, bp);
      assert InsertAll(sols0, [bp]) == InsertAll(Insert(sols0, bp), []);
    }
  }

  /** solve's loop over the items, matched against the sorted keys by a
      merge scan: every unused item is placed in every way. */
  method PlaceAll(bp: BackPack, keys: seq<nat>, sols: seq<BackPack>, items: seq<Item>, ghost orients: seq<seq<Grid>>)
    returns (children: seq<Node>, sols': seq<BackPack>)
    requires RotationsOf(orients, items)
    requires Increasing(keys) && Below(keys, |items|) && |keys| <= |items| && StrictlyAscending(sols)
    ensures children == ChildrenFor(bp, keys, items, orients, Moves(bp.shape, keys, items, orients))
    ensures sols' == InsertAll(sols, LeavesOf(children))
    decreases |items| - |keys|, 7
  {
    children := [];
    sols' := sols;
    var idx: nat := 0;
    for i := 0 to |items|
      invariant idx == LowerBound(keys, i)
      invariant children == ChildrenFor(bp, keys, items, orients, ItemMoves(bp.shape, keys, orients, i))
      invariant sols' == InsertAll(sols, LeavesOf(children))
    {
      idx, children, sols' := SolveStep(bp, keys, idx, i, children, sols', items, orients, sols);
      ChildrenForAppend(bp, keys, items, orients, ItemMoves(bp.shape, keys, orients, i), ItemMovesAt(bp.shape, keys, orients, i));
    }
  }

  /** One turn of solve's loop over the items: an item whose index the scan
      meets among the keys is already in the backpack and is skipped. */
  method SolveStep(bp: BackPack, keys: seq<nat>, idx: nat, i: nat, children: seq<Node>, sols: seq<BackPack>,
                   items: seq<Item>, ghost orients: seq<seq<Grid>>, ghost sols0: seq<BackPack>)
    returns (idx': nat, children': seq<Node>, sols': seq<BackPack>)
    requires RotationsOf(orients, items)
    requires Increasing(keys) && Below(keys, |items|) && |keys| <= |items| && i < |items| && idx == LowerBound(keys, i)
    requires StrictlyAscending(sols0) && sols == InsertAll(sols0, LeavesOf(children))
    ensures idx' == LowerBound(keys, i + 1)
    ensures children' == children + ChildrenFor(bp, keys, items, orients, ItemMovesAt(bp.shape, keys, orients, i))
    ensures sols' == InsertAll(sols0, LeavesOf(children'))
    decreases |items| - |keys|, 6
  {
    if idx < |keys| && i == keys[idx] {
      ScanSkip(keys, idx, i);
      assert children + [] == children;
      return idx + 1, children, sols;
    }
    ScanPass(keys, idx, i);
    idx' := idx;
    children', sols' := PlaceItem(bp, keys, i, children, sols, items, orients, sols0);
  }

  /** solve's work for one unused item i: every orientation that
      genAllRotations yields, in the order of the set it returns. */
  method PlaceItem(bp: BackPack, keys: seq<nat>, i: nat, children: seq<Node>, sols: seq<BackPack>,
                   items: seq<Item>, ghost orients: seq<seq<Grid>>, ghost sols0: seq<BackPack>)
    returns (children': seq<Node>, sols': seq<BackPack>)
    requires RotationsOf(orients, items)
    requires Increasing(keys) && Below(keys, |items|) && |keys| <= |items| && i < |items| && i !in keys
    requires StrictlyAscending(sols0) && sols == InsertAll(sols0, LeavesOf(children))
    ensures children' == children + ChildrenFor(bp, keys, items, orients, ItemMovesAt(bp.shape, keys, orients, i))
    ensures sols' == InsertAll(sols0, LeavesOf(children'))
    decreases |items| - |keys|, 5
  {
    var shapes := GenAllRotations(items[i].shape);
    assert shapes == orients[i];
    children', sols' := PlaceShapes(bp, keys, i, shapes, children, sols, items, orients, sols0);
  }

  /** The orientations `shapes` of item i, one after the other. */
  method PlaceShapes(bp: BackPack, keys: seq<nat>, i: nat, shapes: seq<Grid>, children: seq<Node>,
                     sols: seq<BackPack>, items: seq<Item>, ghost orients: seq<seq<Grid>>, ghost sols0: seq<BackPack>)
    returns (children': seq<Node>, sols': seq<BackPack>)
    requires RotationsOf(orients, items)
    requires Increasing(keys) && Below(keys, |items|) && |keys| <= |items| && i < |items| && i !in keys
    requires StrictlyAscending(sols0) && sols == InsertAll(sols0, LeavesOf(children))
    ensures children' == children + ChildrenFor(bp, keys, items, orients, ShapeMoves(bp.shape, i, shapes, |shapes|))
    ensures sols' == InsertAll(sols0, LeavesOf(children'))
    decreases |items| - |keys|, 4
  {
    children', sols' := children, sols;
    assert children + [] == children;
    for s := 0 to |shapes|
      invariant children' == children + ChildrenFor(bp, keys, items, orients, ShapeMoves(bp.shape, i, shapes, s))
      invariant sols' == InsertAll(sols0, LeavesOf(children'))
    {
      children', sols' := PlaceShape(bp, keys, i, shapes[s], children', sols', items, orients, sols0);
      ChildrenStep(children, bp, keys, items, orients, ShapeMoves(bp.shape, i, shapes, s),
                   RowMoves(bp.shape, i, shapes[s], |bp.shape|));
    }
  }

  /** solve's scan of every anchor, row by row, for one orientation `shape` of item i. */
  method PlaceShape(bp: BackPack, keys: seq<nat>, i: nat, shape: Grid, children: seq<Node>, sols: seq<BackPack>,
                    items: seq<Item>, ghost orients: seq<seq<Grid>>, ghost sols0: seq<BackPack>)
    returns (children': seq<Node>, sols': seq<BackPack>)
    requires RotationsOf(orients, items)
    requires Increasing(keys) && Below(keys, |items|) && |keys| <= |items| && i < |items| && i !in keys
    requires StrictlyAscending(sols0) && sols == InsertAll(sols0, LeavesOf(children))
    ensures children' == children + ChildrenFor(bp, keys, items, orients, RowMoves(bp.shape, i, shape, |bp.shape|))
    ensures sols' == InsertAll(sols0, LeavesOf(children'))
    decreases |items| - |keys|, 3
  {
    children', sols' := children, sols;
    assert children + [] == children;
    for row := 0 to |bp.shape|
      invariant children' == children + ChildrenFor(bp, keys, items, orients, RowMoves(bp.shape, i, shape, row))
      invariant sols' == InsertAll(sols0, LeavesOf(children'))
    {
      children', sols' := PlaceRow(bp, keys, i, shape, row, children', sols', items, orients, sols0);
      RowStep(children, bp, keys, items, orients, i, shape, row);
    }
  }

  /** solve's scan of one row of anchors for one orientation `shape` of item i. */
  method PlaceRow(bp: BackPack, keys: seq<nat>, i: nat, shape: Grid, row: nat, children: seq<Node>, sols: seq<BackPack>,
                  items: seq<Item>, ghost orients: seq<seq<Grid>>, ghost sols0: seq<BackPack>)
    returns (children': seq<Node>, sols': seq<BackPack>)
    requires RotationsOf(orients, items)
    requires Increasing(keys) && Below(keys, |items|) && |keys| <= |items| && i < |items| && i !in keys
    requires row < |bp.shape|
    requires StrictlyAscending(sols0) && sols == InsertAll(sols0, LeavesOf(children))
    ensures children' == children + ChildrenFor(bp, keys, items, orients, AnchorMoves(bp.shape, i, shape, row, RowLength(bp.shape, row)))
    ensures sols' == InsertAll(sols0, LeavesOf(children'))
    decreases |items| - |keys|, 2
  {
    children', sols' := children, sols;
    assert children + [] == children;
    for col := 0 to |bp.shape[row]|
      invariant children' == children + ChildrenFor(bp, keys, items, orients, AnchorMoves(bp.shape, i, shape, row, col))
      invariant sols' == InsertAll(sols0, LeavesOf(children'))
    {
      children', sols' := PlaceAnchor(bp, keys, i, shape, row, col, children', sols', items, orients, sols0);
      ChildrenStep(children, bp, keys, items, orients, AnchorMoves(bp.shape, i, shape, row, col),
                   MoveAt(bp.shape, i, shape, row, col));
    }
  }

  /** One anchor of solve's scan: skip a blocked cell, otherwise lay the item
      over a copy of the backpack picture with tryPutItem and, when it fits,
      return the placement and the new backpack. */
  method TryAnchor(bp: BackPack, item: Item, i: nat, shape: Grid, row: nat, col: nat)
    returns (placed: seq<Move>, nbp: BackPack)
    requires row < |bp.shape| && col < |bp.shape[row]|
    ensures placed == MoveAt(bp.shape, i, shape, row, col)
    ensures placed != [] ==> nbp == PutAt(bp, item, i, shape, row, col)
  {
    placed, nbp := [], bp;
    if bp.shape[row][col] != '#' {
      var ok, g := TryPutItem(shape, bp.shape, row, col, Symbol(i));
      if ok {
        placed := [Move(i, shape, row, col)];
        nbp := BackPack(g, bp.weight + item.weight, bp.price + item.price);
      }
    }
  }

  /** One anchor of solve's scan: when item i, drawn as `shape`, fits there,
      the child for the new backpack is built and appended. */
  method PlaceAnchor(bp: BackPack, keys: seq<nat>, i: nat, shape: Grid, row: nat, col: nat, children: seq<Node>,
                     sols: seq<BackPack>, items: seq<Item>, ghost orients: seq<seq<Grid>>, ghost sols0: seq<BackPack>)
    returns (children': seq<Node>, sols': seq<BackPack>)
    requires RotationsOf(orients, items)
    requires Increasing(keys) && Below(keys, |items|) && |keys| <= |items| && i < |items| && i !in keys
    requires row < |bp.shape| && col < |bp.shape[row]|
    requires StrictlyAscending(sols0) && sols == InsertAll(sols0, LeavesOf(children))
    ensures children' == children + ChildrenFor(bp, keys, items, orients, MoveAt(bp.shape, i, shape, row, col))
    ensures sols' == InsertAll(sols0, LeavesOf(children'))
    decreases |items| - |keys|, 1
  {
    children', sols' := children, sols;
    var placed, nbp := TryAnchor(bp, items[i], i, shape, row, col);
    if placed != [] {
      var child, sols1 := NewNode(nbp, keys, i, sols, items, orients);
      LeavesOfAppend(children, child);
      InsertAllAppend(sols0, LeavesOf(children), Leaves(child));
      assert placed[..0] == [];
      children', sols' := children + [child], sols1;
    } else {
      assert children + [] == children;
    }
  }

  /** Node(backpack, solutions, items): the root, with no items placed. */
  method NewRoot(bp: BackPack, sols: seq<BackPack>, items: seq<Item>) returns (node: Node, sols': seq<BackPack>)
    requires StrictlyAscending(sols)
    ensures node == Build(bp, [], items, Rotations(items))
    ensures sols' == InsertAll(sols, Leaves(node))
  {
    var children, leaf;
    children, leaf, sols' := Solve(bp, [], sols, items, Rotations(items));
    node := Node(bp, [], children, leaf);
  }
}
