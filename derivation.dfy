/** The four answers the AllSolutions constructor (src/main.cpp) derives
    from the solution set of the packing search, given the weight limit. */
module Derivation {
  import opened Geometry
  import opened Packing
  import opened SolutionTrees
  import opened Outcomes

  /** INT32_MAX, the starting value of the running minimum. */
  const Int32Max: int := 0x7fff_ffff

  /** In an ascending solution list, the last entry has the greatest price. */
  lemma LastIsDearest(s: seq<BackPack>, k: nat)
    requires StrictlyAscending(s) && k < |s|
    ensures s[k].price <= s[|s| - 1].price
  {
    if k < |s| - 1 {
      assert Less(s[k], s[|s| - 1]);
    }
  }

  /** Prices never fall along an ascending solution list. */
  lemma AscendingPrices(s: seq<BackPack>, a: nat, b: nat)
    requires StrictlyAscending(s) && a <= b < |s|
    ensures s[a].price <= s[b].price
  {
    if a < b {
      assert Less(s[a], s[b]);
    }
  }

  // ---------------------------------------------------------------------------
  // sol1

  /** sol1: the solution set copied out in its own (ascending) order. */
  method ListSolutions(solutions: seq<BackPack>) returns (sol1: seq<BackPack>)
    requires StrictlyAscending(solutions)
    ensures sol1 == solutions && StrictlyAscending(sol1)
  {
    sol1 := [];
    for size := 0 to |solutions|
      invariant sol1 == solutions[..size]
    {
      sol1 := sol1 + [solutions[size]];
    }
    assert solutions[..|solutions|] == solutions;
  }

  // ---------------------------------------------------------------------------
  // sol2

  /** What the scan for sol2 establishes: `i` is the last entry within the
      weight limit, and sol2 lists sol1[i], sol1[i - 1], ... down to just
      above `j`, the first entry below with another price (or -1). */
  lemma BestRun(sol1: seq<BackPack>, maxWeight: int, i: int, j: int, sol2: seq<BackPack>)
    requires StrictlyAscending(sol1)
    requires -1 <= j <= i < |sol1| && 0 <= i && sol1[i].weight <= maxWeight
    requires forall k :: i < k < |sol1| ==> sol1[k].weight > maxWeight
    requires forall k :: j < k <= i ==> sol1[k].price == sol1[i].price
    requires j >= 0 ==> sol1[j].price != sol1[i].price
    requires |sol2| == i - j && forall k :: 0 <= k < |sol2| ==> sol2[k] == sol1[i - k]
    ensures sol2 != [] && sol2[0] == sol1[i]
    ensures forall k :: 0 <= k < |sol2| ==> sol2[k] in sol1 && sol2[k].weight <= maxWeight && sol2[k].price == sol2[0].price
    ensures forall y :: y in sol1 && y.weight <= maxWeight ==> y.price <= sol2[0].price
    ensures forall y :: y in sol1 && y.weight <= maxWeight && y.price == sol2[0].price ==> y in sol2
    ensures forall a, b :: 0 <= a < b < |sol2| ==> sol2[a].weight > sol2[b].weight
  {
    forall k | 0 <= k < |sol2| ensures sol2[k].weight <= maxWeight {
      if k > 0 {
        assert Less(sol1[i - k], sol1[i]);
      }
    }
    forall a, b | 0 <= a < b < |sol2| ensures sol2[a].weight > sol2[b].weight {
      assert Less(sol1[i - b], sol1[i - a]);
    }
    forall y | y in sol1 && y.weight <= maxWeight ensures y.price <= sol2[0].price {
      var k :| 0 <= k < |sol1| && sol1[k] == y;
      if k < i {
        assert Less(sol1[k], sol1[i]);
      }
    }
    forall k | 0 <= k <= j ensures sol1[k].price < sol1[i].price {
      AscendingPrices(sol1, k, j);
      AscendingPrices(sol1, j, i);
    }
    forall y | y in sol1 && y.weight <= maxWeight && y.price == sol2[0].price ensures y in sol2 {
      var k :| 0 <= k < |sol1| && sol1[k] == y;
      assert sol2[i - k] == y;
    }
  }

  /** sol2: scanning sol1 from the end, the first entry within the weight
      limit fixes the price; it and the entries below it with that price
      are collected. The result is every solution within the limit that has
      the greatest price among those within the limit, heaviest first, and
      it is empty exactly when no solution is within the limit. */
  method BestWithinLimit(sol1: seq<BackPack>, maxWeight: int) returns (sol2: seq<BackPack>)
    requires StrictlyAscending(sol1)
    ensures forall k :: 0 <= k < |sol2| ==> sol2[k] in sol1 && sol2[k].weight <= maxWeight && sol2[k].price == sol2[0].price
    ensures forall y :: y in sol1 && y.weight <= maxWeight ==> sol2 != [] && y.price <= sol2[0].price
    ensures forall y :: y in sol1 && y.weight <= maxWeight && y.price == sol2[0].price ==> y in sol2
    ensures forall a, b :: 0 <= a < b < |sol2| ==> sol2[a].weight > sol2[b].weight
    ensures sol2 == [] <==> forall y :: y in sol1 ==> y.weight > maxWeight
  {
    sol2 := [];
    var i := |sol1| - 1;
    while i >= 0
      invariant -1 <= i < |sol1|
      invariant forall k :: i < k < |sol1| ==> sol1[k].weight > maxWeight
    {
      if sol1[i].weight <= maxWeight {
        var j := i;
        while j >= 0 && sol1[i].price == sol1[j].price
          invariant -1 <= j <= i
          invariant |sol2| == i - j && forall k :: 0 <= k < |sol2| ==> sol2[k] == sol1[i - k]
          invariant forall k :: j < k <= i ==> sol1[k].price == sol1[i].price
        {
          sol2 := sol2 + [sol1[j]];
          j := j - 1;
        }
        BestRun(sol1, maxWeight, i, j, sol2);
        return;
      }
      i := i - 1;
    }
    forall y | y in sol1 ensures y.weight > maxWeight {
      var k :| 0 <= k < |sol1| && sol1[k] == y;
    }
  }

  // ---------------------------------------------------------------------------
  // sol3

  /** sol3 as written: step `size` down from the second-last entry while it
      has the last entry's price, stopping at index 1 at the latest, and
      take the entry above. It is an entry with the greatest price, and the
      lightest such one unless every entry has that price, in which case it
      is the second entry instead of the first. */
  method LightestDearestAsWritten(sol1: seq<BackPack>) returns (sol3: BackPack)
    requires StrictlyAscending(sol1) && |sol1| >= 1
    ensures sol3 in sol1 && forall y :: y in sol1 ==> y.price <= sol3.price
    ensures |sol1| == 1 || sol1[0].price != sol1[|sol1| - 1].price ==>
      forall y :: y in sol1 && y.price == sol3.price ==> sol3.weight <= y.weight
    ensures |sol1| >= 2 && sol1[0].price == sol1[|sol1| - 1].price ==> sol3 == sol1[1]
  {
    var last := |sol1| - 1;
    var size := |sol1| - 2;
    while size > 0 && sol1[last].price == sol1[size].price
      invariant -1 <= size <= last - 1
      invariant last >= 1 ==> size >= 0
      invariant forall k :: size < k <= last ==> sol1[k].price == sol1[last].price
    {
      size := size - 1;
    }
    sol3 := sol1[size + 1];
    DearestRun(sol1, size + 1);
    if last >= 1 && sol1[0].price == sol1[last].price {
      AscendingPrices(sol1, 0, size);
      AscendingPrices(sol1, size, last);
    }
  }

  /** When `start` begins the run of entries with the last entry's price, its
      entry has the greatest price and is the lightest with that price. */
  lemma DearestRun(sol1: seq<BackPack>, start: nat)
    requires StrictlyAscending(sol1) && start < |sol1|
    requires forall k :: start <= k < |sol1| ==> sol1[k].price == sol1[|sol1| - 1].price
    ensures forall y :: y in sol1 ==> y.price <= sol1[start].price
    ensures start == 0 || sol1[start - 1].price != sol1[|sol1| - 1].price ==>
      forall y :: y in sol1 && y.price == sol1[start].price ==> sol1[start].weight <= y.weight
  {
    forall y | y in sol1 ensures y.price <= sol1[start].price {
      var k :| 0 <= k < |sol1| && sol1[k] == y;
      LastIsDearest(sol1, k);
    }
    if start == 0 || sol1[start - 1].price != sol1[|sol1| - 1].price {
      forall k | 0 <= k < start ensures sol1[k].price < sol1[start].price {
        AscendingPrices(sol1, k, start - 1);
        AscendingPrices(sol1, start - 1, start);
      }
      forall y | y in sol1 && y.price == sol1[start].price ensures sol1[start].weight <= y.weight {
        var k :| 0 <= k < |sol1| && sol1[k] == y;
        if k > start {
          assert Less(sol1[start], sol1[k]);
        }
      }
    }
  }

  /** Two solutions of price 5 weighing 2 and 3: every entry has the greatest
      price, so the loop as written stops at index 0 unchecked and picks the
      entry of weight 3, while the intended loop picks the entry of weight 2. */
  method LightestDearestMissed() returns (asWritten: BackPack, intended: BackPack)
    ensures asWritten == BackPack([], 3, 5) && intended == BackPack([], 2, 5)
  {
    var sol1 := [BackPack([], 2, 5), BackPack([], 3, 5)];
    asWritten := LightestDearestAsWritten(sol1);
    intended := LightestDearest(sol1);
  }

  /** sol3 as evidently intended: the loop also examines index 0, so sol3 is
      the lightest entry among those with the greatest price. */
  method LightestDearest(sol1: seq<BackPack>) returns (sol3: BackPack)
    requires StrictlyAscending(sol1) && |sol1| >= 1
    ensures sol3 in sol1 && forall y :: y in sol1 ==> y.price <= sol3.price
    ensures forall y :: y in sol1 && y.price == sol3.price ==> sol3.weight <= y.weight
  {
    var last := |sol1| - 1;
    var size := |sol1| - 2;
    while size >= 0 && sol1[last].price == sol1[size].price
      invariant -1 <= size <= last - 1
      invariant forall k :: size < k <= last ==> sol1[k].price == sol1[last].price
    {
      size := size - 1;
    }
    sol3 := sol1[size + 1];
    DearestRun(sol1, size + 1);
  }

  // ---------------------------------------------------------------------------
  // sol4

  /** count(row.begin(), row.end(), '_'): the free cells of one row. */
  function FreeInRow(row: string): nat {
    if row == [] then 0 else (if row[0] == '_' then 1 else 0) + FreeInRow(row[1..])
  }

  /** The free cells of a picture, row by row. */
  function FreeCells(g: Grid): nat {
    if g == [] then 0 else FreeInRow(g[0]) + FreeCells(g[1..])
  }

  /** The running minimum over `s` of the free cells, starting from `acc`. */
  function MinFree(s: seq<BackPack>, acc: int): (m: int)
    ensures m <= acc && forall k :: 0 <= k < |s| ==> m <= FreeCells(s[k].shape)
    ensures m == acc || exists k :: 0 <= k < |s| && FreeCells(s[k].shape) == m
  {
    if s == [] then acc
    else
      var v := FreeCells(s[0].shape);
      var m := MinFree(s[1..], if v < acc then v else acc);
      assert forall k :: 1 <= k < |s| ==> s[1..][k - 1] == s[k];
      assert m != acc && m != v ==> exists k :: 0 <= k < |s[1..]| && FreeCells(s[1..][k].shape) == m;
      m
  }

  /** The entries of `s` with exactly `v` free cells, in order. */
  function WithFree(s: seq<BackPack>, v: int): (r: seq<BackPack>)
    ensures forall x :: x in r <==> x in s && FreeCells(x.shape) == v
  {
    if s == [] then []
    else (if FreeCells(s[0].shape) == v then [s[0]] else []) + WithFree(s[1..], v)
  }

  /** vol: the free cells of one backpack, summed row by row. */
  method Volume(bp: BackPack) returns (vol: int)
    ensures vol == FreeCells(bp.shape)
  {
    vol := 0;
    var rows := bp.shape;
    for r := 0 to |rows|
      invariant vol + FreeCells(rows[r..]) == FreeCells(rows)
    {
      assert rows[r..][1..] == rows[r + 1..];
      vol := vol + FreeInRow(rows[r]);
    }
  }

  /** sol4: the entries of sol2 with the fewest free cells, in sol2's order;
      the running minimum starts at INT32_MAX, which bounds every count the
      C++ int can hold. */
  method FewestFree(sol2: seq<BackPack>) returns (sol4: seq<BackPack>)
    ensures sol4 == WithFree(sol2, MinFree(sol2, Int32Max))
    ensures (forall y :: y in sol2 ==> FreeCells(y.shape) <= Int32Max) ==>
      (forall x :: x in sol4 <==> x in sol2 && forall y :: y in sol2 ==> FreeCells(x.shape) <= FreeCells(y.shape))
    ensures (forall y :: y in sol2 ==> FreeCells(y.shape) <= Int32Max) ==> (sol4 == [] <==> sol2 == [])
  {
    var minVol := MinVolume(sol2);
    sol4 := KeepVolume(sol2, minVol);
    FewestFreeMeaning(sol2, sol4);
  }

  /** The first loop of sol4: the running minimum of the free cells. */
  method MinVolume(sol2: seq<BackPack>) returns (minVol: int)
    ensures minVol == MinFree(sol2, Int32Max)
  {
    minVol := Int32Max;
    for k := 0 to |sol2|
      invariant MinFree(sol2[k..], minVol) == MinFree(sol2, Int32Max)
    {
      assert sol2[k..][1..] == sol2[k + 1..];
      var vol := Volume(sol2[k]);
      if vol < minVol {
        minVol := vol;
      }
    }
  }

  /** The second loop of sol4: keep the entries at the minimum, in order. */
  method KeepVolume(sol2: seq<BackPack>, minVol: int) returns (sol4: seq<BackPack>)
    ensures sol4 == WithFree(sol2, minVol)
  {
    sol4 := [];
    for k := 0 to |sol2|
      invariant sol4 + WithFree(sol2[k..], minVol) == WithFree(sol2, minVol)
    {
      var here := if FreeCells(sol2[k].shape) == minVol then [sol2[k]] else [];
      WithFreeStep(sol2, k, minVol);
      Regroup(WithFree(sol2, minVol), sol4, here, WithFree(sol2[k + 1..], minVol));
      var vol := Volume(sol2[k]);
      if vol == minVol {
        sol4 := sol4 + [sol2[k]];
      }
    }
    assert sol4 + [] == sol4;
  }

  lemma WithFreeStep(s: seq<BackPack>, k: nat, v: int)
    requires k < |s|
    ensures WithFree(s[k..], v) == (if FreeCells(s[k].shape) == v then [s[k]] else []) + WithFree(s[k + 1..], v)
  {
    assert s[k..][0] == s[k] && s[k..][1..] == s[k + 1..];
  }

  lemma Regroup<T>(f: seq<T>, pre: seq<T>, a: seq<T>, r: seq<T>)
    requires f == pre + (a + r)
    ensures f == pre + a + r
  {
  }

  /** With every count within int, keeping the entries at the running
      minimum keeps exactly the entries with the fewest free cells. */
  lemma FewestFreeMeaning(sol2: seq<BackPack>, sol4: seq<BackPack>)
    requires sol4 == WithFree(sol2, MinFree(sol2, Int32Max))
    ensures (forall y :: y in sol2 ==> FreeCells(y.shape) <= Int32Max) ==>
      (forall x :: x in sol4 <==> x in sol2 && forall y :: y in sol2 ==> FreeCells(x.shape) <= FreeCells(y.shape))
    ensures (forall y :: y in sol2 ==> FreeCells(y.shape) <= Int32Max) ==> (sol4 == [] <==> sol2 == [])
  {
    var m := MinFree(sol2, Int32Max);
    if forall y :: y in sol2 ==> FreeCells(y.shape) <= Int32Max {
      if sol2 != [] {
        if m == Int32Max {
          assert FreeCells(sol2[0].shape) == m;
        }
        var k :| 0 <= k < |sol2| && FreeCells(sol2[k].shape) == m;
        assert sol2[k] in sol4;
      }
      forall x | x in sol2 && (forall y :: y in sol2 ==> FreeCells(x.shape) <= FreeCells(y.shape))
        ensures x in sol4
      {
        if sol2 != [] && m < Int32Max {
          var k :| 0 <= k < |sol2| && FreeCells(sol2[k].shape) == m;
          assert FreeCells(x.shape) <= FreeCells(sol2[k].shape);
        }
        var i :| 0 <= i < |sol2| && sol2[i] == x;
      }
      forall x | x in sol4 ensures forall y :: y in sol2 ==> FreeCells(x.shape) <= FreeCells(y.shape) {
        forall y | y in sol2 ensures FreeCells(x.shape) <= FreeCells(y.shape) {
          var i :| 0 <= i < |sol2| && sol2[i] == y;
        }
      }
    }
  }

  // ---------------------------------------------------------------------------
  // AllSolutions

  /** A packing always yields at least one solution: the leaves of a node
      are never empty. */
  lemma {:induction false} LeavesNonEmpty(node: Node)
    ensures |Leaves(node)| >= 1
    decreases node, 1
  {
    if node.children != [] {
      LeavesOfNonEmpty(node.children);
    }
  }

  lemma {:induction false} LeavesOfNonEmpty(cs: seq<Node>)
    requires cs != []
    ensures |LeavesOf(cs)| >= 1
    decreases cs, 0
  {
    LeavesNonEmpty(cs[0]);
  }

  /** Inserting into an empty set at least one backpack leaves it non-empty. */
  lemma InsertAllNonEmpty(xs: seq<BackPack>)
    requires |xs| >= 1
    ensures |InsertAll([], xs)| >= 1
  {
    InsertAllKeeps([xs[0]], xs[1..], xs[0]);
  }

  /** AllSolutions: solve the packing and derive the four answers. */
  class AllSolutions {
    var sol1: seq<BackPack>
    var sol2: seq<BackPack>
    var sol3: BackPack
    var sol4: seq<BackPack>

    /** The answers for the container `backPack`, the items, and the weight limit. */
    constructor(backPack: BackPack, items: seq<Item>, maxWeight: int)
      ensures var root := Build(backPack, [], items, Rotations(items));
        sol1 == InsertAll([], Leaves(root)) && StrictlyAscending(sol1) && |sol1| >= 1
      ensures forall k :: 0 <= k < |sol2| ==> sol2[k] in sol1 && sol2[k].weight <= maxWeight && sol2[k].price == sol2[0].price
      ensures forall y :: y in sol1 && y.weight <= maxWeight ==> sol2 != [] && y.price <= sol2[0].price
      ensures forall y :: y in sol1 && y.weight <= maxWeight && y.price == sol2[0].price ==> y in sol2
      ensures forall a, b :: 0 <= a < b < |sol2| ==> sol2[a].weight > sol2[b].weight
      ensures sol2 == [] <==> forall y :: y in sol1 ==> y.weight > maxWeight
      ensures sol3 in sol1 && forall y :: y in sol1 ==> y.price <= sol3.price && (y.price == sol3.price ==> sol3.weight <= y.weight)
      ensures sol4 == WithFree(sol2, MinFree(sol2, Int32Max))
    {
      var tree := new SolutionTree(backPack);
      var solutions := tree.Solve(items);
      LeavesNonEmpty(tree.root.value);
      InsertAllNonEmpty(Leaves(tree.root.value));
      var s1 := ListSolutions(solutions);
      var s2 := BestWithinLimit(s1, maxWeight);
      var s3 := LightestDearest(s1);
      var s4 := FewestFree(s2);
      sol1, sol2, sol3, sol4 := s1, s2, s3, s4;
    }
  }
}
