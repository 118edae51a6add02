/** The solution tree of src/backpack.h seen from outside: the totals every
    node carries, Node::search, and the SolutionTree class that owns the root. */
module SolutionTrees {
  import opened Geometry
  import opened Packing
  import opened Outcomes

  // ---------------------------------------------------------------------------
  // Totals: a node's weight and price are the base backpack's plus those of its items

  /** The total weight of the items whose indices are `keys`. */
  function WeightOf(items: seq<Item>, keys: seq<nat>): int
    requires Below(keys, |items|)
  {
    if keys == [] then 0 else items[keys[0]].weight + WeightOf(items, keys[1..])
  }

  /** The total price of the items whose indices are `keys`. */
  function PriceOf(items: seq<Item>, keys: seq<nat>): int
    requires Below(keys, |items|)
  {
    if keys == [] then 0 else items[keys[0]].price + PriceOf(items, keys[1..])
  }

  /** The totals of a concatenation of keys add up. */
  lemma {:induction false} TotalsAppend(items: seq<Item>, a: seq<nat>, b: seq<nat>)
    requires Below(a, |items|) && Below(b, |items|)
    ensures Below(a + b, |items|)
    ensures WeightOf(items, a + b) == WeightOf(items, a) + WeightOf(items, b)
    ensures PriceOf(items, a + b) == PriceOf(items, a) + PriceOf(items, b)
    decreases |a|
  {
    if a == [] {
      assert a + b == b;
    } else {
      assert (a + b)[1..] == a[1..] + b;
      TotalsAppend(items, a[1..], b);
    }
  }

  /** Inserting item k's index adds item k's weight and price. */
  lemma TotalsInsertKey(items: seq<Item>, keys: seq<nat>, k: nat)
    requires Increasing(keys) && Below(keys, |items|) && k < |items| && k !in keys
    ensures Below(InsertKey(keys, k), |items|)
    ensures WeightOf(items, InsertKey(keys, k)) == WeightOf(items, keys) + items[k].weight
    ensures PriceOf(items, InsertKey(keys, k)) == PriceOf(items, keys) + items[k].price
  {
    var p := LowerBound(keys, k);
    var front, back := keys[..p], keys[p..];
    assert keys == front + back;
    assert Below(front, |items|) && Below(back, |items|);
    TotalsAppend(items, front, back);
    TotalsAppend(items, front, [k]);
    TotalsAppend(items, front + [k], back);
    assert WeightOf(items, [k]) == items[k].weight && PriceOf(items, [k]) == items[k].price;
  }

  /** The node's backpack weighs what `base` weighs plus its items, and is
      worth what `base` is worth plus its items. */
  predicate HasTotals(n: Node, base: BackPack, items: seq<Item>) {
    Below(n.keys, |items|) &&
    n.bp.weight == base.weight + WeightOf(items, n.keys) &&
    n.bp.price == base.price + PriceOf(items, n.keys)
  }

  /** Every node of the subtree has its totals. */
  predicate AllHaveTotals(n: Node, base: BackPack, items: seq<Item>)
    decreases n
  {
    HasTotals(n, base, items) && forall c :: c in n.children ==> AllHaveTotals(c, base, items)
  }

  /** Every node solve builds under a node with its totals has its totals:
      a child adds exactly the weight and price of the item it places. */
  lemma {:induction false} BuildTotals(bp: BackPack, keys: seq<nat>, items: seq<Item>, orients: seq<seq<Grid>>,
                                       base: BackPack)
    requires Increasing(keys) && Below(keys, |items|)
    requires HasTotals(Node(bp, keys, [], true), base, items)
    ensures AllHaveTotals(Build(bp, keys, items, orients), base, items)
    decreases |items| - |keys|
  {
    var node := Build(bp, keys, items, orients);
    var moves := Moves(bp.shape, keys, items, orients);
    KeysFit(keys, |items|);
    BuildLeaf(bp, keys, items, orients);
    ChildrenForLength(bp, keys, items, orients, moves);
    forall c | c in node.children ensures AllHaveTotals(c, base, items) {
      var j :| 0 <= j < |node.children| && node.children[j] == c;
      ChildrenForAt(bp, keys, items, orients, moves, j);
      var m := moves[j];
      if m.key < |items| && m.key !in keys {
        TotalsInsertKey(items, keys, m.key);
        InsertKeyBelow(keys, m.key, |items|);
        BuildTotals(PutAt(bp, items[m.key], m.key, m.shape, m.row, m.col), InsertKey(keys, m.key), items, orients,
                    base);
      }
    }
  }

  /** The root has no items, so every node of the tree holds the container's
      weight and price plus those of its items. */
  lemma RootTotals(bp: BackPack, items: seq<Item>)
    ensures AllHaveTotals(Build(bp, [], items, Rotations(items)), bp, items)
  {
    BuildTotals(bp, [], items, Rotations(items), bp);
  }

  // ---------------------------------------------------------------------------
  // Node::search

  /** BackPackSearch: a backpack found by search, and whether its node is a leaf. */
  datatype Hit = Hit(bp: BackPack, leaf: bool)

  /** What search reports under the children `cs`: each child priced at the
      target, then what its own children report, stopping at the first child
      priced above the target. */
  function Found(cs: seq<Node>, price: int): seq<Hit>
    decreases cs
  {
    if cs == [] then []
    else if cs[0].bp.price > price then []
    else HitAt(cs[0], price) + Found(cs[0].children, price) + Found(cs[1..], price)
  }

  /** The nodes under the children `cs`, in pre-order. */
  function NodesOf(cs: seq<Node>): seq<Node>
    decreases cs
  {
    if cs == [] then [] else [cs[0]] + NodesOf(cs[0].children) + NodesOf(cs[1..])
  }

  /** The hits for the nodes of `ns` priced at the target, in order. */
  function Matching(ns: seq<Node>, price: int): seq<Hit> {
    if ns == [] then [] else HitAt(ns[0], price) + Matching(ns[1..], price)
  }

  /** The hit for node `n` if it is priced at the target. */
  function HitAt(n: Node, price: int): seq<Hit> {
    if n.bp.price == price then [Hit(n.bp, n.leaf)] else []
  }

  lemma {:induction false} MatchingAppend(a: seq<Node>, b: seq<Node>, price: int)
    ensures Matching(a + b, price) == Matching(a, price) + Matching(b, price)
    decreases |a|
  {
    if a == [] {
      assert a + b == b;
    } else {
      assert (a + b)[0] == a[0] && (a + b)[1..] == a[1..] + b;
      MatchingAppend(a[1..], b, price);
    }
  }

  /** Every hit search reports is a node below the children, priced at the
      target: nothing is reported that is not there. */
  lemma {:induction false} FoundSound(cs: seq<Node>, price: int, h: Hit)
    requires h in Found(cs, price)
    ensures h in Matching(NodesOf(cs), price)
    ensures h.bp.price == price
    decreases cs
  {
    var head := HitAt(cs[0], price);
    var below, rest := NodesOf(cs[0].children), NodesOf(cs[1..]);
    MatchingAppend([cs[0]], below, price);
    MatchingAppend([cs[0]] + below, rest, price);
    assert Matching([cs[0]], price) == head;
    if h in head {
    } else if h in Found(cs[0].children, price) {
      FoundSound(cs[0].children, price, h);
    } else {
      assert h in Found(cs[1..], price);
      FoundSound(cs[1..], price, h);
    }
  }

  /** When no node below the children is priced above the target, search
      reports every node priced at it, in pre-order. */
  lemma {:induction false} FoundComplete(cs: seq<Node>, price: int)
    requires forall n :: n in NodesOf(cs) ==> n.bp.price <= price
    ensures Found(cs, price) == Matching(NodesOf(cs), price)
    decreases cs
  {
    if cs != [] {
      var below, rest := NodesOf(cs[0].children), NodesOf(cs[1..]);
      assert NodesOf(cs) == [cs[0]] + below + rest;
      FoundComplete(cs[0].children, price);
      FoundComplete(cs[1..], price);
      MatchingAppend([cs[0]], below, price);
      MatchingAppend([cs[0]] + below, rest, price);
    }
  }

  /** The break is not a pruning of one subtree: a child priced above the
      target hides its later siblings too, even one priced exactly at it. */
  lemma FoundStopsAtDearerSibling()
    ensures var dear := Node(BackPack([], 0, 10), [0], [], true);
      var cheap := Node(BackPack([], 0, 5), [1], [], true);
      Found([dear, cheap], 5) == [] && Matching(NodesOf([dear, cheap]), 5) == [Hit(cheap.bp, true)]
  {
    var dear := Node(BackPack([], 0, 10), [0], [], true);
    var cheap := Node(BackPack([], 0, 5), [1], [], true);
    assert NodesOf([cheap]) == [cheap];
    assert NodesOf([dear, cheap]) == [dear, cheap];
    assert Matching([cheap], 5) == [Hit(cheap.bp, true)];
  }

  /** Search at the k-th child: stop when it is priced above the target,
      otherwise its hit, then its subtree's hits, then the later siblings'. */
  lemma FoundStep(cs: seq<Node>, k: nat, price: int)
    requires k < |cs|
    ensures cs[k].bp.price > price ==> Found(cs[k..], price) == []
    ensures cs[k].bp.price <= price ==>
      Found(cs[k..], price) == HitAt(cs[k], price) + Found(cs[k].children, price) + Found(cs[k + 1..], price)
    ensures HitAt(cs[k], price) == if cs[k].bp.price == price then [Hit(cs[k].bp, cs[k].leaf)] else []
  {
    assert cs[k..][0] == cs[k] && cs[k..][1..] == cs[k + 1..];
  }

  /** Regrouping the hits while the walk moves on by one child. */
  lemma Regroup<T>(f: seq<T>, pre: seq<T>, a: seq<T>, b: seq<T>, r: seq<T>)
    requires f == pre + (a + b + r)
    ensures f == pre + a + b + r
  {
  }

  /** Node::search: walk the children in order; report a child priced at the
      target, stop at the first child priced above it, and otherwise append
      what the child's own search reports. */
  method SearchNode(node: Node, price: int) returns (res: seq<Hit>)
    ensures res == Found(node.children, price)
    decreases node
  {
    res := [];
    var k := 0;
    while k < |node.children|
      invariant 0 <= k <= |node.children|
      invariant res + Found(node.children[k..], price) == Found(node.children, price)
    {
      var c := node.children[k];
      FoundStep(node.children, k, price);
      ghost var before := res;
      if c.bp.price == price {
        res := res + [Hit(c.bp, c.leaf)];
      }
      if c.bp.price > price {
        assert res + [] == res;
        return;
      }
      var sub := SearchNode(c, price);
      Regroup(Found(node.children, price), before, HitAt(c, price), sub, Found(node.children[k + 1..], price));
      res := res + sub;
      k := k + 1;
    }
    assert res + [] == res;
  }

  // ---------------------------------------------------------------------------
  // SolutionTree

  /** The solution tree: the empty backpack it starts from and, once solved,
      its root. */
  class SolutionTree {
    var backPack: BackPack
    var root: Option<Node>

    /** SolutionTree(bp): no root yet. */
    constructor(bp: BackPack)
      ensures backPack == bp && root == None
    {
      backPack := bp;
      root := None;
    }

    /** solve: build the root for the stored backpack over `items` and
        return the solution set, collected from empty. */
    method Solve(items: seq<Item>) returns (solutions: seq<BackPack>)
      modifies this
      ensures backPack == old(backPack)
      ensures root == Some(Build(backPack, [], items, Rotations(items)))
      ensures StrictlyAscending(solutions) && solutions == InsertAll([], Leaves(root.value))
    {
      var node, sols := NewRoot(backPack, [], items);
      root := Some(node);
      solutions := sols;
    }

    /** search: what the root's search reports, or nothing before solve. */
    method Search(price: int) returns (res: seq<Hit>)
      ensures res == if root.Some? then Found(root.value.children, price) else []
    {
      res := [];
      if root.Some? {
        res := SearchNode(root.value, price);
      }
    }
  }

  /** The solutions are leaves of the tree, and every leaf's (price, weight)
      class is represented by exactly the first leaf of that class. */
  lemma SolutionsAreLeaves(node: Node, sols: seq<BackPack>)
    requires sols == InsertAll([], Leaves(node))
    ensures forall y :: y in sols ==> y in Leaves(node)
    ensures forall x :: x in Leaves(node) ==> HasEquivalent(sols, x)
  {
    forall y | y in sols ensures y in Leaves(node) {
      InsertAllSound([], Leaves(node), y);
    }
    forall x | x in Leaves(node) ensures HasEquivalent(sols, x) {
      InsertAllComplete([], Leaves(node), x);
    }
  }
}
