/** `BTree<int>` (src/btree.h): a B-tree of minimum degree `t` that splits
    every full node it meets on the way down, so that the node it finally
    inserts into has room. The nodes are values here: `insertNonFull` and
    `splitChild` return the updated node rather than rewriting it in place,
    and the tree object replaces its root. */
module BTrees {
  import opened Outcomes
  import SortedSequences

  /** A node: its keys (the source's `n` is `|keys|`), its children (none in
      a leaf) and the leaf flag. */
  datatype BNode = BNode(keys: seq<int>, children: seq<BNode>, leaf: bool)

  // ---------------------------------------------------------------------------
  // In-order traversal and the shape of a B-tree

  /** The keys of a subtree in the order `traverse` visits them: child 0,
      key 0, child 1, key 1, ..., the last child. */
  function InOrder(node: BNode): seq<int>
    decreases node
  {
    if node.leaf || node.children == [] then node.keys
    else InOrder(node.children[0]) + InOrderRest(node.keys, node.children[1..])
  }

  /** Each key followed by the traversal of the child after it. */
  function InOrderRest(keys: seq<int>, children: seq<BNode>): seq<int>
    decreases children
  {
    if keys == [] || children == [] then []
    else [keys[0]] + InOrder(children[0]) + InOrderRest(keys[1..], children[1..])
  }

  /** The shape every node of a B-tree of minimum degree `t` keeps at height
      `h`: at most 2t-1 keys; a leaf exactly at height 0; an internal node
      with one more child than keys, each child holding at least t-1 keys
      and all of them of height h-1 (so every leaf is at the same depth). */
  ghost predicate Shaped(node: BNode, t: int, h: nat)
    decreases node
  {
    && |node.keys| <= 2 * t - 1
    && (h == 0 ==> node.leaf && node.children == [])
    && (h > 0 ==>
          && !node.leaf
          && |node.children| == |node.keys| + 1
          && forall j :: 0 <= j < |node.children| ==>
               t - 1 <= |node.children[j].keys| && Shaped(node.children[j], t, h - 1))
  }

  /** What the traversal of an internal node visits before child `j`. */
  function Before(node: BNode, j: nat): seq<int>
    requires j <= |node.keys| && j < |node.children|
  {
    if j == 0 then []
    else InOrder(node.children[0]) + InOrderRest(node.keys[..j - 1], node.children[1..j]) + [node.keys[j - 1]]
  }

  /** What the traversal of an internal node visits after child `j`. */
  function After(node: BNode, j: nat): seq<int>
    requires j <= |node.keys| && j < |node.children|
  {
    InOrderRest(node.keys[j..], node.children[j + 1..])
  }

  lemma {:induction false} RestAppend(k1: seq<int>, c1: seq<BNode>, k2: seq<int>, c2: seq<BNode>)
    requires |k1| == |c1|
    ensures InOrderRest(k1 + k2, c1 + c2) == InOrderRest(k1, c1) + InOrderRest(k2, c2)
    decreases |k1|
  {
    if k1 == [] {
      assert k1 + k2 == k2 && c1 + c2 == c2;
    } else {
      assert (k1 + k2)[1..] == k1[1..] + k2;
      assert (c1 + c2)[1..] == c1[1..] + c2;
      RestAppend(k1[1..], c1[1..], k2, c2);
    }
  }

  /** The traversal of an internal node splits around any of its children. */
  lemma Decompose(node: BNode, j: nat)
    requires !node.leaf && |node.children| == |node.keys| + 1 && j <= |node.keys|
    ensures InOrder(node) == Before(node, j) + InOrder(node.children[j]) + After(node, j)
  {
    var ks, cs := node.keys, node.children;
    if j == 0 {
      assert ks[0..] == ks;
    } else {
      assert ks[..j - 1] + ks[j - 1..] == ks;
      assert cs[1..j] + cs[j..] == cs[1..];
      RestAppend(ks[..j - 1], cs[1..j], ks[j - 1..], cs[j..]);
      assert ks[j - 1..][1..] == ks[j..];
      assert cs[j..][1..] == cs[j + 1..];
      Reassociate(InOrder(cs[0]), InOrderRest(ks[..j - 1], cs[1..j]), ks[j - 1], InOrder(cs[j]), After(node, j));
    }
  }

  lemma Reassociate(a: seq<int>, b: seq<int>, k: int, c: seq<int>, d: seq<int>)
    ensures a + (b + ([k] + c + d)) == a + b + [k] + c + d
  {
  }

  /** What follows child `j` starts with key `j` and the child after it. */
  lemma AfterStep(node: BNode, j: nat)
    requires |node.children| == |node.keys| + 1 && j < |node.keys|
    ensures After(node, j) == [node.keys[j]] + InOrder(node.children[j + 1]) + After(node, j + 1)
  {
    assert node.keys[j..][1..] == node.keys[j + 1..];
    assert node.children[j + 1..][1..] == node.children[j + 2..];
  }

  /** What precedes child `j + 1` is what precedes child `j`, that child and
      key `j`. */
  lemma BeforeStep(node: BNode, j: nat)
    requires |node.children| == |node.keys| + 1 && j < |node.keys|
    ensures Before(node, j + 1) == Before(node, j) + InOrder(node.children[j]) + [node.keys[j]]
  {
    var ks, cs := node.keys, node.children;
    if j == 0 {
      assert ks[..0] == [];
    } else {
      assert ks[..j - 1] + [ks[j - 1]] == ks[..j];
      assert cs[1..j] + [cs[j]] == cs[1..j + 1];
      RestAppend(ks[..j - 1], cs[1..j], [ks[j - 1]], [cs[j]]);
      assert InOrderRest([ks[j - 1]], [cs[j]]) == [ks[j - 1]] + InOrder(cs[j]);
    }
  }

  /** Replacing child `j` leaves what is visited around it alone. */
  lemma ReplaceKeepsSides(node: BNode, j: nat, c: BNode)
    requires j <= |node.keys| && j < |node.children|
    ensures Before(node.(children := node.children[j := c]), j) == Before(node, j)
    ensures After(node.(children := node.children[j := c]), j) == After(node, j)
  {
    var cs := node.children[j := c];
    if j > 0 {
      assert cs[1..j] == node.children[1..j];
    }
    assert cs[j + 1..] == node.children[j + 1..];
  }

  lemma ReplaceKeepsShape(node: BNode, j: nat, c: BNode, t: int, h: nat)
    requires h > 0 && Shaped(node, t, h) && j < |node.children|
    requires Shaped(c, t, h - 1) && t - 1 <= |c.keys|
    ensures Shaped(node.(children := node.children[j := c]), t, h)
  {
  }

  // ---------------------------------------------------------------------------
  // Sequences with one key put in place

  /** `after` is `before` with `k` put at position `p`, after keys not
      greater than `k` and before keys not less than it. */
  ghost predicate Placed(before: seq<int>, after: seq<int>, k: int, p: nat) {
    p <= |before| && after == before[..p] + [k] + before[p..] &&
    (forall j :: 0 <= j < p ==> before[j] <= k) &&
    (forall j :: p <= j < |before| ==> k <= before[j])
  }

  /** A key put in place keeps a sorted sequence sorted and adds one copy. */
  lemma PlacedKeepsOrder(before: seq<int>, after: seq<int>, k: int, p: nat)
    requires SortedSequences.Sorted(before) && Placed(before, after, k, p)
    ensures SortedSequences.Sorted(after)
    ensures multiset(after) == multiset(before) + multiset{k}
  {
    assert before == before[..p] + before[p..];
    forall i, j | 0 <= i < j < |after|
      ensures after[i] <= after[j]
    {
      if j < p || i > p {
      } else if i == p {
        assert after[j] == before[j - 1];
      } else if j == p {
        assert after[i] == before[i];
      } else {
        assert after[i] == before[i] && after[j] == before[j - 1];
      }
    }
  }

  /** A key put in place inside the middle part of a sorted sequence, between
      the last key before it and the first key after it, is in place in the
      whole sequence. */
  lemma PlaceInMiddle(b: seq<int>, c: seq<int>, a: seq<int>, c': seq<int>, k: int, q: nat)
    requires SortedSequences.Sorted(b + c + a)
    requires b != [] ==> b[|b| - 1] <= k
    requires a != [] ==> k <= a[0]
    requires Placed(c, c', k, q)
    ensures Placed(b + c + a, b + c' + a, k, |b| + q)
  {
    var s := b + c + a;
    assert s[..|b| + q] == b + c[..q];
    assert s[|b| + q..] == c[q..] + a;
    forall j | 0 <= j < |b| + q
      ensures s[j] <= k
    {
      if j < |b| {
        assert s[j] <= s[|b| - 1];
      } else {
        assert s[j] == c[j - |b|];
      }
    }
    forall j | |b| + q <= j < |s|
      ensures k <= s[j]
    {
      if j < |b| + |c| {
        assert s[j] == c[j - |b|];
      } else {
        assert s[|b| + |c|] <= s[j];
      }
    }
  }

  /** A key put in place in child `j` of an internal node whose keys around
      that child bound it is in place in the node's traversal. */
  lemma PlaceInChild(node: BNode, j: nat, c: BNode, k: int, q: nat)
    requires !node.leaf && |node.children| == |node.keys| + 1 && j <= |node.keys|
    requires SortedSequences.Sorted(InOrder(node))
    requires j > 0 ==> node.keys[j - 1] <= k
    requires j < |node.keys| ==> k <= node.keys[j]
    requires Placed(InOrder(node.children[j]), InOrder(c), k, q)
    ensures Placed(InOrder(node), InOrder(node.(children := node.children[j := c])),
                   k, |Before(node, j)| + q)
  {
    var node' := node.(children := node.children[j := c]);
    Decompose(node, j);
    Decompose(node', j);
    ReplaceKeepsSides(node, j, c);
    if j < |node.keys| {
      AfterStep(node, j);
    } else {
      assert node.keys[j..] == [];
    }
    PlaceInMiddle(Before(node, j), InOrder(node.children[j]), After(node, j), InOrder(c), k, q);
  }

  /** The middle part of a sorted sequence is sorted. */
  lemma SortedMiddle(b: seq<int>, c: seq<int>, a: seq<int>)
    requires SortedSequences.Sorted(b + c + a)
    ensures SortedSequences.Sorted(c)
  {
    forall i, j | 0 <= i < j < |c|
      ensures c[i] <= c[j]
    {
      assert c[i] == (b + c + a)[|b| + i] && c[j] == (b + c + a)[|b| + j];
    }
  }

  // ---------------------------------------------------------------------------
  // splitChild

  /** The node `y` stays after a split: its first t-1 keys and first t
      children. */
  function LowerHalf(y: BNode, t: int): BNode
    requires 1 <= t && |y.keys| == 2 * t - 1 && (!y.leaf ==> |y.children| == 2 * t)
  {
    BNode(y.keys[..t - 1], if y.leaf then [] else y.children[..t], y.leaf)
  }

  /** The new node `z` of a split: the last t-1 keys and last t children of
      `y`. */
  function UpperHalf(y: BNode, t: int): BNode
    requires 1 <= t && |y.keys| == 2 * t - 1 && (!y.leaf ==> |y.children| == 2 * t)
  {
    BNode(y.keys[t..], if y.leaf then [] else y.children[t..], y.leaf)
  }

  /** The node after `splitChild(i, y)` with `y` the full child `i`: the
      median key `y.keys[t-1]` moves up to index `i`, `y` keeps the lower
      half and the upper half becomes child `i + 1`. */
  function Split(node: BNode, i: nat, t: int): BNode
    requires 1 <= t && |node.children| == |node.keys| + 1 && i <= |node.keys|
    requires |node.children[i].keys| == 2 * t - 1
    requires !node.children[i].leaf ==> |node.children[i].children| == 2 * t
  {
    var y := node.children[i];
    BNode(node.keys[..i] + [y.keys[t - 1]] + node.keys[i..],
          node.children[..i] + [LowerHalf(y, t), UpperHalf(y, t)] + node.children[i + 1..],
          node.leaf)
  }

  /** The two halves and the median traverse as the full node did. */
  lemma HalvesInOrder(y: BNode, t: int)
    requires 1 <= t && |y.keys| == 2 * t - 1 && (!y.leaf ==> |y.children| == 2 * t)
    ensures InOrder(y) == InOrder(LowerHalf(y, t)) + [y.keys[t - 1]] + InOrder(UpperHalf(y, t))
  {
    var ys, yc := y.keys, y.children;
    if y.leaf {
      assert ys == ys[..t - 1] + [ys[t - 1]] + ys[t..];
    } else {
      Decompose(y, t);
      assert yc[..t][1..] == yc[1..t];
      assert yc[t..][1..] == yc[t + 1..];
    }
  }

  /** Splitting a full child keeps the traversal of the parent. */
  lemma SplitKeepsOrder(node: BNode, i: nat, t: int)
    requires 1 <= t && !node.leaf && |node.children| == |node.keys| + 1 && i <= |node.keys|
    requires |node.children[i].keys| == 2 * t - 1
    requires !node.children[i].leaf ==> |node.children[i].children| == 2 * t
    ensures InOrder(Split(node, i, t)) == InOrder(node)
  {
    var y := node.children[i];
    var node' := Split(node, i, t);
    Decompose(node, i);
    Decompose(node', i);
    HalvesInOrder(y, t);
    SplitKeepsBefore(node, i, t);
    SplitAfter(node, i, t);
    Regroup(Before(node, i), InOrder(LowerHalf(y, t)), y.keys[t - 1], InOrder(UpperHalf(y, t)), After(node, i));
    assert node'.children[i] == LowerHalf(y, t);
  }

  lemma Regroup(b: seq<int>, l: seq<int>, m: int, u: seq<int>, a: seq<int>)
    ensures b + l + ([m] + u + a) == b + (l + [m] + u) + a
  {
  }

  lemma SplitKeepsBefore(node: BNode, i: nat, t: int)
    requires 1 <= t && |node.children| == |node.keys| + 1 && i <= |node.keys|
    requires |node.children[i].keys| == 2 * t - 1
    requires !node.children[i].leaf ==> |node.children[i].children| == 2 * t
    ensures Before(Split(node, i, t), i) == Before(node, i)
  {
    var node' := Split(node, i, t);
    if i > 0 {
      assert node'.children[0] == node.children[0];
      assert node'.keys[i - 1] == node.keys[i - 1];
      assert node'.keys[..i - 1] == node.keys[..i - 1];
      assert node'.children[1..i] == node.children[1..i];
    }
  }

  lemma SplitAfter(node: BNode, i: nat, t: int)
    requires 1 <= t && |node.children| == |node.keys| + 1 && i <= |node.keys|
    requires |node.children[i].keys| == 2 * t - 1
    requires !node.children[i].leaf ==> |node.children[i].children| == 2 * t
    ensures After(Split(node, i, t), i) ==
      [node.children[i].keys[t - 1]] + InOrder(UpperHalf(node.children[i], t)) + After(node, i)
  {
    var node' := Split(node, i, t);
    assert node'.keys[i..] == [node.children[i].keys[t - 1]] + node.keys[i..];
    assert node'.children[i + 1..] == [UpperHalf(node.children[i], t)] + node.children[i + 1..];
    assert node'.keys[i..][1..] == node.keys[i..];
    assert node'.children[i + 1..][1..] == node.children[i + 1..];
  }

  /** Splitting a full child of a node with room keeps the B-tree shape:
      both halves get t-1 keys and the parent one key more. */
  lemma SplitKeepsShape(node: BNode, i: nat, t: int, h: nat)
    requires 1 <= t && h > 0 && Shaped(node, t, h) && |node.keys| < 2 * t - 1
    requires i <= |node.keys| && |node.children[i].keys| == 2 * t - 1
    ensures !node.children[i].leaf ==> |node.children[i].children| == 2 * t
    ensures Shaped(Split(node, i, t), t, h)
    ensures |Split(node, i, t).keys| == |node.keys| + 1
    ensures |Split(node, i, t).children[i].keys| == t - 1
    ensures |Split(node, i, t).children[i + 1].keys| == t - 1
  {
    var y := node.children[i];
    assert Shaped(y, t, h - 1);
    var lower, upper := LowerHalf(y, t), UpperHalf(y, t);
    if h - 1 > 0 {
      forall j | 0 <= j < |upper.children|
        ensures t - 1 <= |upper.children[j].keys| && Shaped(upper.children[j], t, h - 2)
      {
        assert upper.children[j] == y.children[t + j];
      }
    }
    assert Shaped(lower, t, h - 1) && Shaped(upper, t, h - 1);
    var cs := Split(node, i, t).children;
    forall j | 0 <= j < |cs|
      ensures t - 1 <= |cs[j].keys| && Shaped(cs[j], t, h - 1)
    {
      if j < i {
        assert cs[j] == node.children[j];
      } else if j > i + 1 {
        assert cs[j] == node.children[j - 1];
      }
    }
  }

  // ---------------------------------------------------------------------------
  // insertNonFull

  /** The leaf branch of `insertNonFull`: shift the keys greater than `k` one
      place right and write `k` into the gap. */
  method LeafInsert(keys: seq<int>, k: int) returns (r: seq<int>, ghost p: nat)
    ensures p <= |keys| && r == keys[..p] + [k] + keys[p..]
    ensures p > 0 ==> keys[p - 1] <= k
    ensures forall j :: p <= j < |keys| ==> k < keys[j]
  {
    var a := keys + [k];
    var i := |keys| - 1;
    while i >= 0 && a[i] > k
      invariant -1 <= i < |keys| && |a| == |keys| + 1
      invariant forall j :: 0 <= j <= i ==> a[j] == keys[j]
      invariant forall j :: i + 2 <= j <= |keys| ==> a[j] == keys[j - 1]
      invariant forall j :: i < j < |keys| ==> k < keys[j]
    {
      a := a[i + 1 := a[i]];
      i := i - 1;
    }
    r := a[i + 1 := k];
    p := i + 1;
    GapFilled(keys, p, k, r);
  }

  /** A sequence that agrees with `s` before `g`, holds `x` at `g` and agrees
      with `s` shifted by one after it is `s` with `x` inserted at `g`. */
  lemma GapFilled<T>(s: seq<T>, g: nat, x: T, r: seq<T>)
    requires g <= |s| && |r| == |s| + 1 && r[g] == x
    requires forall j :: 0 <= j < g ==> r[j] == s[j]
    requires forall j :: g < j <= |s| ==> r[j] == s[j - 1]
    ensures r == s[..g] + [x] + s[g..]
  {
    var e := s[..g] + [x] + s[g..];
    forall j | 0 <= j < |r|
      ensures r[j] == e[j]
    {
      if j > g {
        assert e[j] == s[g..][j - g - 1];
      }
    }
  }

  /** Opening a gap after index `g` and then overwriting index `g` puts two
      entries where there was one. */
  lemma GapThenReplace<T>(s: seq<T>, g: nat, x: T, y: T)
    requires g < |s|
    ensures (s[..g + 1] + [y] + s[g + 1..])[g := x] == s[..g] + [x, y] + s[g + 1..]
  {
    var l := (s[..g + 1] + [y] + s[g + 1..])[g := x];
    var e := s[..g] + [x, y] + s[g + 1..];
    forall j | 0 <= j < |l|
      ensures l[j] == e[j]
    {
      if j > g + 1 {
        assert l[j] == s[j - 1] == e[j];
      }
    }
  }

  /** The shifting loops of `splitChild`: move the entries from `g` on one
      place right, then write `x` into the gap. */
  method OpenGap<T>(s: seq<T>, g: nat, x: T) returns (r: seq<T>)
    requires g <= |s|
    ensures r == s[..g] + [x] + s[g..]
  {
    var a := new T[|s| + 1](j => if 0 <= j < |s| then s[j] else x);
    var j := |s| - 1;
    while j >= g
      invariant g - 1 <= j < |s|
      invariant forall m :: 0 <= m <= j ==> a[m] == s[m]
      invariant forall m :: j + 2 <= m <= |s| ==> a[m] == s[m - 1]
    {
      a[j + 1] := a[j];
      j := j - 1;
    }
    a[g] := x;
    r := a[..];
    GapFilled(s, g, x, r);
  }

  /** The new node `z` of `splitChild`, filled by copying the last t-1 keys
      of `y` and, when `y` is internal, its last t children. */
  method NewUpper(y: BNode, t: int) returns (z: BNode)
    requires 1 <= t && |y.keys| == 2 * t - 1 && (!y.leaf ==> |y.children| == 2 * t)
    ensures z == UpperHalf(y, t)
  {
    var keys := [];
    for j := 0 to t - 1
      invariant keys == y.keys[t..t + j]
    {
      keys := keys + [y.keys[j + t]];
    }
    var children := [];
    if !y.leaf {
      for j := 0 to t
        invariant children == y.children[t..t + j]
      {
        children := children + [y.children[j + t]];
      }
    }
    z := BNode(keys, children, y.leaf);
  }

  /** `splitChild(i, y)` with `y` the full child `i` of a node with room:
      `y` keeps its first t-1 keys (and first t children), a new node `z`
      takes the last t-1 keys (and last t children), `z` becomes child
      `i + 1` and the median `y.keys[t-1]` key `i`. The node keeps its
      traversal and the B-tree shape. */
  method SplitChild(node: BNode, i: nat, t: int, ghost h: nat) returns (r: BNode)
    requires 1 <= t && h > 0 && Shaped(node, t, h) && |node.keys| < 2 * t - 1
    requires i <= |node.keys| && |node.children[i].keys| == 2 * t - 1
    ensures Shaped(r, t, h) && InOrder(r) == InOrder(node) && r.leaf == node.leaf
    ensures r.keys == node.keys[..i] + [node.children[i].keys[t - 1]] + node.keys[i..]
    ensures r.children == node.children[..i] + [r.children[i], r.children[i + 1]] + node.children[i + 1..]
    ensures r.children[i].keys == node.children[i].keys[..t - 1]
    ensures r.children[i + 1].keys == node.children[i].keys[t..]
  {
    var y := node.children[i];
    SplitKeepsShape(node, i, t, h);
    var z := NewUpper(y, t);
    var y' := BNode(y.keys[..t - 1], if y.leaf then [] else y.children[..t], y.leaf);
    var children := OpenGap(node.children, i + 1, z);
    children := children[i := y'];
    GapThenReplace(node.children, i, y', z);
    var keys := OpenGap(node.keys, i, y.keys[t - 1]);
    r := BNode(keys, children, node.leaf);
    SplitKeepsOrder(node, i, t);
  }

  /** `insertNonFull(k)` on a node with room: in a leaf, put `k` among the
      keys; otherwise find the child to descend into, split it first when it
      is full (then pick the half by the median), and insert there. The
      result keeps the B-tree shape and height, and its traversal is the old
      one with `k` put in place. */
  method InsertNonFull(node: BNode, k: int, t: int, ghost h: nat) returns (r: BNode, ghost p: nat)
    requires 1 <= t && Shaped(node, t, h) && |node.keys| < 2 * t - 1
    requires SortedSequences.Sorted(InOrder(node))
    ensures Shaped(r, t, h) && |node.keys| <= |r.keys|
    ensures Placed(InOrder(node), InOrder(r), k, p)
    decreases h, 1
  {
    if node.leaf {
      var keys;
      keys, p := LeafInsert(node.keys, k);
      r := node.(keys := keys);
      forall j | 0 <= j < p
        ensures node.keys[j] <= k
      {
        assert node.keys[j] <= node.keys[p - 1];
      }
    } else {
      var i := |node.keys| - 1;
      while i >= 0 && node.keys[i] > k
        invariant -1 <= i < |node.keys|
        invariant forall j :: i < j < |node.keys| ==> k < node.keys[j]
      {
        i := i - 1;
      }
      var n, j := MakeRoom(node, i + 1, k, t, h);
      r, p := InsertIntoChild(n, j, k, t, h);
    }
  }

  /** The middle of the internal branch of `insertNonFull`: when child `j`
      (the first whose right key exceeds `k`) is full, split it and step to
      the upper half when its median is less than `k`. The node keeps its
      traversal and shape, and the keys around the chosen child still bound
      `k`. */
  method MakeRoom(node: BNode, j: nat, k: int, t: int, ghost h: nat) returns (n: BNode, j': nat)
    requires 1 <= t && h > 0 && Shaped(node, t, h) && |node.keys| < 2 * t - 1
    requires j <= |node.keys|
    requires j > 0 ==> node.keys[j - 1] <= k
    requires j < |node.keys| ==> k < node.keys[j]
    ensures Shaped(n, t, h) && InOrder(n) == InOrder(node)
    ensures |node.keys| <= |n.keys| && j' <= |n.keys|
    ensures |n.children[j'].keys| < 2 * t - 1
    ensures j' > 0 ==> n.keys[j' - 1] <= k
    ensures j' < |n.keys| ==> k <= n.keys[j']
  {
    n, j' := node, j;
    if |node.children[j].keys| == 2 * t - 1 {
      n := SplitChild(node, j, t, h);
      if n.keys[j] < k {
        j' := j + 1;
        assert n.keys[j + 1..] == node.keys[j..];
      } else {
        assert n.keys[..j] == node.keys[..j];
      }
    }
  }

  /** The end of `insertNonFull` in an internal node: insert into child `j`,
      which has room and whose neighbouring keys bound `k`. */
  method InsertIntoChild(n: BNode, j: nat, k: int, t: int, ghost h: nat) returns (r: BNode, ghost p: nat)
    requires 1 <= t && h > 0 && Shaped(n, t, h) && j <= |n.keys|
    requires SortedSequences.Sorted(InOrder(n))
    requires |n.children[j].keys| < 2 * t - 1
    requires j > 0 ==> n.keys[j - 1] <= k
    requires j < |n.keys| ==> k <= n.keys[j]
    ensures Shaped(r, t, h) && |n.keys| == |r.keys|
    ensures Placed(InOrder(n), InOrder(r), k, p)
    decreases h, 0
  {
    Decompose(n, j);
    SortedMiddle(Before(n, j), InOrder(n.children[j]), After(n, j));
    var c, q := InsertNonFull(n.children[j], k, t, h - 1);
    PlaceInChild(n, j, c, k, q);
    ReplaceKeepsShape(n, j, c, t, h);
    r := n.(children := n.children[j := c]);
    p := |Before(n, j)| + q;
  }

  /** The full-root branch of `insert`: a new internal root `s` with the old
      root as its only child, split; then `k` goes into child 1 when the
      median is less than `k`, else into child 0. The tree grows by one
      level. */
  method GrowRoot(root: BNode, k: int, t: int, ghost h: nat) returns (r: BNode, ghost p: nat)
    requires 1 <= t && Shaped(root, t, h) && |root.keys| == 2 * t - 1
    requires SortedSequences.Sorted(InOrder(root))
    ensures Shaped(r, t, h + 1) && r.keys != []
    ensures Placed(InOrder(root), InOrder(r), k, p)
  {
    var s := BNode([], [root], false);
    assert InOrder(s) == InOrder(root);
    s := SplitChild(s, 0, t, h + 1);
    var i := 0;
    if s.keys[0] < k {
      i := i + 1;
    }
    r, p := InsertIntoChild(s, i, k, t, h + 1);
  }

  // ---------------------------------------------------------------------------
  // search and traverse

  /** In a sorted sequence, a key absent from the place where it would go is
      absent altogether. */
  lemma AbsentFromSorted(s: seq<int>, i: nat, k: int)
    requires SortedSequences.Sorted(s) && i <= |s|
    requires forall j :: 0 <= j < i ==> s[j] < k
    requires i < |s| ==> k < s[i]
    ensures k !in s
  {
    forall j | i <= j < |s|
      ensures s[j] != k
    {
      assert s[i] <= s[j];
    }
  }

  /** The keys of a node are in its traversal. */
  lemma KeyInOrder(node: BNode, i: nat, t: int, h: nat)
    requires Shaped(node, t, h) && i < |node.keys|
    ensures node.keys[i] in InOrder(node)
  {
    if !node.leaf {
      Decompose(node, i);
      AfterStep(node, i);
    }
  }

  /** When the scan of `search` stops at child `i` without finding `k`, `k`
      is in the node's traversal exactly when it is in that child's. */
  lemma SearchDescends(node: BNode, i: nat, k: int)
    requires !node.leaf && |node.children| == |node.keys| + 1 && i <= |node.keys|
    requires SortedSequences.Sorted(InOrder(node))
    requires forall j :: 0 <= j < i ==> node.keys[j] < k
    requires i < |node.keys| ==> k < node.keys[i]
    ensures SortedSequences.Sorted(InOrder(node.children[i]))
    ensures k in InOrder(node) <==> k in InOrder(node.children[i])
  {
    var b, c, a := Before(node, i), InOrder(node.children[i]), After(node, i);
    Decompose(node, i);
    SortedMiddle(b, c, a);
    var s := b + c + a;
    if i < |node.keys| {
      AfterStep(node, i);
    } else {
      assert node.keys[i..] == [];
    }
    forall j | 0 <= j < |b|
      ensures s[j] < k
    {
      assert s[j] <= s[|b| - 1];
    }
    forall j | |b| + |c| <= j < |s|
      ensures k < s[j]
    {
      assert s[|b| + |c|] <= s[j];
    }
    forall j | 0 <= j < |b|
      ensures b[j] != k
    {
      assert b[j] == s[j];
    }
    forall j | 0 <= j < |a|
      ensures a[j] != k
    {
      assert a[j] == s[|b| + |c| + j];
    }
  }

  /** `BTreeNode::search(k)`: scan to the first key not less than `k`; the
      node itself when that key is `k`, nothing in a leaf, else the search
      goes on in the child before that key. The scan is guarded by `i < n`. */
  method SearchNode(node: BNode, k: int, ghost t: int, ghost h: nat) returns (r: Option<BNode>)
    requires Shaped(node, t, h) && SortedSequences.Sorted(InOrder(node))
    ensures r.Some? <==> k in InOrder(node)
    ensures r.Some? ==> k in r.value.keys
    decreases node
  {
    var i := 0;
    while i < |node.keys| && k > node.keys[i]
      invariant 0 <= i <= |node.keys|
      invariant forall j :: 0 <= j < i ==> node.keys[j] < k
    {
      i := i + 1;
    }
    if i < |node.keys| && node.keys[i] == k {
      KeyInOrder(node, i, t, h);
      return Some(node);
    }
    if node.leaf {
      AbsentFromSorted(node.keys, i, k);
      return None;
    }
    SearchDescends(node, i, k);
    r := SearchNode(node.children[i], k, t, h - 1);
  }

  /** `BTreeNode::traverse`, collecting the keys it prints. */
  method TraverseNode(node: BNode, ghost t: int, ghost h: nat) returns (out: seq<int>)
    requires Shaped(node, t, h)
    ensures out == InOrder(node)
    decreases node
  {
    out := [];
    var i := 0;
    while i < |node.keys|
      invariant 0 <= i <= |node.keys|
      invariant node.leaf ==> out == node.keys[..i]
      invariant !node.leaf ==> out == Before(node, i)
    {
      if !node.leaf {
        var sub := TraverseNode(node.children[i], t, h - 1);
        BeforeStep(node, i);
        out := out + sub;
      }
      out := out + [node.keys[i]];
      i := i + 1;
    }
    if node.leaf {
      assert node.keys[..i] == node.keys;
    } else {
      var sub := TraverseNode(node.children[i], t, h - 1);
      Decompose(node, i);
      assert node.keys[i..] == [];
      out := out + sub;
    }
  }

  // ---------------------------------------------------------------------------
  // The tree

  /** A root, null for the empty tree, of a B-tree of minimum degree `t` and
      height `h`: the shape holds at every node, the root holds a key and
      the traversal is in order. */
  ghost predicate WellFormed(root: Option<BNode>, t: int, h: nat) {
    root.Some? ==>
      Shaped(root.value, t, h) && root.value.keys != [] &&
      SortedSequences.Sorted(InOrder(root.value))
  }

  /** The keys of a tree in traversal order. */
  function Keys(root: Option<BNode>): seq<int> {
    if root.Some? then InOrder(root.value) else []
  }

  /** `BTree::insert(k)` on the root: an empty tree gets a one-key leaf; a
      full root is first split under a new root, which makes the tree one
      level taller; otherwise `k` goes into the root, which has room. The
      traversal gains `k`, in place. */
  method InsertKey(root: Option<BNode>, k: int, t: int, ghost h: nat) returns (r: Option<BNode>, ghost h': nat)
    requires 1 <= t && WellFormed(root, t, h)
    ensures WellFormed(r, t, h')
    ensures multiset(Keys(r)) == multiset(Keys(root)) + multiset{k}
    ensures root.None? ==> h' == 0
    ensures root.Some? ==> h' == if |root.value.keys| == 2 * t - 1 then h + 1 else h
  {
    if root.None? {
      r, h' := Some(BNode([k], [], true)), 0;
      assert Keys(r) == [k];
    } else {
      var node;
      ghost var p;
      if |root.value.keys| == 2 * t - 1 {
        node, p := GrowRoot(root.value, k, t, h);
        h' := h + 1;
      } else {
        node, p := InsertNonFull(root.value, k, t, h);
        h' := h;
      }
      PlacedKeepsOrder(InOrder(root.value), InOrder(node), k, p);
      r := Some(node);
    }
  }

  class BTree {
    /** The root, null while the tree is empty. */
    var root: Option<BNode>
    /** The minimum degree. */
    const t: int
    /** The number of levels below the root. */
    ghost var height: nat
    /** The keys held, with their multiplicities. */
    ghost var contents: multiset<int>

    /** Every node has the B-tree shape for `t`, the root is not empty, the
        traversal is in order and holds `contents`. */
    ghost predicate Valid()
      reads this
    {
      1 <= t && contents == multiset(Elements()) && WellFormed(root, t, height)
    }

    /** The keys in traversal order. */
    ghost function Elements(): seq<int>
      reads this
    {
      Keys(root)
    }

    /** `BTree(t)`: an empty tree of minimum degree `degree`. */
    constructor (degree: int)
      requires 1 <= degree
      ensures Valid() && t == degree && root == None && contents == multiset{}
    {
      t := degree;
      root := None;
      height := 0;
      contents := multiset{};
    }

    /** `traverse`: the keys in the order printed. */
    method Traverse() returns (out: seq<int>)
      requires Valid()
      ensures out == Elements()
      ensures SortedSequences.Sorted(out) && multiset(out) == contents
    {
      out := [];
      if root.Some? {
        out := TraverseNode(root.value, t, height);
      }
    }

    /** `search(k)`: a node holding `k`, or null. */
    method Search(k: int) returns (r: Option<BNode>)
      requires Valid()
      ensures r.Some? <==> k in Elements()
      ensures r.Some? ==> k in r.value.keys
    {
      if root.None? {
        return None;
      }
      r := SearchNode(root.value, k, t, height);
    }

    /** `found(k)`: whether `search(k)` finds a node. */
    method Found(k: int) returns (b: bool)
      requires Valid()
      ensures b <==> k in contents
    {
      var r := Search(k);
      b := r.Some?;
    }

    /** `insert(k)`: `k` is added to the keys, the tree keeps its shape and
        order, and it grows one level exactly when the root was full. */
    method Insert(k: int)
      requires Valid()
      modifies this
      ensures Valid()
      ensures contents == old(contents) + multiset{k}
      ensures old(root).None? ==> height == 0
      ensures old(root).Some? ==>
        height == if |old(root).value.keys| == 2 * t - 1 then old(height) + 1 else old(height)
    {
      var r;
      ghost var h;
      r, h := InsertKey(root, k, t, height);
      root, height := r, h;
      contents := contents + multiset{k};
    }
  }

  // ---------------------------------------------------------------------------
  // The unit test's tree

  /** The first element of a sorted sequence is its least. */
  lemma FirstIsLeast(a: seq<int>, x: int)
    requires SortedSequences.Sorted(a) && x in multiset(a)
    ensures a[0] <= x
  {
    var j :| 0 <= j < |a| && a[j] == x;
  }

  /** Two sorted sequences with the same elements are equal. */
  lemma {:induction false} SortedUnique(a: seq<int>, b: seq<int>)
    requires SortedSequences.Sorted(a) && SortedSequences.Sorted(b)
    requires multiset(a) == multiset(b)
    ensures a == b
    decreases |a|
  {
    assert |a| == |multiset(a)| == |multiset(b)| == |b|;
    if a != [] {
      assert a[0] in multiset(b) && b[0] in multiset(a);
      FirstIsLeast(a, b[0]);
      FirstIsLeast(b, a[0]);
      var a', b' := a[1..], b[1..];
      assert a == [a[0]] + a' && b == [b[0]] + b';
      assert multiset(a') == multiset(a) - multiset{a[0]};
      assert multiset(b') == multiset(b) - multiset{b[0]};
      assert a[0] == b[0];
      assert multiset(a') == multiset(b');
      SortedTail(a);
      SortedTail(b);
      SortedUnique(a', b');
    }
  }

  lemma SortedTail(a: seq<int>)
    requires SortedSequences.Sorted(a) && a != []
    ensures SortedSequences.Sorted(a[1..])
  {
  }

  /** Inserts `keys` in order, checking after each insertion that `found`
      reports the key just inserted. */
  method InsertEach(tree: BTree, keys: seq<int>) returns (allFound: bool)
    requires tree.Valid()
    modifies tree
    ensures tree.Valid() && allFound
    ensures tree.contents == old(tree.contents) + multiset(keys)
    decreases |keys|
  {
    allFound := true;
    if keys != [] {
      assert keys == [keys[0]] + keys[1..];
      var first := InsertThenFind(tree, keys[0]);
      var rest := InsertEach(tree, keys[1..]);
      allFound := first && rest;
    }
  }

  /** `insert(k)` followed by `found(k)`, which reports the key. */
  method InsertThenFind(tree: BTree, k: int) returns (f: bool)
    requires tree.Valid()
    modifies tree
    ensures tree.Valid() && f
    ensures tree.contents == old(tree.contents) + multiset{k}
  {
    tree.Insert(k);
    f := tree.Found(k);
  }

  /** The keys of the unit test, in the order inserted. */
  lemma InsertedKeys()
    ensures multiset([10, 20, 5, 6, 12, 30, 7, 17]) == multiset{5, 6, 7, 10, 12, 17, 20, 30}
  {
  }

  /** The keys of the unit test, in the order traversed. */
  lemma ExpectedKeys()
    ensures multiset([5, 6, 7, 10, 12, 17, 20, 30]) == multiset{5, 6, 7, 10, 12, 17, 20, 30}
  {
  }

  lemma ExpectedSorted()
    ensures SortedSequences.Sorted([5, 6, 7, 10, 12, 17, 20, 30])
  {
  }

  /** A sorted traversal of the unit test's keys can only be
      5 6 7 10 12 17 20 30. */
  lemma ExpectedOrder(order: seq<int>)
    requires SortedSequences.Sorted(order)
    requires multiset(order) == multiset{5, 6, 7, 10, 12, 17, 20, 30}
    ensures order == [5, 6, 7, 10, 12, 17, 20, 30]
  {
    ExpectedKeys();
    ExpectedSorted();
    SortedUnique(order, [5, 6, 7, 10, 12, 17, 20, 30]);
  }

  /** The tree of the unit test: minimum degree 3, found nothing while
      empty, then 10, 20, 5, 6, 12, 30, 7, 17 inserted, each found once
      inserted. */
  method TestTree() returns (tree: BTree, emptyFinds: bool, allFound: bool)
    ensures fresh(tree) && tree.Valid() && tree.t == 3
    ensures !emptyFinds && allFound
    ensures tree.contents == multiset{5, 6, 7, 10, 12, 17, 20, 30}
  {
    tree := new BTree(3);
    emptyFinds := tree.Found(10);
    allFound := InsertEach(tree, [10, 20, 5, 6, 12, 30, 7, 17]);
    InsertedKeys();
  }

  /** The traversal of the unit test's tree. */
  method TraverseTestTree(tree: BTree) returns (order: seq<int>)
    requires tree.Valid() && tree.contents == multiset{5, 6, 7, 10, 12, 17, 20, 30}
    ensures order == [5, 6, 7, 10, 12, 17, 20, 30]
  {
    order := tree.Traverse();
    ExpectedOrder(order);
  }

  /** The unit test's last two probes: 6 is in the tree, 15 is not. */
  method ProbeTestTree(tree: BTree) returns (six: bool, fifteen: bool)
    requires tree.Valid() && tree.contents == multiset{5, 6, 7, 10, 12, 17, 20, 30}
    ensures six && !fifteen
  {
    ProbedKeys();
    six := tree.Found(6);
    fifteen := tree.Found(15);
  }

  lemma ProbedKeys()
    ensures 6 in multiset{5, 6, 7, 10, 12, 17, 20, 30}
    ensures 15 !in multiset{5, 6, 7, 10, 12, 17, 20, 30}
  {
  }

  /** The unit test: an empty tree finds nothing, every key is found once
      inserted, the traversal is 5 6 7 10 12 17 20 30, 6 is present and 15
      is not. */
  method BasicScenario() returns (emptyFinds: bool, allFound: bool, order: seq<int>, six: bool, fifteen: bool)
    ensures !emptyFinds && allFound
    ensures order == [5, 6, 7, 10, 12, 17, 20, 30]
    ensures six && !fifteen
  {
    var tree;
    tree, emptyFinds, allFound := TestTree();
    order := TraverseTestTree(tree);
    six, fifteen := ProbeTestTree(tree);
  }
}
