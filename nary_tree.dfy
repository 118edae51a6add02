/** `Tree<T, N>` (src/tree.h): an n-ary tree whose nodes each have `N` child
    slots. A new value goes into the first empty slot of the root; when all
    of the root's slots are taken it goes, the same way, into the subtree in
    the last slot. The nodes are values here: the recursive `insert` returns
    the updated node and the tree object replaces its root. */
module NaryTrees {
  import opened Outcomes
  import ArraySequences

  /** A node: its value and its `N` child slots, each empty (`nullptr`)
      or holding a subtree. */
  datatype Node<T> = Node(value: T, child: seq<Option<Node<T>>>)

  /** `Node(value)`: a node whose `n` slots are all empty. */
  function Leaf<T>(v: T, n: nat): (r: Node<T>)
    ensures r.value == v && |r.child| == n
    ensures forall i :: 0 <= i < n ==> r.child[i].None?
  {
    Node(v, seq(n, _ => None))
  }

  /** Every node of the subtree has exactly `n` slots. */
  ghost predicate Shaped<T>(node: Node<T>, n: nat)
    decreases node
  {
    && |node.child| == n
    && forall i :: 0 <= i < n ==> node.child[i].Some? ==> Shaped(node.child[i].value, n)
  }

  // ---------------------------------------------------------------------------
  // The values of a subtree

  /** The values of a subtree: the node's own value, then the values of its
      non-empty slots from left to right (the order `print` visits them). */
  function PreOrder<T>(node: Node<T>): seq<T>
    decreases node
  {
    [node.value] + Flatten(node.child)
  }

  /** The values held in a row of slots, left to right. */
  function Flatten<T>(slots: seq<Option<Node<T>>>): seq<T>
    decreases slots
  {
    if slots == [] then []
    else Held(slots[0]) + Flatten(slots[1..])
  }

  /** The values held in one slot: none when it is empty. */
  function Held<T>(slot: Option<Node<T>>): seq<T>
    decreases slot
  {
    if slot.None? then [] else PreOrder(slot.value)
  }

  /** The values of a row of slots split around slot `i`. */
  lemma {:induction false} FlattenSplit<T>(slots: seq<Option<Node<T>>>, i: nat)
    requires i < |slots|
    ensures Flatten(slots) == Flatten(slots[..i]) + Held(slots[i]) + Flatten(slots[i + 1..])
    decreases i
  {
    if i > 0 {
      FlattenSplit(slots[1..], i - 1);
      assert slots[1..][..i - 1] == slots[1..i];
      assert slots[1..][i - 1] == slots[i];
      assert slots[1..][i..] == slots[i + 1..];
      assert slots[..i] == [slots[0]] + slots[1..i];
      assert Flatten(slots[..i]) == Held(slots[0]) + Flatten(slots[1..i]);
    } else {
      assert slots[..0] == [];
    }
  }

  /** Putting `s` into slot `i` trades the values held there for those of
      `s` and leaves the others. */
  lemma FlattenReplace<T>(slots: seq<Option<Node<T>>>, i: nat, s: Option<Node<T>>)
    requires i < |slots|
    ensures multiset(Flatten(slots[i := s])) + multiset(Held(slots[i]))
         == multiset(Flatten(slots)) + multiset(Held(s))
  {
    var slots' := slots[i := s];
    FlattenSplit(slots, i);
    FlattenSplit(slots', i);
    assert slots'[..i] == slots[..i];
    assert slots'[i + 1..] == slots[i + 1..];
  }

  /** A row of empty slots holds nothing. */
  lemma {:induction false} FlattenEmpty<T>(slots: seq<Option<Node<T>>>)
    requires forall i :: 0 <= i < |slots| ==> slots[i].None?
    ensures Flatten(slots) == []
    decreases |slots|
  {
    if slots != [] {
      FlattenEmpty(slots[1..]);
    }
  }

  /** `v` is held in a row of slots iff some non-empty slot's subtree holds
      it. */
  lemma {:induction false} InFlatten<T>(slots: seq<Option<Node<T>>>, v: T)
    ensures v in Flatten(slots) <==>
      exists j :: 0 <= j < |slots| && slots[j].Some? && v in PreOrder(slots[j].value)
    decreases |slots|
  {
    if slots != [] {
      InFlatten(slots[1..], v);
      if v in Flatten(slots[1..]) {
        var j :| 0 <= j < |slots[1..]| && slots[1..][j].Some? && v in PreOrder(slots[1..][j].value);
        assert slots[j + 1] == slots[1..][j];
      }
      if exists j :: 0 <= j < |slots| && slots[j].Some? && v in PreOrder(slots[j].value) {
        var j :| 0 <= j < |slots| && slots[j].Some? && v in PreOrder(slots[j].value);
        if j > 0 {
          assert slots[1..][j - 1] == slots[j];
        }
      }
    }
  }

  // ---------------------------------------------------------------------------
  // find

  /** `Node::find(v)`: the node's own value first, then each non-empty
      slot in turn, stopping at the first subtree that holds `v`. */
  method FindIn<T(==)>(node: Node<T>, v: T) returns (b: bool)
    ensures b <==> v in PreOrder(node)
    decreases node
  {
    if v == node.value {
      return true;
    }
    var i := 0;
    while i < |node.child|
      invariant 0 <= i <= |node.child|
      invariant forall j :: 0 <= j < i ==> node.child[j].Some? ==> v !in PreOrder(node.child[j].value)
    {
      if node.child[i].Some? {
        var found := FindIn(node.child[i].value, v);
        if found {
          InFlatten(node.child, v);
          return true;
        }
      }
      i := i + 1;
    }
    InFlatten(node.child, v);
    return false;
  }

  // ---------------------------------------------------------------------------
  // insert

  /** The index of the first empty slot, or `|slots|` when all are taken. */
  function FirstEmpty<T>(slots: seq<Option<Node<T>>>): (i: nat)
    ensures i <= |slots|
    ensures forall j :: 0 <= j < i ==> slots[j].Some?
    ensures i < |slots| ==> slots[i].None?
  {
    if slots == [] || slots[0].None? then 0 else 1 + FirstEmpty(slots[1..])
  }

  /** The node after `insert(r, newNode)` with a new node holding `v`: the
      new node takes the first empty slot, or, when every slot is taken,
      goes into the subtree in the last slot. */
  ghost function Inserted<T>(r: Node<T>, v: T, n: nat): Node<T>
    requires n >= 1 && Shaped(r, n)
    decreases r
  {
    var i := FirstEmpty(r.child);
    if i < n then r.(child := r.child[i := Some(Leaf(v, n))])
    else r.(child := r.child[n - 1 := Some(Inserted(r.child[n - 1].value, v, n))])
  }

  /** Insertion keeps every node at `n` slots. */
  lemma {:induction false} InsertedShaped<T>(r: Node<T>, v: T, n: nat)
    requires n >= 1 && Shaped(r, n)
    ensures Shaped(Inserted(r, v, n), n)
    decreases r
  {
    if FirstEmpty(r.child) == n {
      InsertedShaped(r.child[n - 1].value, v, n);
    }
  }

  /** Putting `s` into slot `i` of `r` trades the values held there for
      those of `s`. */
  lemma SlotValues<T>(r: Node<T>, i: nat, s: Option<Node<T>>)
    requires i < |r.child|
    ensures multiset(PreOrder(r.(child := r.child[i := s]))) + multiset(Held(r.child[i]))
         == multiset(PreOrder(r)) + multiset(Held(s))
  {
    var r' := r.(child := r.child[i := s]);
    FlattenReplace(r.child, i, s);
    var top, old', new' := multiset{r.value}, multiset(Held(r.child[i])), multiset(Held(s));
    calc {
      multiset(PreOrder(r')) + old';
      (top + multiset(Flatten(r'.child))) + old';
      top + (multiset(Flatten(r'.child)) + old');
      top + (multiset(Flatten(r.child)) + new');
      (top + multiset(Flatten(r.child))) + new';
      multiset(PreOrder(r)) + new';
    }
  }

  /** A new leaf in an empty slot adds its one value. */
  lemma FillValues<T>(r: Node<T>, i: nat, v: T, n: nat)
    requires i < |r.child| && r.child[i].None?
    ensures multiset(PreOrder(r.(child := r.child[i := Some(Leaf(v, n))]))) == multiset(PreOrder(r)) + multiset{v}
  {
    var leaf := Leaf(v, n);
    FlattenEmpty(leaf.child);
    assert Held(Some(leaf)) == [v];
    SlotValues(r, i, Some(leaf));
  }

  /** A subtree that gained `v` gains it for its parent too. */
  lemma DescendValues<T>(r: Node<T>, i: nat, c': Node<T>, v: T)
    requires i < |r.child| && r.child[i].Some?
    requires multiset(PreOrder(c')) == multiset(PreOrder(r.child[i].value)) + multiset{v}
    ensures multiset(PreOrder(r.(child := r.child[i := Some(c')]))) == multiset(PreOrder(r)) + multiset{v}
  {
    var r' := r.(child := r.child[i := Some(c')]);
    SlotValues(r, i, Some(c'));
    var held := multiset(PreOrder(r.child[i].value));
    assert multiset(PreOrder(r')) + held == (multiset(PreOrder(r)) + multiset{v}) + held;
    Cancel(multiset(PreOrder(r')), held, multiset(PreOrder(r)) + multiset{v});
  }

  /** Insertion adds `v` to the values of the subtree and changes no other
      value. */
  lemma {:induction false} InsertedValues<T>(r: Node<T>, v: T, n: nat)
    requires n >= 1 && Shaped(r, n)
    ensures multiset(PreOrder(Inserted(r, v, n))) == multiset(PreOrder(r)) + multiset{v}
    decreases r
  {
    var i := FirstEmpty(r.child);
    if i < n {
      FillValues(r, i, v, n);
    } else {
      var c := r.child[n - 1].value;
      InsertedValues(c, v, n);
      DescendValues(r, n - 1, Inserted(c, v, n), v);
    }
  }

  /** `insert(r, newNode)`: the scan remembers in `idx` the last taken
      slot and stops at the first empty one, which takes a new leaf holding
      `v`; when no slot is empty it inserts into the subtree in slot `idx`,
      the last. */
  method InsertNode<T>(r: Node<T>, v: T, n: nat) returns (r': Node<T>)
    requires n >= 1 && Shaped(r, n)
    ensures r' == Inserted(r, v, n)
    ensures Shaped(r', n)
    ensures multiset(PreOrder(r')) == multiset(PreOrder(r)) + multiset{v}
    decreases r
  {
    InsertedShaped(r, v, n);
    InsertedValues(r, v, n);
    var idx := 0;
    var i := 0;
    while i < n
      invariant 0 <= i <= n && 0 <= idx < n
      invariant forall j :: 0 <= j < i ==> r.child[j].Some?
      invariant i > 0 ==> idx == i - 1
    {
      if r.child[i].Some? {
        idx := i;
      } else {
        r' := r.(child := r.child[i := Some(Leaf(v, n))]);
        return;
      }
      i := i + 1;
    }
    var c := InsertNode(r.child[idx].value, v, n);
    r' := r.(child := r.child[idx := Some(c)]);
  }

  // ---------------------------------------------------------------------------
  // reduce

  /** What `reduce(node, f)` returns: the node's value combined, left to
      right, with the reduction of each non-empty slot. */
  function Reduced<T>(node: Node<T>, f: (T, T) -> T): T
    decreases node
  {
    ReduceFrom(f, node.value, node.child)
  }

  /** `acc` combined, left to right, with the reductions of the non-empty
      slots of `slots`. */
  function ReduceFrom<T>(f: (T, T) -> T, acc: T, slots: seq<Option<Node<T>>>): T
    decreases slots
  {
    if slots == [] then acc
    else ReduceFrom(f, Combine(f, acc, slots[0]), slots[1..])
  }

  /** One step of the loop in `reduce`: an empty slot leaves `acc` alone. */
  function Combine<T>(f: (T, T) -> T, acc: T, slot: Option<Node<T>>): T
    decreases slot
  {
    if slot.None? then acc else f(acc, Reduced(slot.value, f))
  }

  /** `reduce(n, f)`: the loop over the slots, reducing each non-empty one
      by recursion. */
  method ReduceNode<T>(node: Node<T>, f: (T, T) -> T) returns (value: T)
    ensures value == Reduced(node, f)
    decreases node
  {
    value := node.value;
    var i := 0;
    while i < |node.child|
      invariant 0 <= i <= |node.child|
      invariant ReduceFrom(f, value, node.child[i..]) == Reduced(node, f)
    {
      assert node.child[i..][1..] == node.child[i + 1..];
      if node.child[i].Some? {
        var sub := ReduceNode(node.child[i].value, f);
        value := f(value, sub);
      }
      i := i + 1;
    }
  }

  ghost predicate Associative<T(!new)>(f: (T, T) -> T) {
    forall a, b, c :: f(f(a, b), c) == f(a, f(b, c))
  }

  lemma {:induction false} FoldAppend<T>(f: (T, T) -> T, acc: T, s: seq<T>, t: seq<T>)
    ensures ArraySequences.FoldLeft(f, acc, s + t) == ArraySequences.FoldLeft(f, ArraySequences.FoldLeft(f, acc, s), t)
    decreases |s|
  {
    if s == [] {
      assert s + t == t;
    } else {
      assert (s + t)[1..] == s[1..] + t;
      FoldAppend(f, f(acc, s[0]), s[1..], t);
    }
  }

  /** With an associative `f`, a value can be combined before a fold or
      after it. */
  lemma {:induction false} FoldShift<T(!new)>(f: (T, T) -> T, a: T, b: T, s: seq<T>)
    requires Associative(f)
    ensures f(a, ArraySequences.FoldLeft(f, b, s)) == ArraySequences.FoldLeft(f, f(a, b), s)
    decreases |s|
  {
    if s != [] {
      FoldShift(f, a, f(b, s[0]), s[1..]);
      assert f(a, f(b, s[0])) == f(f(a, b), s[0]);
    }
  }

  /** With an associative `f`, `reduce` is the left fold of the values in
      the order `print` visits them. */
  lemma {:induction false} ReducedIsFold<T(!new)>(node: Node<T>, f: (T, T) -> T)
    requires Associative(f)
    ensures Reduced(node, f) == ArraySequences.FoldLeft(f, node.value, Flatten(node.child))
    ensures Reduced(node, f) == ArraySequences.FoldLeft(f, PreOrder(node)[0], PreOrder(node)[1..])
    decreases node
  {
    ReduceFromIsFold(f, node.value, node.child);
    assert PreOrder(node)[1..] == Flatten(node.child);
  }

  lemma {:induction false} ReduceFromIsFold<T(!new)>(f: (T, T) -> T, acc: T, slots: seq<Option<Node<T>>>)
    requires Associative(f)
    ensures ReduceFrom(f, acc, slots) == ArraySequences.FoldLeft(f, acc, Flatten(slots))
    decreases slots
  {
    if slots != [] {
      ReduceFromIsFold(f, Combine(f, acc, slots[0]), slots[1..]);
      FoldAppend(f, acc, Held(slots[0]), Flatten(slots[1..]));
      CombineIsFold(f, acc, slots[0]);
    }
  }

  lemma {:induction false} CombineIsFold<T(!new)>(f: (T, T) -> T, acc: T, slot: Option<Node<T>>)
    requires Associative(f)
    ensures Combine(f, acc, slot) == ArraySequences.FoldLeft(f, acc, Held(slot))
    decreases slot
  {
    if slot.Some? {
      var m := slot.value;
      ReducedIsFold(m, f);
      FoldShift(f, acc, m.value, Flatten(m.child));
      FoldAppend(f, acc, [m.value], Flatten(m.child));
    }
  }

  // ---------------------------------------------------------------------------
  // The tree object

  /** `Tree<T, N>`: the root, null while the tree is empty, and the number
      `n` of slots per node. */
  class Tree<T(==)> {
    var root: Option<Node<T>>
    const n: nat

    ghost predicate Valid()
      reads this
    {
      n >= 1 && (root.Some? ==> Shaped(root.value, n))
    }

    /** The values in the tree, in the order `print` visits them. */
    function Elements(): seq<T>
      reads this
    {
      if root.None? then [] else PreOrder(root.value)
    }

    /** `Tree()`: an empty tree. */
    constructor(n: nat)
      requires n >= 1
      ensures Valid() && this.n == n && root == None
    {
      this.n := n;
      root := None;
    }

    /** `insert(value)`: the first value becomes the root; later ones go
        where `insert(root, newNode)` puts them. */
    method Insert(v: T)
      requires Valid()
      modifies this
      ensures Valid()
      ensures old(root).None? ==> root == Some(Leaf(v, n))
      ensures old(root).Some? ==> root == Some(Inserted(old(root).value, v, n))
      ensures multiset(Elements()) == multiset(old(Elements())) + multiset{v}
    {
      if root.None? {
        var leaf := Leaf(v, n);
        FlattenEmpty(leaf.child);
        root := Some(leaf);
      } else {
        var r := InsertNode(root.value, v, n);
        root := Some(r);
      }
    }

    /** `find(value)`: false on an empty tree, otherwise `Node::find` from
        the root. */
    method Find(v: T) returns (b: bool)
      ensures b <==> v in Elements()
    {
      if root.None? {
        return false;
      }
      b := FindIn(root.value, v);
    }

    /** `map(f)`: the loop that would insert `f(x)` for each value is
        commented out, so the result is a new empty tree. */
    method Map(f: T -> T) returns (res: Tree<T>)
      requires Valid()
      ensures fresh(res) && res.Valid() && res.n == n && res.Elements() == []
    {
      res := new Tree(n);
    }

    /** `where(h)`: the filtering loop is commented out, so the result is a
        new empty tree. */
    method Where(h: T -> bool) returns (res: Tree<T>)
      requires Valid()
      ensures fresh(res) && res.Valid() && res.n == n && res.Elements() == []
    {
      res := new Tree(n);
    }

    /** `reduce(f)`: the reduction of the root; the tree must not be
        empty. */
    method Reduce(f: (T, T) -> T) returns (r: T)
      requires root.Some?
      ensures r == Reduced(root.value, f)
    {
      r := ReduceNode(root.value, f);
    }
  }

  /** The free function `map(f, l)`. */
  method MapTree<T(==)>(f: T -> T, l: Tree<T>) returns (res: Tree<T>)
    requires l.Valid()
    ensures fresh(res) && res.Valid() && res.n == l.n && res.Elements() == []
  {
    res := l.Map(f);
  }

  /** The free function `where(h, l)`. */
  method WhereTree<T(==)>(h: T -> bool, l: Tree<T>) returns (res: Tree<T>)
    requires l.Valid()
    ensures fresh(res) && res.Valid() && res.n == l.n && res.Elements() == []
  {
    res := l.Where(h);
  }

  /** The free function `reduce(f, l)`. */
  method ReduceTree<T(==)>(f: (T, T) -> T, l: Tree<T>) returns (r: T)
    requires l.root.Some?
    ensures r == Reduced(l.root.value, f)
  {
    r := l.Reduce(f);
  }

  /** `insert(v)` followed by `find(v)`, which reports the value. */
  method InsertThenFind<T(==)>(tree: Tree<T>, v: T) returns (f: bool)
    requires tree.Valid()
    modifies tree
    ensures tree.Valid() && f
    ensures multiset(tree.Elements()) == multiset(old(tree.Elements())) + multiset{v}
  {
    tree.Insert(v);
    assert v in multiset(tree.Elements());
    f := tree.Find(v);
  }

  lemma Cancel<T>(a: multiset<T>, c: multiset<T>, d: multiset<T>)
    requires a + c == d + c
    ensures a == d
  {
    assert forall x :: a[x] == (a + c)[x] - c[x];
  }
}
