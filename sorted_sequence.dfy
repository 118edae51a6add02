/** `SortedSequence<int>` (src/sortedsequence.h): a sequence kept in
    non-decreasing order on top of a `DynamicArray` whose slots are all
    defined. Its only update is `add`, which inserts before the first element
    not less than the new one. */
module SortedSequences {
  import opened Outcomes
  import opened DynamicArrays

  /** Non-decreasing order (equal elements may repeat). */
  ghost predicate Sorted(s: seq<int>) {
    forall i, j :: 0 <= i < j < |s| ==> s[i] <= s[j]
  }

  /** The index `add` stops its scan at: the first element not less than
      `x`, or the end. */
  function Position(s: seq<int>, x: int): (p: nat)
    ensures p <= |s|
    ensures forall k :: 0 <= k < p ==> s[k] < x
    ensures p < |s| ==> s[p] >= x
  {
    if s == [] || s[0] >= x then 0 else 1 + Position(s[1..], x)
  }

  /** The contents after `add(x)`. */
  function InsertSorted(s: seq<int>, x: int): (r: seq<int>)
    ensures |r| == |s| + 1
  {
    s[..Position(s, x)] + [x] + s[Position(s, x)..]
  }

  /** The element at each index after `add(x)`. */
  lemma InsertSortedAt(s: seq<int>, x: int, k: nat)
    requires k <= |s|
    ensures InsertSorted(s, x)[k] ==
      if k < Position(s, x) then s[k] else if k == Position(s, x) then x else s[k - 1]
  {
  }

  /** `add` adds exactly one copy of the new element and keeps the others. */
  lemma InsertSortedCounts(s: seq<int>, x: int)
    ensures multiset(InsertSorted(s, x)) == multiset(s) + multiset{x}
  {
    var p := Position(s, x);
    assert s == s[..p] + s[p..];
  }

  /** `add` keeps the order. */
  lemma InsertSortedKeepsOrder(s: seq<int>, x: int)
    requires Sorted(s)
    ensures Sorted(InsertSorted(s, x))
  {
    var p := Position(s, x);
    var r := InsertSorted(s, x);
    forall i, j | 0 <= i < j < |r|
      ensures r[i] <= r[j]
    {
      InsertSortedAt(s, x, i);
      InsertSortedAt(s, x, j);
      if i <= p < j {
        assert p < |s| && x <= s[p] <= s[j - 1];
      }
    }
  }

  /** In a sorted sequence, `add` inserts after every smaller element and
      before every element at least as large. */
  lemma InsertSortedSplits(s: seq<int>, x: int)
    requires Sorted(s)
    ensures forall k :: 0 <= k < Position(s, x) ==> InsertSorted(s, x)[k] < x
    ensures forall k :: Position(s, x) < k < |s| + 1 ==> InsertSorted(s, x)[k] >= x
  {
    var p := Position(s, x);
    forall k | p < k < |s| + 1
      ensures InsertSorted(s, x)[k] >= x
    {
      assert InsertSorted(s, x)[k] == s[k - 1];
      assert s[p] <= s[k - 1];
    }
  }

  /** The scenario of the unit test: adding 10, 20 and 5 gives 5, 10, 20. */
  lemma AddScenario()
    ensures InsertSorted(InsertSorted(InsertSorted([], 10), 20), 5) == [5, 10, 20]
  {
    assert InsertSorted([], 10) == [10];
    assert Position([10], 20) == 1;
    assert InsertSorted([10], 20) == [10, 20];
    assert Position([10, 20], 5) == 0;
  }

  class SortedSequence {
    var data: DynamicArray<int>
    /** The elements, in order. */
    ghost var elements: seq<int>

    /** Every slot of the array is defined and holds the elements, which are
        in order. */
    ghost predicate Valid()
      reads this, data, data.data, data.defined
    {
      data.Valid() && data.Contents() == AllDefined(elements) && Sorted(elements)
    }

    /** The default constructor: an empty sequence. */
    constructor ()
      ensures Valid() && elements == [] && fresh(data) && fresh(data.data) && fresh(data.defined)
    {
      data := new DynamicArray<int>(0);
      elements := [];
    }

    /** `getLength`. */
    function GetLength(): (r: int)
      reads this, data, data.data, data.defined
      requires Valid()
      ensures r == |elements|
    {
      data.GetSize()
    }

    /** `getIsEmpty`: whether there are no elements. */
    function GetIsEmpty(): (r: bool)
      reads this, data, data.data, data.defined
      requires Valid()
      ensures r <==> elements == []
    {
      data.GetSize() == 0
    }

    /** `get` and `operator[]`: the element at `index`, or `IndexOutOfRange`. */
    function Get(index: int): (r: Result<int>)
      reads this, data, data.data, data.defined
      requires Valid()
      ensures 0 <= index < |elements| ==> r == Ok(elements[index])
      ensures !(0 <= index < |elements|) ==> r == Err(IndexOutOfRange)
    {
      data.Get(index)
    }

    /** `getFirst`: the least element; an empty sequence is refused. */
    function GetFirst(): (r: Result<int>)
      reads this, data, data.data, data.defined
      requires Valid()
      ensures r.Ok? <==> elements != []
      ensures r.Ok? ==> r.value in elements && forall y :: y in elements ==> r.value <= y
    {
      Get(0)
    }

    /** `getLast`: the greatest element; an empty sequence is refused. */
    function GetLast(): (r: Result<int>)
      reads this, data, data.data, data.defined
      requires Valid()
      ensures r.Ok? <==> elements != []
      ensures r.Ok? ==> r.value in elements && forall y :: y in elements ==> y <= r.value
    {
      Get(data.GetSize() - 1)
    }

    /** `indexOf`: the first index holding `element`, or -1 when there is none. */
    method IndexOf(element: int) returns (r: int)
      requires Valid()
      ensures -1 <= r < |elements|
      ensures r == -1 <==> element !in elements
      ensures r >= 0 ==> elements[r] == element && forall k :: 0 <= k < r ==> elements[k] != element
    {
      for i := 0 to data.GetSize()
        invariant forall k :: 0 <= k < i ==> elements[k] != element
      {
        if Get(i) == Ok(element) {
          return i;
        }
      }
      return -1;
    }

    /** `getSubsequence(startIndex, endIndex)`: the elements from
        `startIndex` to `endIndex` inclusive, in a new sorted sequence; an
        empty one when `startIndex > endIndex`, and `IndexOutOfRange` when
        the range is not empty and leaves 0..length-1. */
    method GetSubsequence(startIndex: int, endIndex: int) returns (r: Result<SortedSequence>)
      requires Valid()
      ensures r.Err? <==> startIndex <= endIndex && (startIndex < 0 || endIndex >= |elements|)
      ensures r.Ok? ==> fresh(r.value) && fresh(r.value.data) && r.value.Valid()
      ensures r.Ok? && startIndex <= endIndex ==> r.value.elements == elements[startIndex..endIndex + 1]
      ensures r.Ok? && startIndex > endIndex ==> r.value.elements == []
    {
      var res := new SortedSequence();
      var i := startIndex;
      while i <= endIndex
        invariant startIndex <= i && (startIndex <= endIndex ==> i <= endIndex + 1)
        invariant 0 <= startIndex <= i <= |elements| || i == startIndex
        invariant res.Valid() && fresh(res) && fresh(res.data) && fresh(res.data.data) && fresh(res.data.defined)
        invariant 0 <= startIndex <= i <= |elements| ==> res.elements == elements[startIndex..i]
        invariant i == startIndex ==> res.elements == []
        invariant startIndex <= endIndex || i == startIndex
        decreases endIndex - i
      {
        var x := Get(i);
        if x.Err? {
          return Err(IndexOutOfRange);
        }
        AppendStaysSorted(elements, startIndex, i);
        res.data.Append(x.value);
        res.elements := res.elements + [x.value];
        i := i + 1;
      }
      return Ok(res);
    }

    /** `add`: scan past the elements less than `element`, then insert it
        there. */
    method Add(element: int)
      requires Valid()
      modifies this, data
      ensures Valid() && elements == InsertSorted(old(elements), element)
      ensures fresh(data.data) && fresh(data.defined)
    {
      var index := Scan(element);
      var _ := data.InsertAt(element, index);
      InsertedAtAllDefined(elements, element, index);
      InsertSortedKeepsOrder(elements, element);
      elements := InsertSorted(elements, element);
    }

    /** The scanning loop of `add`. It reads with the assignable
        `operator[]`, which leaves an already defined slot as it is. */
    method Scan(element: int) returns (index: nat)
      requires Valid()
      ensures index == Position(elements, element)
    {
      index := 0;
      while index < data.GetSize() && Get(index).value < element
        invariant 0 <= index <= |elements|
        invariant forall k :: 0 <= k < index ==> elements[k] < element
      {
        index := index + 1;
      }
      ScanFindsPosition(elements, element, index);
    }
  }

  /** The scan of `add` stops at `Position`. */
  lemma {:induction false} ScanFindsPosition(s: seq<int>, x: int, index: nat)
    requires index <= |s|
    requires forall k :: 0 <= k < index ==> s[k] < x
    requires index < |s| ==> s[index] >= x
    ensures index == Position(s, x)
  {
    if index > 0 {
      assert s[0] < x;
      ScanFindsPosition(s[1..], x, index - 1);
    }
  }

  /** One more element of a sorted sequence extends a sorted run. */
  lemma AppendStaysSorted(s: seq<int>, start: int, i: int)
    requires Sorted(s) && 0 <= start <= i < |s|
    ensures s[start..i + 1] == s[start..i] + [s[i]]
    ensures Sorted(s[start..i + 1])
  {
  }
}
