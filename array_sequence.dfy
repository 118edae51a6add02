/** `ArraySequence<T>` (src/arraysequence.h): a sequence stored in a
    `DynamicArray`. Its updates are those of the array; `getSubsequence`,
    `concat`, `map` and `where` build new sequences, and `reduce` folds the
    elements from the left. */
module ArraySequences {
  import opened Outcomes
  import opened DynamicArrays

  // ---------------------------------------------------------------------------
  // Specification functions.

  /** The values of the defined slots of `s` that satisfy `h`, in order. */
  function Kept<T>(h: T -> bool, s: seq<Slot<T>>): seq<T> {
    if s == [] then []
    else Kept(h, s[..|s| - 1]) + (if s[|s| - 1].Defined? && h(s[|s| - 1].value) then [s[|s| - 1].value] else [])
  }

  /** `f` applied from the left: f(...f(f(s0, s1), s2)..., sn). */
  function Reduced<T>(f: (T, T) -> T, s: seq<Slot<T>>): T
    requires |s| > 0 && Readable(s)
  {
    if |s| == 1 then s[0].value else f(Reduced(f, s[..|s| - 1]), s[|s| - 1].value)
  }

  /** The textbook left fold, starting from `acc`. */
  function FoldLeft<T>(f: (T, T) -> T, acc: T, vs: seq<T>): T {
    if vs == [] then acc else FoldLeft(f, f(acc, vs[0]), vs[1..])
  }

  /** One more value at the end of a left fold applies `f` once more. */
  lemma {:induction false} FoldLeftSnoc<T>(f: (T, T) -> T, acc: T, vs: seq<T>, x: T)
    ensures FoldLeft(f, acc, vs + [x]) == f(FoldLeft(f, acc, vs), x)
  {
    if vs != [] {
      assert (vs + [x])[1..] == vs[1..] + [x];
      FoldLeftSnoc(f, f(acc, vs[0]), vs[1..], x);
    }
  }

  /** `reduce` is the left fold of the remaining elements, starting from
      the first one. */
  lemma {:induction false} ReducedIsFoldLeft<T>(f: (T, T) -> T, s: seq<Slot<T>>)
    requires |s| > 0 && Readable(s)
    ensures Reduced(f, s) == FoldLeft(f, s[0].value, Values(s[1..]))
  {
    if |s| > 1 {
      var init := s[..|s| - 1];
      ReducedIsFoldLeft(f, init);
      assert Values(s[1..]) == Values(init[1..]) + [s[|s| - 1].value];
      FoldLeftSnoc(f, s[0].value, Values(init[1..]), s[|s| - 1].value);
    } else {
      assert Values(s[1..]) == [];
    }
  }

  /** `where` keeps exactly the defined values that satisfy the filter. */
  lemma {:induction false} KeptMembers<T>(h: T -> bool, s: seq<Slot<T>>, x: T)
    ensures x in Kept(h, s) <==> h(x) && Defined(x) in s
  {
    if s != [] {
      KeptMembers(h, s[..|s| - 1], x);
      assert s == s[..|s| - 1] + [s[|s| - 1]];
    }
  }

  /** `where` never lengthens, and keeps everything when every element
      is defined and passes the filter. */
  lemma {:induction false} KeptLength<T>(h: T -> bool, s: seq<Slot<T>>)
    ensures |Kept(h, s)| <= |s|
    ensures (forall k :: 0 <= k < |s| ==> s[k].Defined? && h(s[k].value)) ==> Kept(h, s) == Values(s)
  {
    if s != [] {
      KeptLength(h, s[..|s| - 1]);
      if forall k :: 0 <= k < |s| ==> s[k].Defined? && h(s[k].value) {
        assert Values(s) == Values(s[..|s| - 1]) + [s[|s| - 1].value];
      }
    }
  }

  /** `where` over a prefix one slot longer. */
  lemma KeptStep<T>(h: T -> bool, s: seq<Slot<T>>, i: nat)
    requires i < |s|
    ensures Kept(h, s[..i + 1]) == Kept(h, s[..i]) + (if s[i].Defined? && h(s[i].value) then [s[i].value] else [])
  {
    assert s[..i + 1][..i] == s[..i];
  }

  /** A readable prefix one slot longer. */
  lemma ReadableStep<T>(s: seq<Slot<T>>, i: nat)
    requires i < |s| && Readable(s[..i]) && s[i].Defined?
    ensures Readable(s[..i + 1])
  {
    assert s[..i + 1] == s[..i] + [s[i]];
  }

  /** A prefix one slot longer. */
  lemma PrefixStep<T>(s: seq<Slot<T>>, i: nat)
    requires i < |s|
    ensures s[..i + 1][..i] == s[..i] && s[..i + 1][i] == s[i]
  {
  }

  /** One more defined value at the end of fully defined contents. */
  lemma AllDefinedSnoc<T>(vs: seq<T>, x: T)
    ensures AllDefined(vs + [x]) == AllDefined(vs) + [Defined(x)]
  {
  }

  // ---------------------------------------------------------------------------
  // The class.

  class ArraySequence<T(0)> {
    var data: DynamicArray<T>

    ghost predicate Valid()
      reads this, data
    {
      data.Valid()
    }

    /** The slots of the sequence. */
    ghost function Contents(): seq<Slot<T>>
      reads this, data, data.data, data.defined
      requires Valid()
    {
      data.Contents()
    }

    /** The sequence over all of `items`, every slot defined. */
    constructor FromItems(items: seq<T>)
      ensures Valid() && Contents() == AllDefined(items)
      ensures fresh(data) && fresh(data.data) && fresh(data.defined)
    {
      data := new DynamicArray<T>.FromItems(items);
    }

    /** The sequence of `count` undefined slots. */
    constructor Sized(count: nat)
      ensures Valid() && Contents() == Blank(count)
      ensures fresh(data) && fresh(data.data) && fresh(data.defined)
    {
      data := new DynamicArray<T>(count);
    }

    /** The sequence over `store`, which it takes over. */
    constructor Over(store: DynamicArray<T>)
      requires store.Valid()
      ensures Valid() && data == store && Contents() == store.Contents()
    {
      data := store;
    }

    /** `ArraySequence(items, count)`: the array constructor refuses a
        negative count with IndexOutOfRange; otherwise the first `count`
        items, all defined. */
    static method OfItems(items: seq<T>, count: int) returns (r: Result<ArraySequence<T>>)
      requires count <= |items|
      ensures count < 0 <==> r.Err?
      ensures r.Err? ==> r.error == IndexOutOfRange
      ensures r.Ok? ==> fresh(r.value) && fresh(r.value.data) && r.value.Valid() && r.value.Contents() == AllDefined(items[..count])
    {
      var a := DynamicArray<T>.Copied(items, count);
      if a.Err? {
        return Err(a.error);
      }
      var sequence := new ArraySequence<T>.Over(a.value);
      return Ok(sequence);
    }

    /** `ArraySequence(count)`: the array constructor refuses a negative
        count with IndexOutOfRange; otherwise `count` undefined slots. */
    static method OfCount(count: int) returns (r: Result<ArraySequence<T>>)
      ensures count < 0 <==> r.Err?
      ensures r.Err? ==> r.error == IndexOutOfRange
      ensures r.Ok? ==> fresh(r.value) && fresh(r.value.data) && r.value.Valid() && r.value.Contents() == Blank(count)
    {
      var a := DynamicArray<T>.Sized(count);
      if a.Err? {
        return Err(a.error);
      }
      var sequence := new ArraySequence<T>.Over(a.value);
      return Ok(sequence);
    }

    /** `ArraySequence()`: the empty sequence. */
    constructor ()
      ensures Valid() && Contents() == []
      ensures fresh(data) && fresh(data.data) && fresh(data.defined)
    {
      data := new DynamicArray<T>(0);
    }

    /** `ArraySequence(const DynamicArray<T> &)`: a copy of the array. */
    constructor FromArray(source: DynamicArray<T>)
      requires source.Valid()
      ensures Valid() && Contents() == source.Contents()
      ensures fresh(data) && fresh(data.data) && fresh(data.defined)
    {
      data := new DynamicArray<T>.Copy(source);
    }

    /** `getFirst`: refused when the sequence is empty or its first slot
        is undefined. */
    function GetFirst(): (r: Result<T>)
      reads this, data, data.data, data.defined
      requires Valid()
      ensures r.Ok? <==> Contents() != [] && Contents()[0].Defined?
      ensures r.Ok? ==> Contents()[0] == Defined(r.value)
    {
      data.Get(0)
    }

    /** `getLast`: refused when the sequence is empty or its last slot is
        undefined. */
    function GetLast(): (r: Result<T>)
      reads this, data, data.data, data.defined
      requires Valid()
      ensures r.Ok? <==> Contents() != [] && Contents()[|Contents()| - 1].Defined?
      ensures r.Ok? ==> Contents()[|Contents()| - 1] == Defined(r.value)
    {
      data.Get(data.GetSize() - 1)
    }

    /** `get` and the read-only `operator[]`. */
    function Get(index: int): (r: Result<T>)
      reads this, data, data.data, data.defined
      requires Valid()
      ensures r.Ok? <==> 0 <= index < |Contents()| && Contents()[index].Defined?
      ensures r.Ok? ==> Contents()[index] == Defined(r.value)
    {
      data.Get(index)
    }

    /** `getLength`. */
    function GetLength(): (r: int)
      reads this, data, data.data, data.defined
      requires Valid()
      ensures r == |Contents()|
    {
      data.GetSize()
    }

    /** `getSubsequence(startIndex, endIndex)`: refused when
        `startIndex > endIndex`; otherwise a new sequence holding the slots
        `startIndex`..`endIndex`, refused when one of them is out of range
        or undefined. */
    method GetSubsequence(startIndex: int, endIndex: int) returns (r: Result<ArraySequence<T>>)
      requires Valid()
      ensures r.Ok? <==> 0 <= startIndex <= endIndex < |Contents()| && Readable(Contents()[startIndex..endIndex + 1])
      ensures r.Err? ==> r.error == IndexOutOfRange
      ensures r.Ok? ==> fresh(r.value) && r.value.Valid() && r.value.Contents() == Contents()[startIndex..endIndex + 1]
    {
      if startIndex > endIndex {
        return Err(IndexOutOfRange);
      }
      var size := endIndex - startIndex + 1;
      var da := new DynamicArray<T>(size);
      for i := 0 to size
        invariant da.Valid() && fresh(da) && fresh(da.data) && fresh(da.defined)
        invariant i == 0 ==> da.Contents() == Blank(size)
        invariant i > 0 ==> 0 <= startIndex && startIndex + i <= |Contents()|
        invariant i > 0 ==> Readable(Contents()[startIndex..startIndex + i])
        invariant i > 0 ==> da.Contents() == Contents()[startIndex..startIndex + i] + Blank(size - i)
      {
        var x := Get(startIndex + i);
        if x.Err? {
          NotReadable(Contents(), startIndex, endIndex, startIndex + i);
          return Err(IndexOutOfRange);
        }
        ghost var before := da.Contents();
        var _ := da.Set(i, x.value);
        SubsequenceStep(Contents(), before, startIndex, i, size);
      }
      var res := new ArraySequence<T>.FromArray(da);
      assert Contents()[startIndex..startIndex + size] + Blank(0) == Contents()[startIndex..endIndex + 1];
      return Ok(res);
    }

    /** `append`. */
    method Append(item: T)
      requires Valid()
      modifies data
      ensures Valid() && Contents() == old(Contents()) + [Defined(item)]
    {
      data.Append(item);
    }

    /** `prepend`. */
    method Prepend(item: T)
      requires Valid()
      modifies data
      ensures Valid() && Contents() == [Defined(item)] + old(Contents())
    {
      data.Prepend(item);
    }

    /** `insertAt`, with the array's growth before the index check. */
    method InsertAt(item: T, index: int) returns (r: Outcome)
      requires Valid()
      modifies data
      ensures Valid()
      ensures 0 <= index <= |old(Contents())| ==> r == Pass && Contents() == InsertedAt(old(Contents()), item, index)
      ensures !(0 <= index <= |old(Contents())|) ==>
        r == Fail(IndexOutOfRange) && Contents() == old(Contents()) + [Undefined]
    {
      r := data.InsertAt(item, index);
    }

    /** `removeAt`. */
    method RemoveAt(index: int) returns (r: Outcome)
      requires Valid()
      modifies data, data.data, data.defined
      ensures Valid()
      ensures 0 <= index < |old(Contents())| ==> r == Pass && Contents() == RemovedAt(old(Contents()), index)
      ensures !(0 <= index < |old(Contents())|) ==> r == Fail(IndexOutOfRange) && Contents() == old(Contents())
    {
      r := data.RemoveAt(index);
    }

    /** `concat(list)`: a new sequence holding this sequence's slots
        followed by the elements of `list`; refused when a slot of `list`
        is undefined. Neither input changes. */
    method Concat(list: ArraySequence<T>) returns (r: Result<ArraySequence<T>>)
      requires Valid() && list.Valid()
      ensures r.Ok? <==> Readable(list.Contents())
      ensures r.Ok? ==> fresh(r.value) && r.value.Valid() && r.value.Contents() == Contents() + list.Contents()
    {
      var result := new ArraySequence<T>.FromArray(data);
      var _ := result.data.Resize(GetLength() + list.GetLength());
      ConcatStart(Contents(), list.Contents());
      var ok := CopyAfter(result.data, GetLength(), Contents(), list);
      if !ok {
        return Err(IndexOutOfRange);
      }
      return Ok(result);
    }

    /** `map(f)`: a new sequence of `f` applied to every element in order;
        refused when a slot is undefined. */
    method Map(f: T -> T) returns (r: Result<ArraySequence<T>>)
      requires Valid()
      ensures r.Ok? <==> Readable(Contents())
      ensures r.Ok? ==> fresh(r.value) && r.value.Valid() && |r.value.Contents()| == |Contents()|
      ensures r.Ok? ==> forall k :: 0 <= k < |Contents()| ==> r.value.Contents()[k] == Defined(f(Contents()[k].value))
    {
      var res := new ArraySequence<T>();
      for i := 0 to GetLength()
        invariant res.Valid() && fresh(res) && fresh(res.data)
        invariant Readable(Contents()[..i]) && |res.Contents()| == i
        invariant forall k :: 0 <= k < i ==> res.Contents()[k] == Defined(f(Contents()[k].value))
      {
        var x := Get(i);
        if x.Err? {
          return Err(IndexOutOfRange);
        }
        ReadableStep(Contents(), i);
        res.Append(f(x.value));
      }
      assert Contents()[..GetLength()] == Contents();
      return Ok(res);
    }

    /** `where(h)`: a new sequence of the elements satisfying `h`, in order;
        refused when a slot is undefined. */
    method Where(h: T -> bool) returns (r: Result<ArraySequence<T>>)
      requires Valid()
      ensures r.Ok? <==> Readable(Contents())
      ensures r.Ok? ==> fresh(r.value) && r.value.Valid() && r.value.Contents() == AllDefined(Kept(h, Contents()))
    {
      var res := new ArraySequence<T>();
      for i := 0 to GetLength()
        invariant res.Valid() && fresh(res) && fresh(res.data)
        invariant Readable(Contents()[..i])
        invariant res.Contents() == AllDefined(Kept(h, Contents()[..i]))
      {
        var x := Get(i);
        if x.Err? {
          return Err(IndexOutOfRange);
        }
        KeptStep(h, Contents(), i);
        ReadableStep(Contents(), i);
        if h(x.value) {
          AllDefinedSnoc(Kept(h, Contents()[..i]), x.value);
          res.Append(x.value);
        }
      }
      assert Contents()[..GetLength()] == Contents();
      return Ok(res);
    }

    /** `reduce(f)`: `f` applied from the left, starting from the first
        element; refused when the sequence is empty or a slot is undefined. */
    method Reduce(f: (T, T) -> T) returns (r: Result<T>)
      requires Valid()
      ensures r.Ok? <==> Contents() != [] && Readable(Contents())
      ensures r.Ok? ==> r.value == Reduced(f, Contents())
    {
      var first := Get(0);
      if first.Err? {
        return Err(IndexOutOfRange);
      }
      var result := first.value;
      for i := 1 to GetLength()
        invariant Readable(Contents()[..i]) && result == Reduced(f, Contents()[..i])
      {
        var x := Get(i);
        if x.Err? {
          return Err(IndexOutOfRange);
        }
        PrefixStep(Contents(), i);
        ReadableStep(Contents(), i);
        result := f(result, x.value);
      }
      assert Contents()[..GetLength()] == Contents();
      return Ok(result);
    }
  }

  /** The copying loop of `concat`: the elements of `list` are stored
      after `prefix` in `target`, stopping at the first undefined one. */
  method CopyAfter<T(0)>(target: DynamicArray<T>, n: nat, ghost prefix: seq<Slot<T>>, list: ArraySequence<T>) returns (ok: bool)
    requires target.Valid() && list.Valid() && n == |prefix|
    requires target.Contents() == prefix + list.Contents()[..0] + Blank(|list.Contents()|)
    requires {target.data as object, target.defined as object} !! {list.data.data as object, list.data.defined as object}
    modifies target.data, target.defined
    ensures target.Valid()
    ensures ok <==> Readable(list.Contents())
    ensures ok ==> target.Contents() == prefix + list.Contents()
  {
    var m := list.GetLength();
    for i := 0 to m
      invariant target.Valid()
      invariant Readable(list.Contents()[..i])
      invariant target.Contents() == prefix + list.Contents()[..i] + Blank(m - i)
    {
      var x := list.Get(i);
      if x.Err? {
        assert !list.Contents()[i].Defined?;
        return false;
      }
      ReadableStep(list.Contents(), i);
      ghost var before := target.Contents();
      var _ := target.Set(n + i, x.value);
      ConcatStep(prefix, list.Contents(), before, i, x.value);
    }
    ConcatEnd(prefix, list.Contents());
    return true;
  }

  /** A slot in the requested range that `get` refuses makes the range
      unreadable. */
  lemma NotReadable<T>(s: seq<Slot<T>>, startIndex: int, endIndex: int, k: int)
    requires startIndex <= k <= endIndex
    requires !(0 <= k < |s| && s[k].Defined?)
    ensures !(0 <= startIndex <= endIndex < |s| && Readable(s[startIndex..endIndex + 1]))
  {
    if 0 <= startIndex <= endIndex < |s| {
      assert s[startIndex..endIndex + 1][k - startIndex] == s[k];
    }
  }

  /** One more slot copied into the subsequence. */
  lemma SubsequenceStep<T>(s: seq<Slot<T>>, before: seq<Slot<T>>, startIndex: int, i: nat, size: nat)
    requires 0 <= startIndex && startIndex + i < |s| && i < size && s[startIndex + i].Defined?
    requires i == 0 ==> before == Blank(size)
    requires i > 0 ==> Readable(s[startIndex..startIndex + i]) && before == s[startIndex..startIndex + i] + Blank(size - i)
    ensures Readable(s[startIndex..startIndex + i + 1])
    ensures before[i := Defined(s[startIndex + i].value)] == s[startIndex..startIndex + i + 1] + Blank(size - (i + 1))
  {
    var after := before[i := Defined(s[startIndex + i].value)];
    var rhs := s[startIndex..startIndex + i + 1] + Blank(size - (i + 1));
    var grown := s[startIndex..startIndex + i + 1];
    forall k | 0 <= k < i + 1
      ensures grown[k].Defined?
    {
      if k < i {
        assert s[startIndex..startIndex + i][k] == s[startIndex + k];
      }
    }
    assert |after| == |rhs|;
    forall k | 0 <= k < size
      ensures after[k] == rhs[k]
    {
      if k < i {
        assert before[k] == s[startIndex + k];
      }
    }
  }

  /** The concatenation before any slot of `list` is copied: this
      sequence's slots followed by undefined ones. */
  lemma ConcatStart<T>(s: seq<Slot<T>>, list: seq<Slot<T>>)
    ensures Resized(s, |s| + |list|) == s + list[..0] + Blank(|list|)
  {
  }

  /** The concatenation after every slot of `list` is copied. */
  lemma ConcatEnd<T>(s: seq<Slot<T>>, list: seq<Slot<T>>)
    ensures s + list[..|list|] + Blank(0) == s + list
  {
    assert list[..|list|] == list;
  }

  /** One more slot of `list` copied into the concatenation. */
  lemma ConcatStep<T>(s: seq<Slot<T>>, list: seq<Slot<T>>, before: seq<Slot<T>>, i: nat, x: T)
    requires i < |list| && list[i] == Defined(x)
    requires before == s + list[..i] + Blank(|list| - i)
    ensures before[|s| + i := Defined(x)] == s + list[..i + 1] + Blank(|list| - (i + 1))
  {
    var after := before[|s| + i := Defined(x)];
    var rhs := s + list[..i + 1] + Blank(|list| - (i + 1));
    forall k | 0 <= k < |s| + |list|
      ensures after[k] == rhs[k]
    {
      if k < |s| {
        assert after[k] == s[k];
      } else if k < |s| + i {
        assert after[k] == list[k - |s|];
      }
    }
  }
}
