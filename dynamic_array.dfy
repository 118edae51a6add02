/** `DynamicArray<T>` (src/dynamicarray.h): a resizable array whose slots
    each carry a "defined" flag. A slot becomes defined when a value is
    stored into it; reading an undefined slot, or an index outside
    0..size-1, is an `IndexOutOfRange` failure. */
module DynamicArrays {
  import opened Outcomes

  /** What one slot holds, as far as `get` can observe it. */
  datatype Slot<T> = Undefined | Defined(value: T)

  // ---------------------------------------------------------------------------
  // The abstract contents: a sequence of slots, and what each operation does
  // to it.

  /** The slots described by a value array and its flag array. */
  function Zip<T>(data: seq<T>, defined: seq<bool>): (s: seq<Slot<T>>)
    requires |data| == |defined|
    ensures |s| == |data|
    ensures forall k :: 0 <= k < |s| ==> (s[k].Defined? <==> defined[k])
    ensures forall k :: 0 <= k < |s| && defined[k] ==> s[k].value == data[k]
  {
    seq(|data|, k requires 0 <= k < |data| => if defined[k] then Defined(data[k]) else Undefined)
  }

  /** Every value defined, in order. */
  function AllDefined<T>(values: seq<T>): (s: seq<Slot<T>>)
    ensures |s| == |values| && forall k :: 0 <= k < |s| ==> s[k] == Defined(values[k])
  {
    seq(|values|, k requires 0 <= k < |values| => Defined(values[k]))
  }

  /** `n` slots, none defined. */
  function Blank<T>(n: nat): (s: seq<Slot<T>>)
    ensures |s| == n && forall k :: 0 <= k < n ==> s[k] == Undefined
  {
    seq(n, k => Undefined)
  }

  /** Every slot defined, so `get` succeeds at every index. */
  ghost predicate Readable<T>(s: seq<Slot<T>>) {
    forall k :: 0 <= k < |s| ==> s[k].Defined?
  }

  /** The values of fully defined slots. */
  function Values<T>(s: seq<Slot<T>>): (vs: seq<T>)
    requires Readable(s)
    ensures |vs| == |s| && AllDefined(vs) == s
  {
    seq(|s|, k requires 0 <= k < |s| => s[k].value)
  }

  /** What `get` returns for a slot sequence. */
  function Lookup<T>(s: seq<Slot<T>>, index: int): Result<T> {
    if 0 <= index < |s| && s[index].Defined? then Ok(s[index].value) else Err(IndexOutOfRange)
  }

  /** The slots after resizing to `n`: the first min(|s|, n) are kept with
      their flags, and any added slot is undefined. */
  function Resized<T>(s: seq<Slot<T>>, n: nat): (r: seq<Slot<T>>)
    ensures |r| == n
    ensures forall k :: 0 <= k < n && k < |s| ==> r[k] == s[k]
    ensures forall k :: |s| <= k < n ==> r[k] == Undefined
  {
    if n <= |s| then s[..n] else s + Blank(n - |s|)
  }

  /** `x` stored at `index`, the slots from `index` on moved one to the right. */
  function InsertedAt<T>(s: seq<Slot<T>>, x: T, index: nat): (r: seq<Slot<T>>)
    requires index <= |s|
    ensures |r| == |s| + 1
  {
    s[..index] + [Defined(x)] + s[index..]
  }

  /** The slot at `index` dropped, the later ones moved one to the left. */
  function RemovedAt<T>(s: seq<Slot<T>>, index: nat): (r: seq<Slot<T>>)
    requires index < |s|
    ensures |r| == |s| - 1
  {
    s[..index] + s[index + 1..]
  }

  /** The slots at `i` and `j` exchanged. */
  function Swapped<T>(s: seq<Slot<T>>, i: nat, j: nat): (r: seq<Slot<T>>)
    requires i < |s| && j < |s|
    ensures |r| == |s|
  {
    s[i := s[j]][j := s[i]]
  }

  // ---------------------------------------------------------------------------
  // Properties of the operations on contents.

  /** Growing by one adds one undefined slot at the end. */
  lemma GrowByOne<T>(s: seq<Slot<T>>)
    ensures Resized(s, |s| + 1) == s + [Undefined]
  {
    assert Blank<T>(1) == [Undefined];
  }

  /** After a store, `get` at that index gives the stored value and every
      other index reads as before. */
  lemma LookupAfterStore<T>(s: seq<Slot<T>>, index: nat, x: T, j: int)
    requires index < |s|
    ensures Lookup(s[index := Defined(x)], j) == if j == index then Ok(x) else Lookup(s, j)
  {
  }

  /** After an insertion, `get` sees the earlier slots in place, the new
      value at `index` and the later slots one further on. */
  lemma LookupAfterInsert<T>(s: seq<Slot<T>>, x: T, index: nat, j: int)
    requires index <= |s|
    ensures Lookup(InsertedAt(s, x, index), j) ==
      if j < index then Lookup(s, j) else if j == index then Ok(x) else Lookup(s, j - 1)
  {
    var r := InsertedAt(s, x, index);
    if 0 <= j < index {
      assert r[j] == s[j];
    } else if index < j <= |s| {
      assert r[j] == s[j - 1];
    }
  }

  /** After a removal, `get` sees the earlier slots in place and the later
      ones one index lower. */
  lemma LookupAfterRemove<T>(s: seq<Slot<T>>, index: nat, j: int)
    requires index < |s|
    ensures Lookup(RemovedAt(s, index), j) == if j < index then Lookup(s, j) else Lookup(s, j + 1)
  {
    var r := RemovedAt(s, index);
    if 0 <= j < index {
      assert r[j] == s[j];
    } else if index <= j < |s| - 1 {
      assert r[j] == s[j + 1];
    }
  }

  /** Removing what was just inserted restores the contents. */
  lemma RemoveUndoesInsert<T>(s: seq<Slot<T>>, x: T, index: nat)
    requires index <= |s|
    ensures RemovedAt(InsertedAt(s, x, index), index) == s
  {
    var r := InsertedAt(s, x, index);
    assert r[..index] == s[..index];
    assert r[index + 1..] == s[index..];
  }

  /** `append` is insertion at the end, `prepend` insertion at the front. */
  lemma AppendPrependAreInsertions<T>(s: seq<Slot<T>>, x: T)
    ensures s + [Defined(x)] == InsertedAt(s, x, |s|)
    ensures [Defined(x)] + s == InsertedAt(s, x, 0)
  {
    assert s[..|s|] == s;
    assert s[0..] == s;
  }

  /** Growing and then resizing back to the old size restores the contents. */
  lemma GrowThenShrink<T>(s: seq<Slot<T>>, n: nat)
    requires |s| <= n
    ensures Resized(Resized(s, n), |s|) == s
  {
    assert Resized(s, n)[..|s|] == s;
  }

  /** After two resizes `get` finds exactly the values within both sizes:
      slots cut off by the first resize come back undefined. */
  lemma LookupAfterResizeTwice<T>(s: seq<Slot<T>>, n: nat, m: nat, k: int)
    ensures Lookup(Resized(Resized(s, n), m), k) == if k < n && k < m then Lookup(s, k) else Err(IndexOutOfRange)
  {
    if 0 <= k < m && k < n && k < |s| {
      assert Resized(Resized(s, n), m)[k] == s[k];
    }
  }

  /** Inserting into a fully defined contents gives the fully defined
      contents of the inserted sequence. */
  lemma InsertedAtAllDefined<T>(s: seq<T>, x: T, index: nat)
    requires index <= |s|
    ensures InsertedAt(AllDefined(s), x, index) == AllDefined(s[..index] + [x] + s[index..])
  {
    var lhs := InsertedAt(AllDefined(s), x, index);
    var rhs := AllDefined(s[..index] + [x] + s[index..]);
    forall k | 0 <= k < |s| + 1
      ensures lhs[k] == rhs[k]
    {
      if k < index {
        assert lhs[k] == Defined(s[k]);
      } else if k > index {
        assert lhs[k] == Defined(s[k - 1]);
      }
    }
  }

  /** Swapping the same two slots twice restores the contents. */
  lemma SwapTwice<T>(s: seq<Slot<T>>, i: nat, j: nat)
    requires i < |s| && j < |s|
    ensures Swapped(Swapped(s, i, j), i, j) == s
  {
  }

  // ---------------------------------------------------------------------------
  // The class.

  class DynamicArray<T(0)> {
    var size: int
    var data: array<T>
    var defined: array<bool>

    /** The element count matches both arrays, and the two arrays are distinct. */
    ghost predicate Valid()
      reads this
    {
      size == data.Length == defined.Length && data as object != defined as object
    }

    /** The slots as `get` observes them. */
    ghost function Contents(): seq<Slot<T>>
      reads this, data, defined
      requires Valid()
    {
      Zip(data[..], defined[..])
    }

    /** `DynamicArray(count)` for a count that is not negative: every slot
        undefined. */
    constructor (count: nat)
      ensures Valid() && Contents() == Blank(count)
      ensures fresh(data) && fresh(defined)
    {
      size := count;
      data := new T[count];
      var flags := new bool[count];
      for i := 0 to count
        invariant forall k :: 0 <= k < i ==> !flags[k]
      {
        flags[i] := false;
      }
      defined := flags;
    }

    /** `DynamicArray(items, count)` and the initializer-list constructor
        for the first `count` items: every slot defined with its item. */
    constructor FromItems(items: seq<T>)
      ensures Valid() && Contents() == AllDefined(items)
      ensures fresh(data) && fresh(defined)
    {
      size := |items|;
      var values := new T[|items|];
      var flags := new bool[|items|];
      for i := 0 to |items|
        invariant forall k :: 0 <= k < i ==> values[k] == items[k] && flags[k]
      {
        values[i] := items[i];
        flags[i] := true;
      }
      data, defined := values, flags;
    }

    /** The copy constructor: the same slots, in arrays of its own. */
    constructor Copy(other: DynamicArray<T>)
      requires other.Valid()
      ensures Valid() && Contents() == other.Contents()
      ensures fresh(data) && fresh(defined)
    {
      size := other.size;
      var values := new T[other.size];
      var flags := new bool[other.size];
      forall k | 0 <= k < other.size {
        values[k] := other.data[k];
      }
      forall k | 0 <= k < other.size {
        flags[k] := other.defined[k];
      }
      data, defined := values, flags;
    }

    /** `DynamicArray(count)`: a negative count is refused. */
    static method Sized(count: int) returns (r: Result<DynamicArray<T>>)
      ensures count < 0 <==> r.Err?
      ensures r.Err? ==> r.error == IndexOutOfRange
      ensures r.Ok? ==> fresh(r.value) && r.value.Valid() && r.value.Contents() == Blank(count)
    {
      if count < 0 {
        return Err(IndexOutOfRange);
      }
      var a := new DynamicArray<T>(count);
      return Ok(a);
    }

    /** `DynamicArray(items, count)`: a negative count is refused, otherwise
        the first `count` items are copied and defined. */
    static method Copied(items: seq<T>, count: int) returns (r: Result<DynamicArray<T>>)
      requires count <= |items|
      ensures count < 0 <==> r.Err?
      ensures r.Err? ==> r.error == IndexOutOfRange
      ensures r.Ok? ==> fresh(r.value) && r.value.Valid() && r.value.Contents() == AllDefined(items[..count])
    {
      if count < 0 {
        return Err(IndexOutOfRange);
      }
      var a := new DynamicArray<T>.FromItems(items[..count]);
      return Ok(a);
    }

    /** `checkIndex`: is `index` within 0..size-1? */
    predicate InRange(index: int)
      reads this
    {
      0 <= index < size
    }

    /** `get` and the read-only `operator[]`: the value of a defined slot,
        or `IndexOutOfRange`. */
    function Get(index: int): (r: Result<T>)
      reads this, data, defined
      requires Valid()
      ensures r == Lookup(Contents(), index)
    {
      if !InRange(index) then Err(IndexOutOfRange)
      else if !defined[index] then Err(IndexOutOfRange)
      else Ok(data[index])
    }

    /** `getSize`. */
    function GetSize(): (r: int)
      reads this, data, defined
      requires Valid()
      ensures r == |Contents()|
    {
      size
    }

    /** `set`: store `value` at a valid index and mark the slot defined. */
    method Set(index: int, value: T) returns (r: Outcome)
      requires Valid()
      modifies data, defined
      ensures Valid()
      ensures InRange(index) ==> r == Pass && Contents() == old(Contents())[index := Defined(value)]
      ensures !InRange(index) ==> r == Fail(IndexOutOfRange) && Contents() == old(Contents())
    {
      if !InRange(index) {
        return Fail(IndexOutOfRange);
      }
      Store(index, value);
      return Pass;
    }

    /** Store into a slot known to exist, marking it defined. */
    method Store(index: nat, value: T)
      requires Valid() && index < size
      modifies data, defined
      ensures Valid() && Contents() == old(Contents())[index := Defined(value)]
    {
      data[index] := value;
      defined[index] := true;
    }

    /** The assignable `operator[]`: it checks the index and marks the slot
        defined whatever it held, handing back the value stored there. */
    method At(index: int) returns (r: Result<T>)
      requires Valid()
      modifies defined
      ensures Valid() && data[..] == old(data[..])
      ensures InRange(index) ==> r == Ok(data[index]) && Contents() == old(Contents())[index := Defined(data[index])]
      ensures !InRange(index) ==> r == Err(IndexOutOfRange) && Contents() == old(Contents())
    {
      if !InRange(index) {
        return Err(IndexOutOfRange);
      }
      defined[index] := true;
      return Ok(data[index]);
    }

    /** `resize`: a negative size is refused; otherwise the array is
        reallocated and keeps its first min(size, newSize) slots. */
    method Resize(newSize: int) returns (r: Outcome)
      requires Valid()
      modifies this
      ensures Valid()
      ensures newSize < 0 ==> r == Fail(BadArrayNewLength) && Contents() == old(Contents())
      ensures newSize >= 0 ==> r == Pass && Contents() == Resized(old(Contents()), newSize)
      ensures newSize >= 0 ==> fresh(data) && fresh(defined)
      ensures newSize < 0 ==> data == old(data) && defined == old(defined)
    {
      if newSize < 0 {
        return Fail(BadArrayNewLength);
      }
      var keep := if size < newSize then size else newSize;
      var newData := new T[newSize];
      var newDefined := new bool[newSize];
      for i := 0 to keep
        modifies newData, newDefined
        invariant forall k :: 0 <= k < i ==> newData[k] == data[k] && newDefined[k] == defined[k]
      {
        newData[i] := data[i];
        newDefined[i] := defined[i];
      }
      var i := size;
      while i < newSize
        modifies newDefined
        invariant size <= i && (size <= newSize ==> i <= newSize)
        invariant forall k :: 0 <= k < keep ==> newData[k] == data[k] && newDefined[k] == defined[k]
        invariant forall k :: size <= k < i && k < newSize ==> !newDefined[k]
      {
        newDefined[i] := false;
        i := i + 1;
      }
      size, data, defined := newSize, newData, newDefined;
      return Pass;
    }

    /** `swap`: exchange two defined slots; either index out of range or
        undefined is refused before anything changes. */
    method Swap(i: int, j: int) returns (r: Outcome)
      requires Valid()
      modifies data, defined
      ensures Valid()
      ensures old(Get(i)).Ok? && old(Get(j)).Ok? ==> r == Pass && Contents() == Swapped(old(Contents()), i, j)
      ensures !(old(Get(i)).Ok? && old(Get(j)).Ok?) ==> r == Fail(IndexOutOfRange) && Contents() == old(Contents())
    {
      var temp := Get(i);
      if temp.Err? {
        return Fail(IndexOutOfRange);
      }
      var other := Get(j);
      if other.Err? {
        return Fail(IndexOutOfRange);
      }
      ghost var before := Contents();
      var _ := Set(i, other.value);
      var _ := Set(j, temp.value);
      assert Contents() == Swapped(before, i, j);
      return Pass;
    }

    /** `append`: one more slot, holding `item`. */
    method Append(item: T)
      requires Valid()
      modifies this
      ensures Valid() && Contents() == old(Contents()) + [Defined(item)]
      ensures fresh(data) && fresh(defined)
    {
      var _ := Resize(size + 1);
      var _ := Set(size - 1, item);
    }

    /** `prepend`: grow by one, move every slot one to the right, and store
        `item` first. */
    method Prepend(item: T)
      requires Valid()
      modifies this
      ensures Valid() && Contents() == [Defined(item)] + old(Contents())
      ensures fresh(data) && fresh(defined)
    {
      ghost var before := Contents();
      var _ := Resize(size + 1);
      ghost var grown := Contents();
      ShiftThenStoreFirst(item);
      ShiftThenStore(before, grown, grown[..1] + grown[0..|grown| - 1], item, 0);
      AppendPrependAreInsertions(before, item);
    }

    /** The part of `prepend` after the resize: every slot moves one to the
        right, the last dropping off, and `item` is stored first. */
    method ShiftThenStoreFirst(item: T)
      requires Valid() && size >= 1
      modifies data, defined
      ensures Valid()
      ensures Contents() == (old(Contents())[..1] + old(Contents())[0..size - 1])[0 := Defined(item)]
    {
      ShiftRight(0);
      Store(0, item);
    }

    /** The shifting loop of `prepend` and `insertAt`: the slots from `index`
        on, all but the last, move one to the right, and slot `index` keeps
        its old contents. */
    method ShiftRight(index: nat)
      requires Valid() && index < size
      modifies data, defined
      ensures Valid()
      ensures Contents() == old(Contents())[..index + 1] + old(Contents())[index..size - 1]
    {
      ghost var d0, f0 := data[..], defined[..];
      ShiftRightArrays(data, defined, index);
      ShiftedRight(d0, f0, data[..], defined[..], index);
    }

    /** `insertAt`: the array grows by one slot BEFORE the index is checked
        against the new size, so 0..old size is accepted, and a refused
        index leaves the array one undefined slot longer. */
    method InsertAt(item: T, index: int) returns (r: Outcome)
      requires Valid()
      modifies this
      ensures Valid()
      ensures 0 <= index <= |old(Contents())| ==> r == Pass && Contents() == InsertedAt(old(Contents()), item, index)
      ensures !(0 <= index <= |old(Contents())|) ==>
        r == Fail(IndexOutOfRange) && Contents() == old(Contents()) + [Undefined]
      ensures fresh(data) && fresh(defined)
    {
      ghost var before := Contents();
      var _ := Resize(size + 1);
      GrowByOne(before);
      if !InRange(index) {
        return Fail(IndexOutOfRange);
      }
      ghost var grown := Contents();
      ShiftRight(index);
      ghost var shifted := Contents();
      var _ := Set(index, item);
      ShiftThenStore(before, grown, shifted, item, index);
      return Pass;
    }

    /** `removeAt`: check the index, move the later slots one to the left,
        and shrink by one. */
    method RemoveAt(index: int) returns (r: Outcome)
      requires Valid()
      modifies this, data, defined
      ensures Valid()
      ensures 0 <= index < |old(Contents())| ==> r == Pass && Contents() == RemovedAt(old(Contents()), index)
      ensures !(0 <= index < |old(Contents())|) ==> r == Fail(IndexOutOfRange) && Contents() == old(Contents())
      ensures r == Pass ==> fresh(data) && fresh(defined)
    {
      if !InRange(index) {
        return Fail(IndexOutOfRange);
      }
      ghost var before := Contents();
      ShiftLeft(index);
      var _ := Resize(size - 1);
      ShiftThenShrink(before, index);
      return Pass;
    }

    /** The shifting loop of `removeAt`: the slots after `index` move one to
        the left, and the last slot keeps its old contents. */
    method ShiftLeft(index: nat)
      requires Valid() && index < size
      modifies data, defined
      ensures Valid()
      ensures Contents() == old(Contents())[..index] + old(Contents())[index + 1..] + [old(Contents())[size - 1]]
    {
      ghost var d0, f0 := data[..], defined[..];
      ShiftLeftArrays(data, defined, index);
      ShiftedLeft(d0, f0, data[..], defined[..], index);
    }
  }

  /** The loop of `prepend` and `insertAt` on the two arrays: from the end
      down to `index + 1`, each entry takes the one to its left. */
  method ShiftRightArrays<T>(data: array<T>, defined: array<bool>, index: nat)
    requires data.Length == defined.Length && index < data.Length
    requires data as object != defined as object
    modifies data, defined
    ensures forall k :: 0 <= k <= index ==> data[k] == old(data[k]) && defined[k] == old(defined[k])
    ensures forall k :: index < k < data.Length ==> data[k] == old(data[k - 1]) && defined[k] == old(defined[k - 1])
  {
    var i := data.Length - 1;
    while i > index
      invariant index <= i <= data.Length - 1
      invariant forall k :: 0 <= k <= i ==> data[k] == old(data[k]) && defined[k] == old(defined[k])
      invariant forall k :: i < k < data.Length ==> data[k] == old(data[k - 1]) && defined[k] == old(defined[k - 1])
    {
      data[i] := data[i - 1];
      defined[i] := defined[i - 1];
      i := i - 1;
    }
  }

  /** The loop of `removeAt` on the two arrays: from `index + 1` up to the
      end, each entry is copied one place to the left. */
  method ShiftLeftArrays<T>(data: array<T>, defined: array<bool>, index: nat)
    requires data.Length == defined.Length && index < data.Length
    requires data as object != defined as object
    modifies data, defined
    ensures forall k :: 0 <= k < index ==> data[k] == old(data[k]) && defined[k] == old(defined[k])
    ensures forall k :: index <= k < data.Length - 1 ==> data[k] == old(data[k + 1]) && defined[k] == old(defined[k + 1])
    ensures data[data.Length - 1] == old(data[data.Length - 1]) && defined[data.Length - 1] == old(defined[data.Length - 1])
  {
    for i := index + 1 to data.Length
      invariant forall k :: 0 <= k < index ==> data[k] == old(data[k]) && defined[k] == old(defined[k])
      invariant forall k :: index <= k < i - 1 ==> data[k] == old(data[k + 1]) && defined[k] == old(defined[k + 1])
      invariant forall k :: i - 1 <= k < data.Length ==> data[k] == old(data[k]) && defined[k] == old(defined[k])
    {
      data[i - 1] := data[i];
      defined[i - 1] := defined[i];
    }
  }

  /** Arrays whose entries after `index` came from one place to the left
      hold the slots shifted right from `index`. */
  lemma ShiftedRight<T>(d0: seq<T>, f0: seq<bool>, d1: seq<T>, f1: seq<bool>, index: nat)
    requires |d0| == |f0| == |d1| == |f1| && index < |d0|
    requires forall k :: 0 <= k <= index ==> d1[k] == d0[k] && f1[k] == f0[k]
    requires forall k :: index < k < |d0| ==> d1[k] == d0[k - 1] && f1[k] == f0[k - 1]
    ensures Zip(d1, f1) == Zip(d0, f0)[..index + 1] + Zip(d0, f0)[index..|d0| - 1]
  {
    var before, expected := Zip(d0, f0), Zip(d0, f0)[..index + 1] + Zip(d0, f0)[index..|d0| - 1];
    forall k | 0 <= k < |d0|
      ensures Zip(d1, f1)[k] == expected[k]
    {
      if k > index {
        assert expected[k] == before[k - 1];
      }
    }
  }

  /** Arrays whose entries from `index` to the second last came from one
      place to the right hold the slots shifted left onto `index`. */
  lemma ShiftedLeft<T>(d0: seq<T>, f0: seq<bool>, d1: seq<T>, f1: seq<bool>, index: nat)
    requires |d0| == |f0| == |d1| == |f1| && index < |d0|
    requires forall k :: 0 <= k < index ==> d1[k] == d0[k] && f1[k] == f0[k]
    requires forall k :: index <= k < |d0| - 1 ==> d1[k] == d0[k + 1] && f1[k] == f0[k + 1]
    requires d1[|d0| - 1] == d0[|d0| - 1] && f1[|d0| - 1] == f0[|d0| - 1]
    ensures Zip(d1, f1) == Zip(d0, f0)[..index] + Zip(d0, f0)[index + 1..] + [Zip(d0, f0)[|d0| - 1]]
  {
    var before, expected := Zip(d0, f0), Zip(d0, f0)[..index] + Zip(d0, f0)[index + 1..] + [Zip(d0, f0)[|d0| - 1]];
    forall k | 0 <= k < |d0|
      ensures Zip(d1, f1)[k] == expected[k]
    {
      if index <= k < |d0| - 1 {
        assert expected[k] == before[k + 1];
      }
    }
  }

  /** Growing by an undefined slot, shifting from `index` and storing `x`
      there is insertion at `index`. */
  lemma ShiftThenStore<T>(before: seq<Slot<T>>, grown: seq<Slot<T>>, shifted: seq<Slot<T>>, x: T, index: nat)
    requires index <= |before|
    requires grown == Resized(before, |before| + 1)
    requires shifted == grown[..index + 1] + grown[index..|grown| - 1]
    ensures shifted[index := Defined(x)] == InsertedAt(before, x, index)
  {
    GrowByOne(before);
    var g := before + [Undefined];
    var lhs := (g[..index + 1] + g[index..|before|])[index := Defined(x)];
    forall k | 0 <= k < |before| + 1
      ensures lhs[k] == InsertedAt(before, x, index)[k]
    {
      if k < index {
        assert lhs[k] == before[k];
      } else if k > index {
        assert lhs[k] == before[k - 1];
      }
    }
  }

  /** Shifting left from `index` and dropping the last slot is removal. */
  lemma ShiftThenShrink<T>(before: seq<Slot<T>>, index: nat)
    requires index < |before|
    ensures Resized(before[..index] + before[index + 1..] + [before[|before| - 1]], |before| - 1) == RemovedAt(before, index)
  {
    var shifted := before[..index] + before[index + 1..] + [before[|before| - 1]];
    assert shifted[..|before| - 1] == RemovedAt(before, index);
  }
}
