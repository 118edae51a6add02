/** Shape geometry of the packing search (src/backpack.h, rotate, mirror and
    genAllRotations): a shape is a ragged list of rows, its bounding box is the
    rows padded with spaces to the widest row, and its orientations are the
    distinct rotations and mirror images of that box, kept in a std::set
    ordered lexicographically. */
module Geometry {

  /** A picture: one string per row. */
  type Grid = seq<string>

  /** `g` has exactly `h` rows of exactly `w` characters. */
  predicate IsBox(g: Grid, h: nat, w: nat) {
    |g| == h && forall r :: 0 <= r < h ==> |g[r]| == w
  }

  /** The longest row length (0 for no rows), as the width loop computes it. */
  function Width(shape: Grid): (w: nat)
    ensures forall r :: 0 <= r < |shape| ==> |shape[r]| <= w
    ensures w == 0 || exists r :: 0 <= r < |shape| && |shape[r]| == w
  {
    if shape == [] then 0
    else
      var w0 := Width(shape[..|shape| - 1]);
      var last := |shape[|shape| - 1]|;
      if w0 < last then last else w0
  }

  /** The bounding box: every row right-padded with spaces to Width(shape). */
  function Pad(shape: Grid): (box: Grid)
    ensures IsBox(box, |shape|, Width(shape))
  {
    var w := Width(shape);
    seq(|shape|, i requires 0 <= i < |shape| =>
      seq(w, j requires 0 <= j < w => if j < |shape[i]| then shape[i][j] else ' '))
  }

  /** A quarter turn of the `height` x `width` box: the result has `width`
      rows of `height` characters, row i being column i of the box read upwards. */
  function Rotate(box: Grid, width: nat, height: nat): (rot: Grid)
    requires IsBox(box, height, width)
    ensures IsBox(rot, width, height)
  {
    seq(width, i requires 0 <= i < width =>
      seq(height, j requires 0 <= j < height => box[height - j - 1][i]))
  }

  /** The mirror image: every row reversed, dimensions kept. */
  function Mirror(box: Grid, width: nat, height: nat): (m: Grid)
    requires IsBox(box, height, width)
    ensures IsBox(m, height, width)
  {
    seq(height, i requires 0 <= i < height =>
      seq(width, j requires 0 <= j < width => box[i][width - j - 1]))
  }

  /** `k` successive quarter turns of an h x w box. */
  function RotateTimes(box: Grid, h: nat, w: nat, k: nat): (r: Grid)
    requires IsBox(box, h, w)
    ensures if k % 2 == 0 then IsBox(r, h, w) else IsBox(r, w, h)
  {
    if k == 0 then box
    else if (k - 1) % 2 == 0 then Rotate(RotateTimes(box, h, w, k - 1), w, h)
    else Rotate(RotateTimes(box, h, w, k - 1), h, w)
  }

  // ---------------------------------------------------------------------------
  // Involution lemmas

  lemma {:induction false} MirrorTwice(box: Grid, h: nat, w: nat)
    requires IsBox(box, h, w)
    ensures Mirror(Mirror(box, w, h), w, h) == box
  {
    var m2 := Mirror(Mirror(box, w, h), w, h);
    forall i | 0 <= i < h ensures m2[i] == box[i] {
      assert forall j :: 0 <= j < w ==> m2[i][j] == box[i][j];
    }
  }

  /** Two quarter turns are the half turn: cell (i, j) comes from (h-1-i, w-1-j). */
  lemma {:induction false} RotateTwice(box: Grid, h: nat, w: nat)
    requires IsBox(box, h, w)
    ensures var r2 := Rotate(Rotate(box, w, h), h, w);
      IsBox(r2, h, w) &&
      forall i, j :: 0 <= i < h && 0 <= j < w ==> r2[i][j] == box[h - 1 - i][w - 1 - j]
  {
  }

  lemma {:induction false} RotateFourTimes(box: Grid, h: nat, w: nat)
    requires IsBox(box, h, w)
    ensures Rotate(Rotate(Rotate(Rotate(box, w, h), h, w), w, h), h, w) == box
  {
    var r2 := Rotate(Rotate(box, w, h), h, w);
    RotateTwice(box, h, w);
    RotateTwice(r2, h, w);
    var r4 := Rotate(Rotate(r2, w, h), h, w);
    forall i | 0 <= i < h ensures r4[i] == box[i] {
      assert forall j :: 0 <= j < w ==> r4[i][j] == box[i][j];
    }
  }

  lemma {:induction false} RotateTimesFour(box: Grid, h: nat, w: nat)
    requires IsBox(box, h, w)
    ensures RotateTimes(box, h, w, 4) == box
  {
    assert RotateTimes(box, h, w, 0) == box;
    var r1 := RotateTimes(box, h, w, 1);
    assert r1 == Rotate(box, w, h);
    var r2 := RotateTimes(box, h, w, 2);
    assert r2 == Rotate(r1, h, w);
    var r3 := RotateTimes(box, h, w, 3);
    assert r3 == Rotate(r2, w, h);
    assert RotateTimes(box, h, w, 4) == Rotate(r3, h, w);
    RotateFourTimes(box, h, w);
  }

  // ---------------------------------------------------------------------------
  // The std::set<Shape> order: lexicographic on rows, rows lexicographic on chars

  predicate StrLess(a: string, b: string) {
    if a == [] then b != []
    else b != [] && (a[0] < b[0] || (a[0] == b[0] && StrLess(a[1..], b[1..])))
  }

  predicate GridLess(a: Grid, b: Grid) {
    if a == [] then b != []
    else b != [] && (StrLess(a[0], b[0]) || (a[0] == b[0] && GridLess(a[1..], b[1..])))
  }

  lemma {:induction false} StrLessIrreflexive(a: string)
    ensures !StrLess(a, a)
  {
    if a != [] { StrLessIrreflexive(a[1..]); }
  }

  lemma {:induction false} StrLessTransitive(a: string, b: string, c: string)
    requires StrLess(a, b) && StrLess(b, c)
    ensures StrLess(a, c)
  {
    if a != [] && a[0] == b[0] && b[0] == c[0] {
      StrLessTransitive(a[1..], b[1..], c[1..]);
    }
  }

  lemma {:induction false} StrLessTotal(a: string, b: string)
    requires a != b
    ensures StrLess(a, b) || StrLess(b, a)
  {
    if a != [] && b != [] && a[0] == b[0] {
      assert a == [a[0]] + a[1..] && b == [b[0]] + b[1..];
      StrLessTotal(a[1..], b[1..]);
    }
  }

  lemma {:induction false} GridLessIrreflexive(a: Grid)
    ensures !GridLess(a, a)
  {
    if a != [] {
      StrLessIrreflexive(a[0]);
      GridLessIrreflexive(a[1..]);
    }
  }

  lemma {:induction false} GridLessTransitive(a: Grid, b: Grid, c: Grid)
    requires GridLess(a, b) && GridLess(b, c)
    ensures GridLess(a, c)
  {
    if a != [] {
      if StrLess(a[0], b[0]) && StrLess(b[0], c[0]) {
        StrLessTransitive(a[0], b[0], c[0]);
      } else if a[0] == b[0] && b[0] == c[0] {
        GridLessTransitive(a[1..], b[1..], c[1..]);
      }
    }
  }

  lemma {:induction false} GridLessTotal(a: Grid, b: Grid)
    requires a != b
    ensures GridLess(a, b) || GridLess(b, a)
  {
    if a != [] && b != [] {
      if a[0] != b[0] {
        StrLessTotal(a[0], b[0]);
      } else {
        assert a == [a[0]] + a[1..] && b == [b[0]] + b[1..];
        GridLessTotal(a[1..], b[1..]);
      }
    }
  }

  lemma GridLessAsymmetric(a: Grid, b: Grid)
    requires GridLess(a, b)
    ensures !GridLess(b, a)
  {
    if GridLess(b, a) {
      GridLessTransitive(a, b, a);
      GridLessIrreflexive(a);
    }
  }

  /** The contents of a std::set<Shape> in iteration order: strictly ascending. */
  predicate StrictlySorted(s: seq<Grid>) {
    forall i, j {:trigger GridLess(s[i], s[j])} :: 0 <= i < j < |s| ==> GridLess(s[i], s[j])
  }

  /** std::set::insert: nothing happens when an equivalent shape is present,
      otherwise `x` goes in before the first larger shape. */
  function SetInsert(s: seq<Grid>, x: Grid): (r: seq<Grid>)
    requires StrictlySorted(s)
    ensures StrictlySorted(r)
    ensures x in s ==> r == s
    ensures x !in s ==> |r| == |s| + 1
    decreases |s|, 0
  {
    if s == [] then [x]
    else if GridLess(s[0], x) then
      var tail := SetInsert(s[1..], x);
      assert forall k :: 0 <= k < |s[1..]| ==> GridLess(s[0], s[1..][k]) by {
        forall k | 0 <= k < |s[1..]| ensures GridLess(s[0], s[1..][k]) {
          assert s[1..][k] == s[k + 1];
        }
      }
      SetInsertAbove(s[0], s[1..], x);
      assert forall k :: 0 <= k < |tail| ==> GridLess(s[0], tail[k]);
      assert s[0] != x by { GridLessIrreflexive(x); }
      [s[0]] + tail
    else if !GridLess(x, s[0]) then
      GridLessTotalAt(x, s[0]);
      s
    else
      assert forall k :: 0 <= k < |s| ==> GridLess(x, s[k]) by {
        forall k | 0 <= k < |s| ensures GridLess(x, s[k]) {
          if k > 0 { GridLessTransitive(x, s[0], s[k]); }
        }
      }
      assert x !in s by {
        forall k | 0 <= k < |s| ensures s[k] != x {
          GridLessIrreflexive(x);
        }
      }
      [x] + s
  }

  /** A shape below every member and below the inserted shape stays below
      every member of the result. */
  lemma SetInsertAbove(y: Grid, s: seq<Grid>, x: Grid)
    requires StrictlySorted(s) && GridLess(y, x)
    requires forall k :: 0 <= k < |s| ==> GridLess(y, s[k])
    ensures forall k :: 0 <= k < |SetInsert(s, x)| ==> GridLess(y, SetInsert(s, x)[k])
    decreases |s|, 2
  {
    var r := SetInsert(s, x);
    forall k | 0 <= k < |r| ensures GridLess(y, r[k]) {
      SetInsertMembers(s, x, r[k]);
    }
  }

  /** After insertion the set holds the old members and the new shape, and nothing else. */
  lemma {:induction false} SetInsertMembers(s: seq<Grid>, x: Grid, g: Grid)
    requires StrictlySorted(s)
    ensures g in SetInsert(s, x) <==> g in s || g == x
    decreases |s|, 1
  {
    if s != [] && GridLess(s[0], x) {
      SetInsertMembers(s[1..], x, g);
      assert g in s <==> g == s[0] || g in s[1..] by {
        assert s == [s[0]] + s[1..];
      }
    }
  }

  /** Neither shape is less than the other: they are equal. */
  lemma GridLessTotalAt(a: Grid, b: Grid)
    requires !GridLess(a, b) && !GridLess(b, a)
    ensures a == b
  {
    if a != b { GridLessTotal(a, b); }
  }

  /** The shapes genAllRotations has inserted after `n` rounds of its rotation
      loop: the box `b` and its mirror image `m` first, then in round k the
      k-th quarter turn of each. */
  function Rounds(b: Grid, m: Grid, h: nat, w: nat, n: nat): (r: seq<Grid>)
    requires IsBox(b, h, w) && IsBox(m, h, w)
    ensures StrictlySorted(r)
  {
    if n == 0 then SetInsert(SetInsert([], b), m)
    else SetInsert(SetInsert(Rounds(b, m, h, w, n - 1), RotateTimes(b, h, w, n)), RotateTimes(m, h, w, n))
  }

  /** The value genAllRotations returns, in the set's iteration order. */
  function Orientations(shape: Grid): seq<Grid> {
    var h, w := |shape|, Width(shape);
    Rounds(Pad(shape), Mirror(Pad(shape), w, h), h, w, 3)
  }

  /** One more quarter turn, with the dimensions of an even or odd count of turns. */
  lemma RotateTimesStep(box: Grid, h: nat, w: nat, k: nat, width: nat, height: nat)
    requires IsBox(box, h, w)
    requires if k % 2 == 0 then width == w && height == h else width == h && height == w
    ensures IsBox(RotateTimes(box, h, w, k), height, width)
    ensures RotateTimes(box, h, w, k + 1) == Rotate(RotateTimes(box, h, w, k), width, height)
  {
  }

  /** The eight transforms genAllRotations inserts, as a set: the h x w box `b`
      and its mirror image `m`, each turned 0, 1, 2 and 3 quarter turns. */
  function Transforms(b: Grid, m: Grid, h: nat, w: nat): set<Grid>
    requires IsBox(b, h, w) && IsBox(m, h, w)
  {
    {b, m,
     RotateTimes(b, h, w, 1), RotateTimes(m, h, w, 1),
     RotateTimes(b, h, w, 2), RotateTimes(m, h, w, 2),
     RotateTimes(b, h, w, 3), RotateTimes(m, h, w, 3)}
  }

  /** The transforms of a shape's bounding box. */
  function TransformSet(shape: Grid): set<Grid> {
    var h, w := |shape|, Width(shape);
    Transforms(Pad(shape), Mirror(Pad(shape), w, h), h, w)
  }

  /** The shapes inserted in rounds 0..n, in insertion order. */
  function RoundShapes(b: Grid, m: Grid, h: nat, w: nat, n: nat): seq<Grid>
    requires IsBox(b, h, w) && IsBox(m, h, w)
  {
    if n == 0 then [b, m]
    else RoundShapes(b, m, h, w, n - 1) + [RotateTimes(b, h, w, n), RotateTimes(m, h, w, n)]
  }

  /** One round of genAllRotations adds exactly its two shapes to the set. */
  lemma InsertPairMembers(prev: seq<Grid>, shapes: seq<Grid>, x: Grid, y: Grid, g: Grid)
    requires StrictlySorted(prev)
    requires g in prev <==> g in shapes
    ensures g in SetInsert(SetInsert(prev, x), y) <==> g in shapes + [x, y]
  {
    var r1 := SetInsert(prev, x);
    SetInsertMembers(prev, x, g);
    SetInsertMembers(r1, y, g);
    assert g in shapes + [x, y] <==> g in shapes || g == x || g == y;
  }

  /** Round 0 inserts the box and its mirror image. */
  lemma RoundsMembersBase(b: Grid, m: Grid, h: nat, w: nat, g: Grid)
    requires IsBox(b, h, w) && IsBox(m, h, w)
    ensures g in Rounds(b, m, h, w, 0) <==> g in RoundShapes(b, m, h, w, 0)
  {
    InsertPairMembers([], [], b, m, g);
    assert [] + [b, m] == [b, m];
  }

  /** The set built by rounds 0..n holds exactly the shapes inserted in them. */
  lemma {:induction false} RoundsMembers(b: Grid, m: Grid, h: nat, w: nat, n: nat, g: Grid)
    requires IsBox(b, h, w) && IsBox(m, h, w)
    ensures g in Rounds(b, m, h, w, n) <==> g in RoundShapes(b, m, h, w, n)
  {
    if n == 0 {
      RoundsMembersBase(b, m, h, w, g);
    } else {
      var prev, shapes := Rounds(b, m, h, w, n - 1), RoundShapes(b, m, h, w, n - 1);
      RoundsMembers(b, m, h, w, n - 1, g);
      InsertPairMembers(prev, shapes, RotateTimes(b, h, w, n), RotateTimes(m, h, w, n), g);
    }
  }

  /** A strictly sorted sequence has no repeated element, so its length is
      the size of its set of elements. */
  lemma {:induction false} SortedLengthIsCard(s: seq<Grid>)
    requires StrictlySorted(s)
    ensures |s| == |set g | g in s|
  {
    if s != [] {
      var rest := s[1..];
      SortedLengthIsCard(rest);
      assert s[0] !in rest by {
        forall k | 0 <= k < |rest| ensures rest[k] != s[0] {
          assert GridLess(s[0], s[k + 1]);
          GridLessIrreflexive(s[0]);
        }
      }
      assert (set g | g in s) == (set g | g in rest) + {s[0]} by {
        assert s == [s[0]] + rest;
      }
    }
  }

  /** The eight shapes of rounds 0..3 are the members of Transforms. */
  lemma RoundShapesThree(b: Grid, m: Grid, h: nat, w: nat, g: Grid)
    requires IsBox(b, h, w) && IsBox(m, h, w)
    ensures g in RoundShapes(b, m, h, w, 3) <==> g in Transforms(b, m, h, w)
  {
    var b1, m1 := RotateTimes(b, h, w, 1), RotateTimes(m, h, w, 1);
    var b2, m2 := RotateTimes(b, h, w, 2), RotateTimes(m, h, w, 2);
    var b3, m3 := RotateTimes(b, h, w, 3), RotateTimes(m, h, w, 3);
    assert RoundShapes(b, m, h, w, 0) == [b, m];
    assert RoundShapes(b, m, h, w, 1) == [b, m, b1, m1];
    assert RoundShapes(b, m, h, w, 2) == [b, m, b1, m1, b2, m2];
    assert RoundShapes(b, m, h, w, 3) == [b, m, b1, m1, b2, m2, b3, m3];
  }

  /** Every transform of an h x w box is h x w or w x h. */
  lemma TransformDimensions(b: Grid, m: Grid, h: nat, w: nat, g: Grid)
    requires IsBox(b, h, w) && IsBox(m, h, w)
    requires g in Transforms(b, m, h, w)
    ensures IsBox(g, h, w) || IsBox(g, w, h)
  {
    assert IsBox(RotateTimes(b, h, w, 1), w, h) && IsBox(RotateTimes(m, h, w, 1), w, h);
    assert IsBox(RotateTimes(b, h, w, 2), h, w) && IsBox(RotateTimes(m, h, w, 2), h, w);
    assert IsBox(RotateTimes(b, h, w, 3), w, h) && IsBox(RotateTimes(m, h, w, 3), w, h);
  }

  /** Rounds 0..3 leave a strictly sorted list of exactly the distinct
      transforms, each h x w or w x h. */
  lemma {:induction false} RoundsAreTransforms(b: Grid, m: Grid, h: nat, w: nat)
    requires IsBox(b, h, w) && IsBox(m, h, w)
    ensures (set g | g in Rounds(b, m, h, w, 3)) == Transforms(b, m, h, w)
    ensures |Rounds(b, m, h, w, 3)| == |Transforms(b, m, h, w)| <= 8
    ensures forall g :: g in Rounds(b, m, h, w, 3) ==> IsBox(g, h, w) || IsBox(g, w, h)
  {
    var o := Rounds(b, m, h, w, 3);
    forall g ensures g in o <==> g in Transforms(b, m, h, w) {
      RoundsMembers(b, m, h, w, 3, g);
      RoundShapesThree(b, m, h, w, g);
    }
    forall g | g in o ensures IsBox(g, h, w) || IsBox(g, w, h) {
      TransformDimensions(b, m, h, w, g);
    }
    SortedLengthIsCard(o);
    CardAtMostEight(b, m, RotateTimes(b, h, w, 1), RotateTimes(m, h, w, 1),
      RotateTimes(b, h, w, 2), RotateTimes(m, h, w, 2),
      RotateTimes(b, h, w, 3), RotateTimes(m, h, w, 3));
  }

  /** Every shape is less than the next one. */
  predicate Ascending(s: seq<Grid>) {
    forall i :: 0 <= i < |s| - 1 ==> GridLess(s[i], s[i + 1])
  }

  /** Adjacent shapes in ascending order make the whole list strictly sorted. */
  lemma {:induction false} ChainSorted(s: seq<Grid>)
    requires Ascending(s)
    ensures StrictlySorted(s)
  {
    if |s| > 1 {
      ChainSorted(s[1..]);
      forall j | 0 < j < |s| ensures GridLess(s[0], s[j]) {
        if j > 1 {
          assert GridLess(s[1..][0], s[1..][j - 1]);
          GridLessTransitive(s[0], s[1], s[j]);
        }
      }
      forall i, j | 0 <= i < j < |s| ensures GridLess(s[i], s[j]) {
        if i > 0 { assert GridLess(s[1..][i - 1], s[1..][j - 1]); }
      }
    }
  }

  /** A std::set's contents are determined by its members: two strictly sorted
      lists holding the same shapes are equal. */
  lemma {:induction false} SortedUnique(a: seq<Grid>, b: seq<Grid>)
    requires StrictlySorted(a) && StrictlySorted(b)
    requires forall g :: g in a <==> g in b
    ensures a == b
  {
    assert a == [] <==> b == [] by {
      if a != [] { assert a[0] in b; }
      if b != [] { assert b[0] in a; }
    }
    if a != [] {
      if a[0] != b[0] {
        assert b[0] in a && a[0] in b;
        var i :| 0 <= i < |a| && a[i] == b[0];
        var j :| 0 <= j < |b| && b[j] == a[0];
        assert GridLess(a[0], b[0]);
        assert GridLess(b[0], a[0]);
        GridLessAsymmetric(a[0], b[0]);
        assert false;
      }
      forall g ensures g in a[1..] <==> g in b[1..] {
        SortedTailMembers(a, g);
        SortedTailMembers(b, g);
      }
      SortedUnique(a[1..], b[1..]);
      assert a == [a[0]] + a[1..] && b == [b[0]] + b[1..];
    }
  }

  /** The tail of a strictly sorted list holds every member but the first. */
  lemma SortedTailMembers(s: seq<Grid>, g: Grid)
    requires StrictlySorted(s) && s != []
    ensures g in s[1..] <==> g in s && g != s[0]
  {
    if g in s[1..] {
      var k :| 0 <= k < |s[1..]| && s[1..][k] == g;
      assert GridLess(s[0], s[k + 1]);
      GridLessIrreflexive(s[0]);
    }
    if g in s && g != s[0] {
      var k :| 0 <= k < |s| && s[k] == g;
      assert s[1..][k - 1] == g;
    }
  }

  /** The orientations are the transforms listed in ascending order. */
  lemma OrientationsAreSortedTransforms(shape: Grid, sorted: seq<Grid>)
    requires Ascending(sorted)
    requires forall g :: g in sorted <==> g in TransformSet(shape)
    ensures Orientations(shape) == sorted
  {
    ChainSorted(sorted);
    OrientationsAreTransforms(shape);
    var o := Orientations(shape);
    forall g ensures g in o <==> g in sorted {
      assert g in o <==> g in (set x | x in o);
    }
    SortedUnique(o, sorted);
  }

  /** genAllRotations returns exactly the distinct transforms of the padded box:
      at most eight shapes, each h x w or w x h for the h x w bounding box. */
  lemma OrientationsAreTransforms(shape: Grid)
    ensures (set g | g in Orientations(shape)) == TransformSet(shape)
    ensures |Orientations(shape)| == |TransformSet(shape)| <= 8
    ensures forall g :: g in Orientations(shape) ==>
      IsBox(g, |shape|, Width(shape)) || IsBox(g, Width(shape), |shape|)
  {
    var h, w := |shape|, Width(shape);
    var b := Pad(shape);
    RoundsAreTransforms(b, Mirror(b, w, h), h, w);
  }

  lemma CardAtMostEight(a: Grid, b: Grid, c: Grid, d: Grid, e: Grid, f: Grid, g: Grid, k: Grid)
    ensures |{a, b, c, d, e, f, g, k}| <= 8
  {
  }

  /** The first half of genAllRotations: the width loop and the padding loop. */
  method BoundingBox(shape: Grid) returns (box: Grid, width: nat)
    ensures width == Width(shape) && box == Pad(shape)
  {
    var height := |shape|;
    width := 0;
    for r := 0 to height
      invariant width == Width(shape[..r])
    {
      assert shape[..r + 1][..r] == shape[..r];
      if width < |shape[r]| { width := |shape[r]|; }
    }
    assert shape[..height] == shape;

    box := [];
    for i := 0 to height
      invariant |box| == i
      invariant forall k :: 0 <= k < i ==> box[k] == Pad(shape)[k]
    {
      var row := seq(width, _ => ' ');
      for j := 0 to |shape[i]|
        invariant |row| == width
        invariant forall c :: 0 <= c < width ==> row[c] == (if c < j then shape[i][c] else ' ')
      {
        row := row[j := shape[i][j]];
      }
      box := box + [row];
    }
  }

  /** genAllRotations: pad to the bounding box, insert the box and its mirror
      image, then rotate both three times, inserting every result. */
  method GenAllRotations(shape: Grid) returns (res: seq<Grid>)
    ensures res == Orientations(shape)
  {
    var height := |shape|;
    var box, width := BoundingBox(shape);

    res := SetInsert([], box);
    var rot := box;
    var mirrorRot := Mirror(box, width, height);
    ghost var m := mirrorRot;
    res := SetInsert(res, mirrorRot);
    var rotWidth, rotHeight := width, height;
    for idx := 0 to 3
      invariant rot == RotateTimes(box, height, width, idx)
      invariant mirrorRot == RotateTimes(m, height, width, idx)
      invariant if idx % 2 == 0 then rotWidth == width && rotHeight == height
                else rotWidth == height && rotHeight == width
      invariant res == Rounds(box, m, height, width, idx)
    {
      RotateTimesStep(box, height, width, idx, rotWidth, rotHeight);
      RotateTimesStep(m, height, width, idx, rotWidth, rotHeight);
      rot := Rotate(rot, rotWidth, rotHeight);
      mirrorRot := Rotate(mirrorRot, rotWidth, rotHeight);
      res := SetInsert(res, rot);
      res := SetInsert(res, mirrorRot);
      rotWidth, rotHeight := rotHeight, rotWidth;
    }
  }
}
