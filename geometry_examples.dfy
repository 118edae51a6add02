/** The orientation counts and shapes that test/tests.cpp expects from
    genAllRotations, derived from the model. Each transform is worked out
    row by row in its own lemma, then the ascending order of the results. */
module GeometryExamples {
  import opened Geometry

  /** The first three quarter turns of an h x w box, one at a time. */
  lemma UnfoldTurns(b: Grid, h: nat, w: nat)
    requires IsBox(b, h, w)
    ensures RotateTimes(b, h, w, 1) == Rotate(b, w, h)
    ensures RotateTimes(b, h, w, 2) == Rotate(RotateTimes(b, h, w, 1), h, w)
    ensures RotateTimes(b, h, w, 3) == Rotate(RotateTimes(b, h, w, 2), w, h)
  {
    assert RotateTimes(b, h, w, 0) == b;
  }

  /** The transforms of a shape, given its box, mirror image and their turns. */
  lemma TransformsOf(shape: Grid, h: nat, w: nat, b: Grid, m: Grid,
                     b1: Grid, b2: Grid, b3: Grid, m1: Grid, m2: Grid, m3: Grid)
    requires h == |shape| && w == Width(shape) && Pad(shape) == b
    requires Mirror(b, w, h) == m
    requires Rotate(b, w, h) == b1 && Rotate(b1, h, w) == b2 && Rotate(b2, w, h) == b3
    requires Rotate(m, w, h) == m1 && Rotate(m1, h, w) == m2 && Rotate(m2, w, h) == m3
    ensures TransformSet(shape) == {b, m, b1, m1, b2, m2, b3, m3}
  {
    UnfoldTurns(b, h, w);
    UnfoldTurns(m, h, w);
  }

  // ---------------------------------------------------------------------------
  // A 2 x 2 square: one orientation

  lemma SquareTransforms()
    ensures TransformSet(["##", "##"]) == {["##", "##"]}
  {
    var sq: Grid := ["##", "##"];
    assert Width(sq) == 2;
    var p := Pad(sq);
    assert p[0] == "##" && p[1] == "##";
    var q := Mirror(sq, 2, 2);
    assert q[0] == "##" && q[1] == "##";
    var r := Rotate(sq, 2, 2);
    assert r[0] == "##" && r[1] == "##";
    TransformsOf(sq, 2, 2, sq, sq, sq, sq, sq, sq, sq, sq);
  }

  lemma SquareOrientations()
    ensures Orientations(["##", "##"]) == [["##", "##"]]
  {
    SquareTransforms();
    OrientationsAreSortedTransforms(["##", "##"], [["##", "##"]]);
  }

  // ---------------------------------------------------------------------------
  // A 2 x 5 rectangle: two orientations

  lemma RectangleBox()
    ensures Width(["#####", "#####"]) == 5
    ensures Pad(["#####", "#####"]) == ["#####", "#####"]
    ensures Mirror(["#####", "#####"], 5, 2) == ["#####", "#####"]
  {
    assert Width(["#####", "#####"]) == 5;
    var p := Pad(["#####", "#####"]);
    assert p[0] == "#####" && p[1] == "#####";
    var q := Mirror(["#####", "#####"], 5, 2);
    assert q[0] == "#####" && q[1] == "#####";
  }

  lemma RectangleTurns()
    ensures Rotate(["#####", "#####"], 5, 2) == ["##", "##", "##", "##", "##"]
    ensures Rotate(["##", "##", "##", "##", "##"], 2, 5) == ["#####", "#####"]
  {
    var r := Rotate(["#####", "#####"], 5, 2);
    assert r[0] == "##" && r[1] == "##" && r[2] == "##" && r[3] == "##" && r[4] == "##";
    var t := Rotate(["##", "##", "##", "##", "##"], 2, 5);
    assert t[0] == "#####" && t[1] == "#####";
  }

  lemma RectangleTransforms()
    ensures TransformSet(["#####", "#####"]) ==
      {["#####", "#####"], ["##", "##", "##", "##", "##"]}
  {
    var rect: Grid := ["#####", "#####"];
    var tall: Grid := ["##", "##", "##", "##", "##"];
    RectangleBox();
    RectangleTurns();
    TransformsOf(rect, 2, 5, rect, rect, tall, rect, tall, tall, rect, tall);
  }

  lemma RectangleOrientations()
    ensures Orientations(["#####", "#####"]) ==
      [["##", "##", "##", "##", "##"], ["#####", "#####"]]
  {
    RectangleTransforms();
    var sorted: seq<Grid> := [["##", "##", "##", "##", "##"], ["#####", "#####"]];
    assert GridLess(sorted[0], sorted[1]);
    OrientationsAreSortedTransforms(["#####", "#####"], sorted);
  }

  // ---------------------------------------------------------------------------
  // The poker shape {"#", "####"}: eight orientations

  lemma PokerBox()
    ensures Width(["#", "####"]) == 4
    ensures Pad(["#", "####"]) == ["#   ", "####"]
    ensures Mirror(["#   ", "####"], 4, 2) == ["   #", "####"]
  {
    assert Width(["#", "####"]) == 4;
    var p := Pad(["#", "####"]);
    assert p[0] == "#   " && p[1] == "####";
    var q := Mirror(["#   ", "####"], 4, 2);
    assert q[0] == "   #" && q[1] == "####";
  }

  lemma PokerTurns()
    ensures Rotate(["#   ", "####"], 4, 2) == ["##", "# ", "# ", "# "]
    ensures Rotate(["##", "# ", "# ", "# "], 2, 4) == ["####", "   #"]
    ensures Rotate(["####", "   #"], 4, 2) == [" #", " #", " #", "##"]
  {
    var p := Rotate(["#   ", "####"], 4, 2);
    assert p[0] == "##" && p[1] == "# " && p[2] == "# " && p[3] == "# ";
    var q := Rotate(["##", "# ", "# ", "# "], 2, 4);
    assert q[0] == "####" && q[1] == "   #";
    var r := Rotate(["####", "   #"], 4, 2);
    assert r[0] == " #" && r[1] == " #" && r[2] == " #" && r[3] == "##";
  }

  lemma PokerMirrorTurns()
    ensures Rotate(["   #", "####"], 4, 2) == ["# ", "# ", "# ", "##"]
    ensures Rotate(["# ", "# ", "# ", "##"], 2, 4) == ["####", "#   "]
    ensures Rotate(["####", "#   "], 4, 2) == ["##", " #", " #", " #"]
  {
    var p := Rotate(["   #", "####"], 4, 2);
    assert p[0] == "# " && p[1] == "# " && p[2] == "# " && p[3] == "##";
    var q := Rotate(["# ", "# ", "# ", "##"], 2, 4);
    assert q[0] == "####" && q[1] == "#   ";
    var r := Rotate(["####", "#   "], 4, 2);
    assert r[0] == "##" && r[1] == " #" && r[2] == " #" && r[3] == " #";
  }

  lemma PokerAscending()
    ensures Ascending([["   #", "####"], [" #", " #", " #", "##"], ["# ", "# ", "# ", "##"],
      ["#   ", "####"], ["##", " #", " #", " #"], ["##", "# ", "# ", "# "],
      ["####", "   #"], ["####", "#   "]])
  {
    var s: seq<Grid> := [["   #", "####"], [" #", " #", " #", "##"], ["# ", "# ", "# ", "##"],
      ["#   ", "####"], ["##", " #", " #", " #"], ["##", "# ", "# ", "# "],
      ["####", "   #"], ["####", "#   "]];
    assert GridLess(s[0], s[1]);
    assert GridLess(s[1], s[2]);
    assert GridLess(s[2], s[3]);
    assert GridLess(s[3], s[4]);
    assert GridLess(s[4], s[5]);
    assert GridLess(s[5], s[6]);
    assert GridLess(s[6], s[7]);
  }

  lemma PokerOrientations()
    ensures Orientations(["#", "####"]) ==
      [["   #", "####"], [" #", " #", " #", "##"], ["# ", "# ", "# ", "##"],
       ["#   ", "####"], ["##", " #", " #", " #"], ["##", "# ", "# ", "# "],
       ["####", "   #"], ["####", "#   "]]
  {
    var shape: Grid := ["#", "####"];
    var b: Grid := ["#   ", "####"];
    var m: Grid := ["   #", "####"];
    var b1: Grid := ["##", "# ", "# ", "# "];
    var b2: Grid := ["####", "   #"];
    var b3: Grid := [" #", " #", " #", "##"];
    var m1: Grid := ["# ", "# ", "# ", "##"];
    var m2: Grid := ["####", "#   "];
    var m3: Grid := ["##", " #", " #", " #"];
    PokerBox();
    PokerTurns();
    PokerMirrorTurns();
    TransformsOf(shape, 2, 4, b, m, b1, b2, b3, m1, m2, m3);
    PokerAscending();
    var sorted := [m, b3, m1, b, m3, b1, b2, m2];
    assert forall g :: g in sorted <==> g in TransformSet(shape);
    OrientationsAreSortedTransforms(shape, sorted);
  }

  // ---------------------------------------------------------------------------
  // The curved shape {" #", "####", " # ###"}: eight orientations, the first
  // one being the mirror image of its box

  lemma CurveBox()
    ensures Width([" #", "####", " # ###"]) == 6
    ensures Pad([" #", "####", " # ###"]) == [" #    ", "####  ", " # ###"]
    ensures Mirror([" #    ", "####  ", " # ###"], 6, 3) == ["    # ", "  ####", "### # "]
  {
    assert Width([" #", "####", " # ###"]) == 6;
    var p := Pad([" #", "####", " # ###"]);
    assert p[0] == " #    " && p[1] == "####  " && p[2] == " # ###";
    var q := Mirror([" #    ", "####  ", " # ###"], 6, 3);
    assert q[0] == "    # " && q[1] == "  ####" && q[2] == "### # ";
  }

  lemma CurveTurns()
    ensures Rotate([" #    ", "####  ", " # ###"], 6, 3) ==
      [" # ", "###", " # ", "## ", "#  ", "#  "]
    ensures Rotate([" # ", "###", " # ", "## ", "#  ", "#  "], 3, 6) ==
      ["### # ", "  ####", "    # "]
    ensures Rotate(["### # ", "  ####", "    # "], 6, 3) ==
      ["  #", "  #", " ##", " # ", "###", " # "]
  {
    var p := Rotate([" #    ", "####  ", " # ###"], 6, 3);
    assert p[0] == " # " && p[1] == "###" && p[2] == " # ";
    assert p[3] == "## " && p[4] == "#  " && p[5] == "#  ";
    var q := Rotate([" # ", "###", " # ", "## ", "#  ", "#  "], 3, 6);
    assert q[0] == "### # " && q[1] == "  ####" && q[2] == "    # ";
    var r := Rotate(["### # ", "  ####", "    # "], 6, 3);
    assert r[0] == "  #" && r[1] == "  #" && r[2] == " ##";
    assert r[3] == " # " && r[4] == "###" && r[5] == " # ";
  }

  lemma CurveMirrorTurns()
    ensures Rotate(["    # ", "  ####", "### # "], 6, 3) ==
      ["#  ", "#  ", "## ", " # ", "###", " # "]
    ensures Rotate(["#  ", "#  ", "## ", " # ", "###", " # "], 3, 6) ==
      [" # ###", "####  ", " #    "]
    ensures Rotate([" # ###", "####  ", " #    "], 6, 3) ==
      [" # ", "###", " # ", " ##", "  #", "  #"]
  {
    var p := Rotate(["    # ", "  ####", "### # "], 6, 3);
    assert p[0] == "#  " && p[1] == "#  " && p[2] == "## ";
    assert p[3] == " # " && p[4] == "###" && p[5] == " # ";
    var q := Rotate(["#  ", "#  ", "## ", " # ", "###", " # "], 3, 6);
    assert q[0] == " # ###" && q[1] == "####  " && q[2] == " #    ";
    var r := Rotate([" # ###", "####  ", " #    "], 6, 3);
    assert r[0] == " # " && r[1] == "###" && r[2] == " # ";
    assert r[3] == " ##" && r[4] == "  #" && r[5] == "  #";
  }

  lemma CurveAscending()
    ensures Ascending([["    # ", "  ####", "### # "], ["  #", "  #", " ##", " # ", "###", " # "],
      [" # ", "###", " # ", " ##", "  #", "  #"], [" # ", "###", " # ", "## ", "#  ", "#  "],
      [" #    ", "####  ", " # ###"], [" # ###", "####  ", " #    "],
      ["#  ", "#  ", "## ", " # ", "###", " # "], ["### # ", "  ####", "    # "]])
  {
    var s: seq<Grid> := [["    # ", "  ####", "### # "], ["  #", "  #", " ##", " # ", "###", " # "],
      [" # ", "###", " # ", " ##", "  #", "  #"], [" # ", "###", " # ", "## ", "#  ", "#  "],
      [" #    ", "####  ", " # ###"], [" # ###", "####  ", " #    "],
      ["#  ", "#  ", "## ", " # ", "###", " # "], ["### # ", "  ####", "    # "]];
    assert GridLess(s[0], s[1]);
    assert GridLess(s[1], s[2]);
    assert GridLess(s[2], s[3]);
    assert GridLess(s[3], s[4]);
    assert GridLess(s[4], s[5]);
    assert GridLess(s[5], s[6]);
    assert GridLess(s[6], s[7]);
  }

  lemma CurveOrientations()
    ensures |Orientations([" #", "####", " # ###"])| == 8
    ensures Orientations([" #", "####", " # ###"])[0] == ["    # ", "  ####", "### # "]
  {
    var shape: Grid := [" #", "####", " # ###"];
    var b: Grid := [" #    ", "####  ", " # ###"];
    var m: Grid := ["    # ", "  ####", "### # "];
    var b1: Grid := [" # ", "###", " # ", "## ", "#  ", "#  "];
    var b2: Grid := ["### # ", "  ####", "    # "];
    var b3: Grid := ["  #", "  #", " ##", " # ", "###", " # "];
    var m1: Grid := ["#  ", "#  ", "## ", " # ", "###", " # "];
    var m2: Grid := [" # ###", "####  ", " #    "];
    var m3: Grid := [" # ", "###", " # ", " ##", "  #", "  #"];
    CurveBox();
    CurveTurns();
    CurveMirrorTurns();
    TransformsOf(shape, 3, 6, b, m, b1, b2, b3, m1, m2, m3);
    CurveAscending();
    var sorted := [m, b3, m3, b1, b, m2, m1, b2];
    assert forall g :: g in sorted <==> g in TransformSet(shape);
    OrientationsAreSortedTransforms(shape, sorted);
  }
}
