# laba3-2 in Dafny

A model of the core of laba3-2, a C++ coursework on packing a backpack. The
backpack is a picture of cells: `_` is free and `#` is blocked. Items are
pictures drawn with `@`, and each has a weight and a price. The core has
these parts:

- **Geometry** (`geometry.dfy`): the bounding box, the quarter turn and the
  mirror of a shape. `genAllRotations` builds the ordered set of the (up to
  eight) orientations of a shape.
- **Placement** (`placement.dfy`): `tryPutItem` draws an item into the
  backpack at an offset. It stops at the first pixel that falls outside the
  picture or on a cell that is not free.
- **Packing** (`packing.dfy`) and **SolutionTrees** (`solution_tree.dfy`):
  the order of backpacks, which is price first and then weight. Also the
  sorted key list of a node, and the solution tree. Every node places one
  more unused item, in every orientation, at every anchor cell. Every leaf
  goes into the `std::set` of solutions. The tree is searched for a price,
  and the search cuts off at the first dearer child.
- **Derivation** (`derivation.dfy`): `AllSolutions` in `main.cpp`. It builds
  the list of solutions, then the dearest ones within the weight limit, then
  the dearest and lightest one, then the best-filled of the dearest.
- **Knapsack** (`knapsack.dfy`): the 0/1 knapsack table of `solveBackpack`.
- **DynamicArrays**, **ArraySequences**, **SortedSequences**
  (`dynamic_array.dfy`, `array_sequence.dfy`, `sorted_sequence.dfy`): the
  container library. It is an array with a "defined" flag per element, a
  sequence over it, and a sorted sequence.
- **BTrees** (`btree.dfy`): the B-tree of minimum degree `t`, with search,
  traversal, insertion and node splitting.
- **NaryTrees** (`nary_tree.dfy`): the n-ary tree `Tree<T, N>`, with insert,
  find and reduce.
- **Outcomes** (`outcomes.dfy`): the shared results. The C++ exceptions
  `IndexOutOfRange` and `bad_array_new_length` become `Err`/`Fail` values.

Objects that the source updates in place are classes with `modifies`
clauses: `DynamicArray`, `ArraySequence`, `SortedSequence`, `BTree`, `Tree`,
`SolutionTree` and `AllSolutions`. Their contracts tie the new state to a
specification function of the old state. The tree nodes are datatype values,
and the loops of the source are `while`/`for` loops with invariants. The
source's `std::set` is a strictly ascending sequence, and inserting into it
keeps the first element of an equivalence class.

## Model

| member | source | states |
|---|---|---|
| Geometry.Width | src/backpack.h:123-125 | the width is at least every row's length and equals some row's length (0 for no rows) |
| Geometry.Pad | src/backpack.h:127-131 | the bounding box has one row per shape row, each exactly Width long |
| Geometry.Rotate | src/backpack.h:92-106 | a quarter turn of a height×width box is a width×height box |
| Geometry.Mirror | src/backpack.h:108-118 | a mirrored box keeps its height and width |
| Geometry.RotateTimes | src/backpack.h:141-148 | after k turns the box is h×w for even k and w×h for odd k, as the swap of rot_width and rot_height tracks |
| Geometry.MirrorTwice | src/backpack.h:108-118 | mirroring twice gives back the box |
| Geometry.RotateTwice | src/backpack.h:92-106 | two quarter turns are a half turn: cell (i, j) comes from (h-1-i, w-1-j) |
| Geometry.RotateFourTimes | src/backpack.h:92-106 | four quarter turns give back the box |
| Geometry.RotateTimesFour | src/backpack.h:141-148 | the fourth turn of the loop comes back to the start |
| Geometry.StrLessIrreflexive | src/backpack.h:133 | no string row is less than itself |
| Geometry.StrLessTransitive | src/backpack.h:133 | the lexicographic order on strings is transitive |
| Geometry.StrLessTotal | src/backpack.h:133 | any two different strings are ordered one way |
| Geometry.GridLessIrreflexive | src/backpack.h:133 | no shape is less than itself in the order of set<Shape> |
| Geometry.GridLessTransitive | src/backpack.h:133 | the order of set<Shape> is transitive |
| Geometry.GridLessTotal | src/backpack.h:133 | any two different shapes are ordered one way, so the set order is total |
| Geometry.GridLessAsymmetric | src/backpack.h:133 | two shapes are never less than each other |
| Geometry.SetInsert | src/backpack.h:136-146 | inserting into the set of shapes keeps it strictly sorted; a shape already present changes nothing, a new one adds one element |
| Geometry.SetInsertMembers | src/backpack.h:136-146 | after an insert the members are exactly the old members and the new shape |
| Geometry.Rounds | src/backpack.h:136-148 | the set after the first inserts and any number of rounds is strictly sorted |
| Geometry.RoundsMembers | src/backpack.h:136-148 | a shape is in the set after n rounds exactly when one of those rounds (or the start) produced it |
| Geometry.RoundsAreTransforms | src/backpack.h:121-151 | after the three rounds the set holds exactly the four turns of the box and of its mirror, at most 8 shapes, each h×w or w×h |
| Geometry.SortedUnique | src/backpack.h:133 | two strictly sorted lists with the same members are equal, so a set of shapes has one iteration order |
| Geometry.OrientationsAreSortedTransforms | src/backpack.h:121-151 | any strictly sorted list of the eight transforms is what genAllRotations yields |
| Geometry.OrientationsAreTransforms | src/backpack.h:121-151 | the orientations are exactly the distinct turns and mirrored turns, at most 8, each height×width or width×height for the shape's row count and width |
| Geometry.BoundingBox | src/backpack.h:122-131 | the loops compute the width and the space-padded box |
| Geometry.GenAllRotations | src/backpack.h:121-151 | the result is the ordered set of orientations (distinct, sorted, the turns and mirrored turns of the box) |
| GeometryExamples.SquareTransforms | test/tests.cpp:130-137 | all eight transforms of the 2×2 square are the square itself |
| GeometryExamples.SquareOrientations | test/tests.cpp:130-137 | the square has one orientation |
| GeometryExamples.RectangleBox | test/tests.cpp:138-148 | the 2×5 rectangle is its own box and its own mirror |
| GeometryExamples.RectangleTurns | test/tests.cpp:138-148 | a turn makes it 5×2 and another turns it back |
| GeometryExamples.RectangleTransforms | test/tests.cpp:138-148 | the rectangle has two distinct transforms |
| GeometryExamples.RectangleOrientations | test/tests.cpp:138-148 | the rectangle has two orientations, in set order |
| GeometryExamples.PokerBox | test/tests.cpp:150-160 | the poker's box is padded with spaces and mirrored |
| GeometryExamples.PokerTurns | test/tests.cpp:150-160 | the three turns of the poker are the pictures in the test comment |
| GeometryExamples.PokerMirrorTurns | test/tests.cpp:150-160 | the three turns of the mirrored poker are the pictures in the test comment |
| GeometryExamples.PokerAscending | test/tests.cpp:150-160 | the eight poker shapes, listed, are in strictly ascending order |
| GeometryExamples.PokerOrientations | test/tests.cpp:150-160 | the poker has those 8 orientations |
| GeometryExamples.CurveBox | test/tests.cpp:162-175 | the curve's box and its mirror |
| GeometryExamples.CurveTurns | test/tests.cpp:162-175 | the three turns of the curve |
| GeometryExamples.CurveMirrorTurns | test/tests.cpp:162-175 | the three turns of the mirrored curve |
| GeometryExamples.CurveAscending | test/tests.cpp:162-175 | the eight curve shapes, listed, are in strictly ascending order |
| GeometryExamples.CurveOrientations | test/tests.cpp:162-175 | the curve has 8 orientations and the first is the one the test checks row by row |
| Placement.StampBefore | src/backpack.h:160-174 | drawing the pixels before (r, c) keeps the picture's dimensions |
| Placement.StampStepBlank | src/backpack.h:162-164 | a non-pixel cell of the item draws nothing and keeps the fit |
| Placement.StampStepPixel | src/backpack.h:164-171 | a pixel that fits draws the symbol on exactly its cell |
| Placement.StampStepRow | src/backpack.h:161-162 | the end of an item row is the start of the next |
| Placement.StampBeforeUntouched | src/backpack.h:161-173 | a cell not yet drawn still holds the backpack's old content |
| Placement.StampNothing | src/backpack.h:160-161 | before the first pixel the picture is unchanged |
| Placement.StampKeepsTaken | src/backpack.h:168-171 | a cell that is not free is never overwritten |
| Placement.TryPutItem | src/backpack.h:160-176 | true exactly when every pixel lands on a free cell; then every pixel is drawn with the symbol; on false the pixels before the first misfit are drawn; dimensions and taken cells never change |
| Packing.LessIsStrictWeakOrder | src/backpack.h:65-70 | operator< is irreflexive, transitive and total up to equal (price, weight), so it is a strict weak order for std::set |
| Packing.Insert | src/backpack.h:219-221 | inserting into the set of solutions keeps it strictly ascending; an equivalent backpack already there leaves it unchanged, else it grows by one |
| Packing.InsertMembers | src/backpack.h:219-221 | after an insert the members are the old ones plus the new one exactly when no equivalent was there |
| Packing.InsertAll | src/backpack.h:219-221 | inserting many keeps the set strictly ascending |
| Packing.InsertAllAppend | src/backpack.h:254-257 | inserting a + b is inserting a, then b |
| Packing.InsertAllSound | src/backpack.h:219-221 | every solution in the set was inserted or was there before |
| Packing.InsertAllComplete | src/backpack.h:219-221 | every inserted backpack has an equivalent in the set |
| Packing.InsertKeepsEquivalent | src/backpack.h:219-221 | after one insert, every old member and the new one has an equivalent in the set |
| Packing.InsertAllKeepsEquivalent | src/backpack.h:219-221 | an old member keeps an equivalent through any inserts |
| Packing.InsertAllKeeps | src/backpack.h:219-221 | an old member stays in the set: std::set never replaces an element |
| Packing.InsertAllFirstWins | src/backpack.h:219-221 | the first of several equivalent inserted backpacks is the one kept |
| Packing.LowerBound | src/backpack.h:215 | lower_bound returns a position within the keys |
| Packing.LowerBoundSplits | src/backpack.h:215 | keys before lower_bound are less than k, the key at it is not |
| Packing.LowerBoundUnique | src/backpack.h:215 | that split property pins lower_bound down |
| Packing.InsertKey | src/backpack.h:215-217 | inserting a new key at its lower bound keeps the keys increasing and adds one |
| Packing.InsertKeyMembers | src/backpack.h:215-217 | the new keys are the old keys and the new one |
| Packing.InsertSorted | src/backpack.h:215-217 | inserting at a sorted split keeps the keys increasing, so the is_sorted check never throws |
| Packing.InsertKeyBelow | src/backpack.h:215-219 | new keys stay below the item count |
| Packing.KeysFit | src/backpack.h:219 | increasing keys below n number at most n, and n keys are all of 0 .. n-1 |
| Packing.ScanSkip | src/backpack.h:231-234 | when i == keys[idx], i is used and idx moves to the lower bound of i + 1 |
| Packing.ScanPass | src/backpack.h:231-236 | otherwise i is unused and idx already is the lower bound of i + 1 |
| Packing.Rotations | src/backpack.h:236 | the orientations recomputed at every node are those of genAllRotations, item by item |
| Packing.AnchorMovesSound | src/backpack.h:239-249 | each placement found in a row is for this item and shape at that row, and it fits |
| Packing.RowMovesSound | src/backpack.h:238-249 | each placement found over the rows fits |
| Packing.ShapeMovesSound | src/backpack.h:237-252 | each placement found for an item uses one of its orientations and fits |
| Packing.ItemMovesSound | src/backpack.h:230-253 | each placement found over the items is a move of an unused item |
| Packing.AnchorMovesComplete | src/backpack.h:239-249 | an anchor where the shape fits is found |
| Packing.RowMovesComplete | src/backpack.h:238-250 | a fitting placement at any row is found |
| Packing.ShapeMovesComplete | src/backpack.h:237-252 | placements of every orientation are found |
| Packing.ItemMovesComplete | src/backpack.h:230-253 | placements of every item are found |
| Packing.ItemMovesAtComplete | src/backpack.h:236-252 | any move of item k is among the placements found for k |
| Packing.MovesExact | src/backpack.h:228-253 | a placement becomes a child exactly when it puts an unused item, in one of its orientations, at an unblocked anchor where it fits |
| Packing.NoItemMoves | src/backpack.h:219-221 | with every item used there is nothing to place |
| Packing.BuildLeaf | src/backpack.h:219-221 | a node is a leaf exactly when it has no placement, and a node holding every item is a leaf |
| Packing.BuildChildren | src/backpack.h:244-248 | child j holds the backpack with placement j drawn, its weight and price added, and the keys with the item inserted |
| Packing.ChildrenForLength | src/backpack.h:247-248 | one child per placement |
| Packing.NewNode | src/backpack.h:212-226 | the child constructor builds the subtree for the inserted keys and adds the leaves' backpacks to the solutions |
| Packing.Solve | src/backpack.h:228-258 | solve builds the node's subtree and adds its leaves to the solutions |
| Packing.MarkLeaf | src/backpack.h:254-257 | a node without children becomes a leaf and its backpack a solution |
| Packing.PlaceAll | src/backpack.h:229-253 | the item loop makes one child per placement, in order, and adds their leaves |
| Packing.SolveStep | src/backpack.h:231-252 | one turn of the item loop skips a used item or adds the children for an unused one |
| Packing.PlaceItem | src/backpack.h:236-252 | all orientations of one item are tried in set order |
| Packing.PlaceShapes | src/backpack.h:237-252 | the orientation loop adds the children of each orientation in turn |
| Packing.PlaceShape | src/backpack.h:238-251 | the row loop adds the children of each row in turn |
| Packing.PlaceRow | src/backpack.h:239-250 | the column loop adds the children of each anchor in turn |
| Packing.TryAnchor | src/backpack.h:240-245 | a blocked anchor is skipped; otherwise the placement exists exactly when tryPutItem succeeds on a copy, and the new backpack adds the item's weight and price |
| Packing.PlaceAnchor | src/backpack.h:240-249 | a fitting anchor adds its child and that child's leaves |
| Packing.NewRoot | src/backpack.h:199-203 | the root constructor builds the whole tree from no keys and adds its leaves to the solutions |
| SolutionTrees.TotalsInsertKey | src/backpack.h:245 | adding a key adds exactly that item's weight and price |
| SolutionTrees.BuildTotals | src/backpack.h:245-247 | every node's weight and price are the base's plus those of the items its keys name |
| SolutionTrees.RootTotals | src/backpack.h:199-203 | from the root, every backpack in the tree weighs and costs its items' totals |
| SolutionTrees.MatchingAppend | src/backpack.h:260-270 | the matches among a + b are those of a, then those of b |
| SolutionTrees.FoundSound | src/backpack.h:260-270 | every hit the search returns is a node of the subtree with exactly that price |
| SolutionTrees.FoundComplete | src/backpack.h:260-270 | when no node is dearer than the price, the search returns every node of that price, in pre-order |
| SolutionTrees.FoundStopsAtDearerSibling | src/backpack.h:265 | the early break drops a cheaper, matching node that comes after a dearer sibling |
| SolutionTrees.SearchNode | src/backpack.h:260-270 | Node::search returns the hits of its children's subtrees, cut at the first dearer child |
| SolutionTrees.SolutionTree.constructor | src/backpack.h:276 | a new tree holds the backpack and no root yet |
| SolutionTrees.SolutionTree.Solve | src/backpack.h:278-282 | solve builds the whole tree and returns the set of its leaves' backpacks |
| SolutionTrees.SolutionTree.Search | src/backpack.h:286-291 | search from the root, or nothing without one |
| SolutionTrees.SolutionsAreLeaves | src/backpack.h:278-282 | every solution is a leaf's backpack, and every leaf has an equivalent solution |
| Derivation.LastIsDearest | src/main.cpp:54-57 | in the ascending list of solutions the last is the dearest |
| Derivation.AscendingPrices | src/main.cpp:54-57 | prices never decrease along the list |
| Derivation.ListSolutions | src/main.cpp:54-57 | sol1 lists the solutions in set order |
| Derivation.BestRun | src/main.cpp:59-71 | the run collected backwards from the last solution within the limit holds exactly the dearest solutions within the limit, heaviest first |
| Derivation.BestWithinLimit | src/main.cpp:59-71 | sol2 holds exactly the solutions within the weight limit of the greatest price found there, heaviest first, and is empty exactly when nothing is within the limit |
| Derivation.LightestDearestAsWritten | src/main.cpp:73-76 | the loop as written finds a dearest solution, the lightest one unless the first solution already has the top price, in which case it takes the second |
| Derivation.DearestRun | src/main.cpp:73-76 | the first element of the top-price run is the lightest dearest solution |
| Derivation.LightestDearestMissed | src/main.cpp:73-76 | on two solutions of price 5 weighing 2 and 3, the loop as written returns the weight-3 one and the intended loop the weight-2 one |
| Derivation.LightestDearest | src/main.cpp:73-76 | sol3 is a dearest solution and no dearest solution is lighter |
| Derivation.MinFree | src/main.cpp:78-88 | the running minimum is at most the start and every volume, and is the start or one of the volumes |
| Derivation.WithFree | src/main.cpp:90-98 | the filter keeps exactly the backpacks with the given free-cell count |
| Derivation.Volume | src/main.cpp:81-85 | the inner loops count the free cells of the picture |
| Derivation.MinVolume | src/main.cpp:78-88 | min_vol is the least free-cell count, starting from INT32_MAX |
| Derivation.KeepVolume | src/main.cpp:90-98 | sol4 keeps, in order, the backpacks with min_vol free cells |
| Derivation.FewestFree | src/main.cpp:78-98 | sol4 holds exactly the backpacks of sol2 with the fewest free cells, and is empty only when sol2 is |
| Derivation.FewestFreeMeaning | src/main.cpp:78-98 | when every free-cell count is at most INT32_MAX, filtering by the minimum keeps exactly the best-filled backpacks |
| Derivation.LeavesNonEmpty | src/backpack.h:254-257 | every solution tree has at least one leaf, so there is always a solution |
| Derivation.LeavesOfNonEmpty | src/backpack.h:254-257 | children always contribute a leaf |
| Derivation.InsertAllNonEmpty | src/backpack.h:219-221 | inserting at least one backpack leaves the set non-empty |
| Derivation.AllSolutions.constructor | src/main.cpp:42-98 | sol1 is the ascending set of leaf backpacks; sol2 is every dearest solution within the limit, heaviest first in strictly descending weight, and empty exactly when none fits; sol3 is the corrected lightest dearest; sol4 keeps the sol2 entries with the fewest free cells |
| Knapsack.RowMax | src/backpack.h:374-376 | the answer is non-negative and at least every cell of the row |
| Knapsack.RowMaxAttained | src/backpack.h:374-376 | the answer is 0 or one of the cells |
| Knapsack.PickFor | src/backpack.h:360-372 | every cell is the price of a choice of the first i + 1 items weighing at most j |
| Knapsack.CellComplete | src/backpack.h:365-372 | when item 0 has a positive weight or a non-negative price, no choice weighing j is worth more than the cell (or 0) |
| Knapsack.Answer | src/backpack.h:360-376 | the answer is the price of a feasible choice and, when item 0 has a positive weight or a non-negative price, no feasible choice is worth more |
| Knapsack.SolveBackpack | src/backpack.h:360-376 | solveBackpack's table and answer give the 0/1 knapsack optimum |
| Knapsack.NewTable | src/backpack.h:360-365 | the zero table with c[0] at w[0] is row 0 of the recurrence |
| Knapsack.FillRow | src/backpack.h:366-372 | one pass of the inner loop fills row i with the recurrence and changes no other row |
| Knapsack.LastRowMax | src/backpack.h:374-376 | the answer loop computes the row maximum from 0 |
| Knapsack.ZeroWeightFirstItem | src/backpack.h:365 | a weightless item 0 with negative price makes the table answer below the optimum |
| Knapsack.SmallInstance | src/backpack.h:360-376 | a four-item instance answers 9 |
| DynamicArrays.Zip | src/dynamicarray.h:14-16 | the elements pair each value with its flag: defined exactly where the flag is set |
| DynamicArrays.AllDefined | src/dynamicarray.h:39-42 | every element of a copied list is defined with its value |
| DynamicArrays.Blank | src/dynamicarray.h:50-52 | a new array of count elements has none defined |
| DynamicArrays.Values | src/dynamicarray.h:81-87 | the values of a fully defined array give it back |
| DynamicArrays.Resized | src/dynamicarray.h:112-137 | resize keeps the elements that fit, and the new ones are undefined |
| DynamicArrays.InsertedAt | src/dynamicarray.h:164-173 | inserting adds one element |
| DynamicArrays.RemovedAt | src/dynamicarray.h:175-182 | removing drops one element |
| DynamicArrays.Swapped | src/dynamicarray.h:140-144 | swapping keeps the length |
| DynamicArrays.LookupAfterStore | src/dynamicarray.h:95-100 | after set(index, x), get(index) is x and every other get is as before |
| DynamicArrays.LookupAfterInsert | src/dynamicarray.h:164-173 | after insertAt, indices below are unchanged, index holds the item, indices above read one lower |
| DynamicArrays.LookupAfterRemove | src/dynamicarray.h:175-182 | after removeAt, indices below are unchanged and the rest read one higher |
| DynamicArrays.RemoveUndoesInsert | src/dynamicarray.h:164-182 | removing at the index of an insert gives the array back |
| DynamicArrays.AppendPrependAreInsertions | src/dynamicarray.h:145-160 | append is an insert at the end and prepend an insert at 0 |
| DynamicArrays.GrowThenShrink | src/dynamicarray.h:112-137 | resizing and resizing back gives the array back |
| DynamicArrays.LookupAfterResizeTwice | src/dynamicarray.h:112-137 | after two resizes an index reads as before when it was kept by both, else out of range |
| DynamicArrays.InsertedAtAllDefined | src/dynamicarray.h:164-173 | inserting into a defined array is inserting into its values |
| DynamicArrays.SwapTwice | src/dynamicarray.h:140-144 | swapping twice gives the array back |
| DynamicArrays.DynamicArray.constructor | src/dynamicarray.h:45-53 | a new array of count undefined elements |
| DynamicArrays.DynamicArray.FromItems | src/dynamicarray.h:54-60 | the list constructor defines every element with its value |
| DynamicArrays.DynamicArray.Copy | src/dynamicarray.h:63-71 | the copy has the same elements and flags, in new storage |
| DynamicArrays.DynamicArray.Sized | src/dynamicarray.h:45-53 | a negative count throws IndexOutOfRange, otherwise an array of undefined elements |
| DynamicArrays.DynamicArray.Copied | src/dynamicarray.h:31-43 | a negative count throws, otherwise the first count items, all defined |
| DynamicArrays.DynamicArray.Get | src/dynamicarray.h:81-87 | get returns the value of a defined element and IndexOutOfRange otherwise |
| DynamicArrays.DynamicArray.GetSize | src/dynamicarray.h:88-90 | the number of elements |
| DynamicArrays.DynamicArray.Set | src/dynamicarray.h:95-100 | in range, the element becomes defined with the value; out of range, IndexOutOfRange and no change |
| DynamicArrays.DynamicArray.Store | src/dynamicarray.h:97-99 | the element at index becomes defined with the value |
| DynamicArrays.DynamicArray.At | src/dynamicarray.h:106-110 | the writable operator[] marks the element defined and returns its stored value, or throws out of range |
| DynamicArrays.DynamicArray.Resize | src/dynamicarray.h:112-137 | a negative size throws bad_array_new_length; otherwise the elements become Resized |
| DynamicArrays.DynamicArray.Swap | src/dynamicarray.h:140-144 | with both elements defined they trade places; otherwise IndexOutOfRange and no change |
| DynamicArrays.DynamicArray.Append | src/dynamicarray.h:145-148 | the item is added, defined, at the end |
| DynamicArrays.DynamicArray.Prepend | src/dynamicarray.h:150-160 | the item is added, defined, at the front |
| DynamicArrays.DynamicArray.ShiftThenStoreFirst | src/dynamicarray.h:153-159 | the shift then the store at 0 |
| DynamicArrays.DynamicArray.ShiftRight | src/dynamicarray.h:168-171 | the elements from index on move up one place |
| DynamicArrays.DynamicArray.InsertAt | src/dynamicarray.h:164-173 | for 0 <= index <= size the item is inserted there; otherwise the array is left one undefined element longer and IndexOutOfRange is thrown |
| DynamicArrays.DynamicArray.RemoveAt | src/dynamicarray.h:175-182 | in range the element is removed; otherwise IndexOutOfRange and no change |
| DynamicArrays.DynamicArray.ShiftLeft | src/dynamicarray.h:177-180 | the elements after index move down one place and the last is kept |
| DynamicArrays.ShiftRightArrays | src/dynamicarray.h:168-171 | the loop moves every value and flag above index up one place |
| DynamicArrays.ShiftLeftArrays | src/dynamicarray.h:177-180 | the loop moves every value and flag after index down one place |
| DynamicArrays.ShiftedRight | src/dynamicarray.h:168-171 | the pointwise shift is the sequence shift of the elements |
| DynamicArrays.ShiftedLeft | src/dynamicarray.h:177-180 | the pointwise shift is the sequence shift of the elements |
| DynamicArrays.ShiftThenStore | src/dynamicarray.h:164-173 | resize, shift, then set is insertion |
| DynamicArrays.ShiftThenShrink | src/dynamicarray.h:175-182 | shift, then resize down, is removal |
| ArraySequences.ReducedIsFoldLeft | src/arraysequence.h:118-124 | reduce is the left fold of f over the elements, from the first |
| ArraySequences.FoldLeftSnoc | src/arraysequence.h:120-122 | one more element applies f once more |
| ArraySequences.KeptMembers | src/arraysequence.h:108-117 | where keeps exactly the defined values that satisfy h |
| ArraySequences.KeptLength | src/arraysequence.h:108-117 | where never lengthens, and keeps everything when all pass |
| ArraySequences.ArraySequence.FromItems | src/arraysequence.h:16 | the items, all defined (OfItems adds the count and its error) |
| ArraySequences.ArraySequence.Sized | src/arraysequence.h:18 | count undefined elements (OfCount adds the negative-count error) |
| ArraySequences.ArraySequence.OfItems | src/arraysequence.h:16 | a negative count throws IndexOutOfRange, otherwise the first count items, all defined |
| ArraySequences.ArraySequence.OfCount | src/arraysequence.h:18 | a negative count throws IndexOutOfRange, otherwise count undefined elements |
| ArraySequences.ArraySequence.constructor | src/arraysequence.h:20 | the empty sequence |
| ArraySequences.ArraySequence.FromArray | src/arraysequence.h:22 | a copy of the array's elements |
| ArraySequences.ArraySequence.GetFirst | src/arraysequence.h:26-28 | the first value when it exists and is defined, else IndexOutOfRange |
| ArraySequences.ArraySequence.GetLast | src/arraysequence.h:31-33 | the last value when it exists and is defined, else IndexOutOfRange |
| ArraySequences.ArraySequence.Get | src/arraysequence.h:36-38 | the value at a defined index, else IndexOutOfRange |
| ArraySequences.ArraySequence.GetLength | src/arraysequence.h:62-64 | the number of elements |
| ArraySequences.ArraySequence.GetSubsequence | src/arraysequence.h:49-59 | the elements start..end, all defined; IndexOutOfRange when start > end or a read fails |
| ArraySequences.ArraySequence.Append | src/arraysequence.h:67-69 | the item is added at the end |
| ArraySequences.ArraySequence.Prepend | src/arraysequence.h:71-73 | the item is added at the front |
| ArraySequences.ArraySequence.InsertAt | src/arraysequence.h:77-79 | as DynamicArray.InsertAt |
| ArraySequences.ArraySequence.RemoveAt | src/arraysequence.h:92-94 | as DynamicArray.RemoveAt |
| ArraySequences.ArraySequence.Concat | src/arraysequence.h:81-90 | a new sequence of both lists' elements; it fails exactly when the second list has an undefined element |
| ArraySequences.ArraySequence.Map | src/arraysequence.h:101-107 | a new sequence of f applied to each element, or failure on an undefined one |
| ArraySequences.ArraySequence.Where | src/arraysequence.h:108-117 | a new sequence of the elements h keeps, in order, or failure on an undefined one |
| ArraySequences.ArraySequence.Reduce | src/arraysequence.h:118-124 | f folded over the elements, or failure when empty or undefined |
| ArraySequences.CopyAfter | src/arraysequence.h:85-88 | the copy loop appends the list's elements after the prefix, or fails on an undefined one |
| SortedSequences.Position | src/sortedsequence.h:61-62 | the scan stops at the first element not less than x |
| SortedSequences.InsertSorted | src/sortedsequence.h:59-64 | add lengthens the sequence by one |
| SortedSequences.InsertSortedAt | src/sortedsequence.h:59-64 | after add, elements before the position are unchanged, the position holds x, the rest move up one |
| SortedSequences.InsertSortedCounts | src/sortedsequence.h:59-64 | add adds exactly one x to the multiset of elements |
| SortedSequences.InsertSortedKeepsOrder | src/sortedsequence.h:59-64 | add keeps a sorted sequence sorted |
| SortedSequences.InsertSortedSplits | src/sortedsequence.h:59-64 | elements before x are less than it and elements after are not |
| SortedSequences.AddScenario | test/tests.cpp:33-57 | adding 10, 20 and 5 gives 5, 10, 20 |
| SortedSequences.SortedSequence.constructor | src/sortedsequence.h:9-11 | an empty sorted sequence |
| SortedSequences.SortedSequence.GetLength | src/sortedsequence.h:14-16 | the number of elements |
| SortedSequences.SortedSequence.GetIsEmpty | src/sortedsequence.h:18-20 | empty exactly when there are no elements |
| SortedSequences.SortedSequence.Get | src/sortedsequence.h:22-24 | the element at an index in range, else IndexOutOfRange |
| SortedSequences.SortedSequence.GetFirst | src/sortedsequence.h:31-33 | the least element, or IndexOutOfRange when empty |
| SortedSequences.SortedSequence.GetLast | src/sortedsequence.h:35-37 | the greatest element, or IndexOutOfRange when empty |
| SortedSequences.SortedSequence.IndexOf | src/sortedsequence.h:41-46 | the first index of the element, or -1 exactly when it is absent |
| SortedSequences.SortedSequence.GetSubsequence | src/sortedsequence.h:50-56 | the elements start..end, empty when start > end, IndexOutOfRange when a read is out of range |
| SortedSequences.SortedSequence.Add | src/sortedsequence.h:59-64 | the element is inserted at its sorted position and the sequence stays sorted |
| SortedSequences.SortedSequence.Scan | src/sortedsequence.h:61-62 | the loop finds the insert position |
| SortedSequences.ScanFindsPosition | src/sortedsequence.h:61-62 | the scan's stopping point is the insert position |
| SortedSequences.AppendStaysSorted | src/sortedsequence.h:52-54 | appending the next element of a sorted sequence keeps the copy sorted |
| BTrees.RestAppend | src/btree.h:77-81 | traversal of concatenated key and child lists concatenates |
| BTrees.Decompose | src/btree.h:74-82 | the traversal is the part before child j, child j's traversal, then the part after |
| BTrees.PlacedKeepsOrder | src/btree.h:119-143 | a key placed at its sorted position keeps the traversal sorted and adds the key once |
| BTrees.PlaceInChild | src/btree.h:141 | placing a key within one child places it in the node's traversal |
| BTrees.HalvesInOrder | src/btree.h:146-164 | a full node's traversal is its lower half, the median, then its upper half |
| BTrees.SplitKeepsOrder | src/btree.h:146-164 | splitChild does not change the node's traversal |
| BTrees.SplitKeepsShape | src/btree.h:146-164 | after the split the node keeps its shape and gains a key, and both halves have t - 1 keys |
| BTrees.LeafInsert | src/btree.h:121-131 | the shifting loop puts k after the keys not greater than it and before the greater ones |
| BTrees.OpenGap | src/btree.h:158-161 | shifting up from position g inserts x there |
| BTrees.NewUpper | src/btree.h:148-155 | z gets the last t - 1 keys and, in an inner node, the last t children of y |
| BTrees.SplitChild | src/btree.h:146-164 | the median moves up at i, the halves become children i and i + 1, the traversal and shape are kept |
| BTrees.InsertNonFull | src/btree.h:119-143 | inserting into a non-full node places k in sorted position in its traversal and keeps the shape |
| BTrees.MakeRoom | src/btree.h:134-140 | the child to descend into is split first when full, and k belongs between its neighbouring keys |
| BTrees.InsertIntoChild | src/btree.h:141 | descending into the chosen child places k in the node's traversal |
| BTrees.GrowRoot | src/btree.h:105-112 | a full root is split under a new root, and k is placed, so the height grows by one |
| BTrees.SearchDescends | src/btree.h:89-93 | when the scan stops at i, k is in the node exactly when it is in child i |
| BTrees.SearchNode | src/btree.h:85-94 | search returns a node holding k exactly when k is in the subtree |
| BTrees.TraverseNode | src/btree.h:74-82 | traverse outputs the subtree's keys in order |
| BTrees.InsertKey | src/btree.h:97-116 | insert keeps a well-formed tree and adds k to its keys; the height grows only when the root was full |
| BTrees.BTree.constructor | src/btree.h:49-52 | an empty tree of degree t |
| BTrees.BTree.Traverse | src/btree.h:55-57 | the traversal is sorted and holds exactly the inserted keys |
| BTrees.BTree.Search | src/btree.h:60-62 | a node holding k is returned exactly when k is in the tree |
| BTrees.BTree.Found | src/btree.h:65-67 | found is true exactly when k was inserted |
| BTrees.BTree.Insert | src/btree.h:97-116 | the tree stays valid and k is added to its contents |
| BTrees.SortedUnique | src/btree.h:74-82 | a sorted list of given keys is unique |
| BTrees.InsertEach | test/tests.cpp:68-86 | inserting keys one by one, each is found right after |
| BTrees.InsertThenFind | test/tests.cpp:70-86 | an inserted key is found |
| BTrees.InsertedKeys | test/tests.cpp:68-86 | the eight inserted keys as a multiset |
| BTrees.ExpectedOrder | test/tests.cpp:88-101 | a sorted list of those keys is 5 6 7 10 12 17 20 30 |
| BTrees.TestTree | test/tests.cpp:68-86 | the empty tree does not find 10, then every inserted key is found |
| BTrees.TraverseTestTree | test/tests.cpp:88-101 | the traversal is 5 6 7 10 12 17 20 30 |
| BTrees.ProbeTestTree | test/tests.cpp:92-101 | 6 is present and 15 is not |
| BTrees.BasicScenario | test/tests.cpp:68-102 | the whole test: finds, traversal order, present and not present |
| NaryTrees.Leaf | src/tree.h:18-20 | a new node holds the value and N empty children |
| NaryTrees.FlattenSplit | src/tree.h:14-17 | the values below the slots split around slot i |
| NaryTrees.InFlatten | src/tree.h:21-31 | a value is below the slots exactly when some child's subtree holds it |
| NaryTrees.FindIn | src/tree.h:21-31 | Node::find is true exactly when the value is in the subtree |
| NaryTrees.FirstEmpty | src/tree.h:48-56 | the scan stops at the first empty slot, every earlier slot full |
| NaryTrees.InsertedShaped | src/tree.h:46-59 | insertion keeps every node with N slots |
| NaryTrees.InsertedValues | src/tree.h:46-59 | insertion adds exactly the new value to the tree's values |
| NaryTrees.InsertNode | src/tree.h:46-59 | insert(r, newNode) fills the first empty slot, or descends into the last slot, and adds exactly the value |
| NaryTrees.ReduceNode | src/tree.h:90-98 | reduce(n, f) folds f over the node's value and its children's reductions, in slot order |
| NaryTrees.FoldAppend | src/tree.h:90-98 | folding a + b is folding a, then b |
| NaryTrees.FoldShift | src/tree.h:90-98 | with f associative, f(a, fold from b) is the fold from f(a, b) |
| NaryTrees.ReducedIsFold | src/tree.h:90-98 | with f associative, reduce is the left fold of f over the pre-order values |
| NaryTrees.ReduceFromIsFold | src/tree.h:92-96 | the remaining slots fold their subtrees' values |
| NaryTrees.Tree.constructor | src/tree.h:35 | an empty tree with N slots per node |
| NaryTrees.Tree.Insert | src/tree.h:37-45 | the first value becomes the root, later ones are inserted; the tree's values gain exactly v |
| NaryTrees.Tree.Find | src/tree.h:61-66 | find is true exactly when the value is in the tree, false on an empty tree |
| NaryTrees.Tree.Map | src/tree.h:69-75 | map returns a new empty tree, as the source's body is commented out |
| NaryTrees.Tree.Where | src/tree.h:77-85 | where returns a new empty tree, as the source's body is commented out |
| NaryTrees.Tree.Reduce | src/tree.h:87-89 | reduce of a non-empty tree reduces from the root |
| NaryTrees.MapTree | src/tree.h:131-134 | the free map forwards to Tree::map |
| NaryTrees.WhereTree | src/tree.h:137-140 | the free where forwards to Tree::where |
| NaryTrees.ReduceTree | src/tree.h:143-146 | the free reduce forwards to Tree::reduce |
| NaryTrees.InsertThenFind | src/tree.h:37-66 | a value inserted is then found |

## Left out

- Input and output are not modelled. This covers `Config` and the file reading of `solveBackpack` (src/backpack.h:294-359), every `print`, `operator<<`, `toWS` and `printShape`, the menus (src/menu.h, `main_menu1`), the chrono timing in `AllSolutions`, and the interactive `Tree(const wchar_t*)` constructor. The parsed inputs become parameters.
- `Sequence<T>` (sequence.h) is not part of this model. `ArraySequence` is modelled on its own methods. The `operator[]` forwarders of `ArraySequence` and `SortedSequence` go to `DynamicArray`, whose writable `operator[]` is `DynamicArray.At`.
- Memory is not modelled: destructors, `delete`, leaked nodes, `child.reserve`, and `memcpy` (a value copy here). Tree nodes (solution tree, B-tree, n-ary tree) are datatype values held by a class, not linked by address. So aliasing of nodes is not captured, and the unused `parent` links are left out.
- `SolutionTree::root` is uninitialised before `solve` in the source. It is modelled as `None`, so `search` before `solve` returns nothing.
- `Node::solve` adds one child per successful placement. Children with equal pictures are kept, as in the source, and only the solution set deduplicates.
- The `is_sorted` check of the child constructor (src/backpack.h:217) has no throw path: `Packing.InsertSorted` proves that it never fails.
- `BTree` and `SortedSequence` are specialised to `int`. The `BTree<string>` test (test/tests.cpp:104-128) is left out.
- The answers 40 and 58638 expected by the solveBackpack test (test/tests.cpp:177-179) depend on input files that are not part of this model. Knapsack.SmallInstance states the table's answer on a small instance instead.
- C++ `int` overflow is not modelled: weights, prices, volumes and knapsack sums are unbounded integers.
- BTrees.SearchNode: the source compares `keys[i]` with `k` even when `i == n`. That reads past the node's keys (an unset slot, or past the array when the node is full). The model tests `i < n` first, so it states the intended result and not what the unset slot would give.
- BTrees.BTree.constructor: requires a degree of at least 1. With t < 1 the source allocates arrays of negative size.
- NaryTrees.Tree.constructor: requires N >= 1. With N = 0 the source's insert writes into a zero-length child array.
- NaryTrees.Tree.Reduce: requires a non-empty tree, because the source dereferences a null root otherwise.
- NaryTrees.ReducedIsFold: the fold form is stated only for an associative f. For any other f only ReduceNode's equation with `Reduced` holds.
- Knapsack.SolveBackpack: requires w[0] <= W, because the source writes `d[0][w[0]]` unchecked. Optimality is stated only when item 0 has a positive weight or a non-negative price. Otherwise row 0 records item 0 in place of the empty choice, and the answer can fall short (Knapsack.ZeroWeightFirstItem).
- Knapsack.CellComplete: states optimality under the same premise on item 0 as Knapsack.SolveBackpack.
- Knapsack.Answer: states optimality under the same premise on item 0 as Knapsack.SolveBackpack.
- Derivation.FewestFree: the "fewest free cells" meaning is stated only when every free-cell count is at most INT32_MAX, the start value of `min_vol`.
- Derivation.FewestFreeMeaning: carries the same INT32_MAX premise as Derivation.FewestFree.
- DynamicArrays.DynamicArray.Copied: requires count <= |items|, because `memcpy` reads count items.
- ArraySequences.ArraySequence.OfItems: requires count <= |items|, for the same reason as DynamicArrays.DynamicArray.Copied.
- Derivation.AllSolutions.constructor uses the corrected sol3 (see Findings).

## Findings

| source | as written | input that shows it | evidently intended | confidence | as-written member | corrected member |
|---|---|---|---|---|---|---|
| src/main.cpp:73-76 | the scan for the start of the top-price run stops at index 1, never 0, so when every solution has the top price sol3 is sol1[1] | sol1 = [(weight 2, price 5), (weight 3, price 5)]: sol3 is the weight-3 backpack | sol3 is the lightest of the dearest solutions, here sol1[0] | not executed | Derivation.LightestDearestAsWritten, Derivation.LightestDearestMissed | Derivation.LightestDearest |
