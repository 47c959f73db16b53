# Cartesian tree over an integer array

The repository implements a Cartesian tree over an `int[]` twice:

- `CartesianTree.cs` builds the tree with parent, left-child and right-child index arrays, then turns them into nodes.
- `cartesian_tree.cs` builds it with a monotonic stack.

A Cartesian tree is a min-heap on the values and a binary search tree on the array positions. Both files offer:

- in-order and pre-order traversals;
- a range-minimum query, which descends from the root to the first node whose index lies in the range;
- a property check with two halves: `CheckHeap` for the heap order and `CheckBstIndices` for the index order.

`CartesianTree.cs` also has a second, stack-based builder (`BuildStackBased`), which the constructor does not use.

The two files break ties between equal values differently:

- `CartesianTree.cs` pops with `>=`. A later equal value becomes an ancestor of an earlier one, so the root is the last occurrence of the minimum.
- `cartesian_tree.cs` pops with `>`. An earlier equal value stays above a later one, so the root is the first occurrence of the minimum.

The model keeps both policies as `TieBreak.PopGe` and `TieBreak.PopGt`. `Trees.RootTieBreak` and `Examples.TieBreaksDisagree` state which occurrence ends up on top.

## Layout

- `trees.dfy` (module `Trees`) holds what both files share:
  - the `Tree` datatype;
  - the traversals, `FindLca`/`GetRangeMinimum`, and `CheckHeap`/`CheckBstIndices`/`VerifyProperties`;
  - the declarative specification `Cartesian(t, p)`. This is the heap order with the tie-break `p`: left subtree values are `>=` the node's value and right subtree values `>` it for `PopGe`, and the reverse for `PopGt`.
  
  It also holds the facts about that specification:
  - it is unique: one tree per array and policy;
  - it passes the property check;
  - it answers range minima correctly.
- `spines.dfy` (module `Spines`) holds the stack state shared by every builder:
  - frames of the tree's right spine, bottom first, each with the left subtree it owns;
  - the invariant the builders keep;
  - the push step that preserves that invariant.
- `strict_stack_tree.dfy` (module `StrictStackTree`) models the builder and constructor of `cartesian_tree.cs`.
- `index_array_tree.dfy` (module `IndexArrayTree`) models the index-array builder, `BuildTreeUtil` and the constructor of `CartesianTree.cs`. The arrays are sequences. A ghost stack of frames relates them to the tree built so far.
- `stack_tree.dfy` (module `StackTree`) models `BuildStackBased` of `CartesianTree.cs`: both the version as written and a corrected version. It also holds the comparison of the two builders that the runner displays side by side.
- `examples.dfy` (module `Examples`) holds the concrete cases the unit tests check. Each is stated for every tree the builders can return.

Every builder except the as-written `BuildStackBased` is proved to return a tree whose in-order sequence is `(a[0], 0), …, (a[n-1], n-1)` and which satisfies `Cartesian` for its policy. The as-written `BuildStackBased` (`StackTree.BuildStackBasedAsWritten`) returns the whole array only when `a[0]` is smaller than every later value. `Trees.CartesianUnique` shows that these two facts determine the tree completely. All other facts about built trees follow from that pair.

## Model

| member | source | states |
|---|---|---|
| Trees.FindLca | CartesianTree.cs:198-209 | the node found, if any, has an index inside the queried range `[lo, hi]` |
| Trees.FindLcaIsRangeMinimum | CartesianTree.cs:192-209 | on a heap-ordered tree whose in-order indices increase, the descent finds nothing exactly when no index lies in `[lo, hi]`; otherwise it finds a node of the tree whose value is at most every value with index in the range (the descent at cartesian_tree.cs:152-169 is the same) |
| Trees.RangeMinimumMatchesArray | CartesianTree.cs:283-284 | for a heap-ordered tree holding the array in order, the query returns `min(a[lo..hi])` whenever `0 <= lo <= hi < n`, and null exactly when `hi < lo`, the range lies outside the array or the array is empty; a range that reaches past the array gives the minimum of the part it overlaps |
| Trees.NoAnswerIff | CartesianTree.cs:192-196 | the query returns null exactly when no array position lies in `[lo, hi]` |
| Trees.ClippedMinimum | CartesianTree.cs:192-209 | for a range that overlaps the array, the query returns the minimum of the overlapping part, which is `a[lo..hi]` itself for an in-bounds range |
| Trees.OverlapMin | CartesianTree.cs:283-284 | a value at a position of the range that is at most every value in the range is the minimum of the part of the array the range overlaps |
| Trees.SeqMin | CartesianTree.cs:283 | the expected minimum the runner compares against is an element of the window and at most every element of it |
| Trees.CheckHeapIff | CartesianTree.cs:219-225 | the local parent-child test holds exactly when every node's value is at most every value in its subtree (the check at cartesian_tree.cs:180-190 is the same) |
| Trees.CheckBstIndicesIff | CartesianTree.cs:227-232 | the recursive check with open bounds holds exactly when the in-order indices strictly increase and lie strictly between the bounds (the check at cartesian_tree.cs:192-202 is the same) |
| Trees.CartesianIsHeapOrdered | CartesianTree.cs:219-225 | a tree satisfying either tie-break invariant is heap-ordered, so duplicates never break the heap check |
| Trees.CartesianPassesChecks | CartesianTree.cs:212-217 | a tree holding the array in order and satisfying a tie-break invariant makes `VerifyProperties` return `(true, true, true)`, with the sentinels `int.MinValue` and `int.MaxValue` as outer bounds (also for cartesian_tree.cs:173-178) |
| Trees.PreOrderPermutesInOrder | cartesian_tree.cs:103-117 | pre-order lists the root first and the same multiset of `(value, index)` pairs as in-order, each node once (CartesianTree.cs:150-163 is the same) |
| Trees.CartesianUnique | CartesianTree.cs:54-75 | for a fixed tie-break, two trees with the same in-order sequence that both satisfy the invariant are equal, so the result of a builder is pinned down by its postcondition |
| Trees.RootTieBreak | CartesianTree.cs:54-62 | the root holds a minimum of the array; with `>=` every later value is strictly greater, so the root is the last occurrence of the minimum; with strict `>` (cartesian_tree.cs:56-65) every earlier value is strictly greater, so the root is the first occurrence |
| Trees.ArrayShapes | CartesianTreeTests.cs:83-120 | a strictly increasing array gives a tree without left children rooted at index 0; a strictly decreasing one a tree without right children rooted at index n-1, under either tie-break (also tests.cs:87-116) |
| Trees.IncreasingIsRightChain | CartesianTreeTests.cs:83-100 | a valid tree over strictly increasing values has no left child anywhere and its root is the first in-order entry |
| Trees.DecreasingIsLeftChain | CartesianTreeTests.cs:103-120 | a valid tree over strictly decreasing values has no right child anywhere and its root is the last in-order entry |
| Trees.SingletonTree | CartesianTreeTests.cs:29-38 | a one-element array has exactly one tree with its in-order sequence: one node with that value, index 0 and no children |
| Spines.SpineSuffix | cartesian_tree.cs:77-82 | the tree hanging from any stack frame covers the positions from that frame's start to the last element pushed, satisfies the tie-break invariant and has the frame's value as its minimum; from the bottom frame it is the whole tree |
| Spines.PushStep | cartesian_tree.cs:52-73 | pushing the new element after popping every frame the comparison pops keeps the stack invariant, with the last popped node (and its chain) as the new node's left subtree |
| Spines.IndicesBelow | cartesian_tree.cs:50-73 | every frame on the stack holds a position already read |
| StrictStackTree.BuildCartesianTree | cartesian_tree.cs:46-83 | the strict stack builder returns a tree whose in-order sequence is the array with its indices and which satisfies the strict tie-break invariant |
| StrictStackTree.Create | cartesian_tree.cs:40-44 | an empty array gives no root, a singleton one leaf node `(a[0], 0)`, and every tree holds the array in order, keeps the first equal value highest and passes `VerifyProperties` |
| IndexArrayTree.BuildTreeUtil | CartesianTree.cs:82-91 | converting the child arrays yields no node exactly for index -1, a node with the requested index otherwise, and a tree whose in-order indices increase inside the covered interval with every node carrying its array value |
| IndexArrayTree.UtilFrame | CartesianTree.cs:82-91 | changing the arrays outside the interval a subtree covers changes neither its links nor the nodes built from them |
| IndexArrayTree.SpineLinked | CartesianTree.cs:78-79 | the arrays spell out, from any frame of the right spine, the same tree the frame stack describes; from the root it is the whole tree |
| IndexArrayTree.SpineFacts | CartesianTree.cs:54-55 | every node on the right spine carries its array value and has the node below it as parent, the root none |
| IndexArrayTree.ClimbParents | CartesianTree.cs:51-55 | the parent walk stops at a spine node; every spine node above it has a value `>= a[i]`, and the stop node has a smaller value unless it is the root |
| IndexArrayTree.RightChildOfFrame | CartesianTree.cs:63 | on the right spine only the last node lacks a right child, so the test `rightchild[last] == -1` tells the append case from the splice case |
| IndexArrayTree.RootCase | CartesianTree.cs:57-62 | when the walk reaches the root without finding a smaller value, making the new element the root with the old root as its left child records the pushed stack |
| IndexArrayTree.AppendCase | CartesianTree.cs:63-68 | when the walk stops at the last node, making the new element its right child records the pushed stack |
| IndexArrayTree.SpliceCase | CartesianTree.cs:69-75 | when the walk stops below the last node, the new element takes over that node's right child as its left child and becomes its right child, and the arrays record the pushed stack |
| IndexArrayTree.IndexStep | CartesianTree.cs:49-76 | any array update that links the new element as in the three cases and changes nothing else records the pushed stack |
| IndexArrayTree.KeptFrame | CartesianTree.cs:49-76 | a frame the step keeps stays recorded when its own slots and those of its left subtree are unchanged |
| IndexArrayTree.NewFrame | CartesianTree.cs:57-75 | the pushed element is recorded when its left child is the top popped node, it has no right child and its parent is the node it hangs from |
| IndexArrayTree.BuildCartesianTree | CartesianTree.cs:33-80 | the index-array builder returns a tree whose in-order sequence is the array with its indices and which satisfies the `>=` tie-break invariant |
| IndexArrayTree.Create | CartesianTree.cs:26-30 | an empty array gives no root, a singleton one leaf node `(a[0], 0)`, and every tree holds the array in order, puts the last equal value highest and passes `VerifyProperties` |
| StackTree.PushAll | CartesianTree.cs:101-126 | after the `>=` pop loop the stack holds strictly increasing values and increasing indices, each frame owning a valid left subtree, and `root` is the stack bottom |
| StackTree.BuildStackBased | CartesianTree.cs:94-126 | the stack-based builder without the closing walk returns a tree holding the array in order and satisfying the `>=` invariant |
| StackTree.LeftmostIsFirst | CartesianTree.cs:128-129 | walking down left children of a valid tree over a prefix of the array ends at the node of index 0, without a left child, whose subtree covers a shorter prefix |
| StackTree.LeftmostKeepsTree | CartesianTree.cs:128-131 | the walk leaves the tree unchanged, and keeps every element, exactly when `a[0]` is smaller than every later value |
| StackTree.BuildStackBasedAsWritten | CartesianTree.cs:94-132 | the builder as written returns, for a non-empty array, the node of index 0 with no left child and only a prefix of the array; it holds the whole array exactly when `a[0]` is a strict minimum, and it is the lone node `a[0]` when `a[1] <= a[0]` |
| StackTree.AsWrittenDropsRoot | CartesianTree.cs:128-131 | for `[2, 1]` the tree is `1` with left child `2`, and the walk returns the lone node `2` |
| StackTree.LoneFirstNode | CartesianTree.cs:128-131 | the node of index 0 that the walk ends on has no right subtree when `a[1] <= a[0]`, since that subtree would have to start with `a[1]` |
| StackTree.RunnerSecondExample | CartesianTree.cs:269-273 | on the runner's second array the index-array tree holds the array in order, while the as-written stack tree it displays is the lone node `9` |
| StackTree.CompareBuilders | CartesianTree.cs:269-271 | on every non-empty array the index-array builder and the corrected stack builder return the same tree |
| Examples.RangeMinimumExample | CartesianTreeTests.cs:133-140 | on `[4, 2, 6, 1, 5, 3]` the minimum over positions 1..4 is 1 |
| Examples.SingleRangeExample | CartesianTreeTests.cs:143-150 | on `[9, 7, 5, 3]` the one-position range 2..2 gives 5 |
| Examples.DuplicatesExample | CartesianTreeTests.cs:123-130 | `[2, 1, 1, 3, 1]` passes the property check under either tie-break; the root is index 4 with `>=` and index 1 with `>` |
| Examples.TieBreaksDisagree | cartesian_tree.cs:56-65 | on `[1, 1]` the `>=` tree puts index 1 on top and the `>` tree index 0 |

## Left out

- Printing: `PrintTree`, `LogTree` and the console runner only write to the console. `StackTree.CompareBuilders` states that the index-array builder and the corrected stack builder agree. The runner itself displays the as-written stack result, which differs from the index-array tree whenever `a[0]` is not a strict minimum (`StackTree.BuildStackBasedAsWritten`); on the runner's second array it is the lone node 9 (`StackTree.RunnerSecondExample`).
- Test scaffolding: NUnit logging and the seeded random generator. The random-array tests are covered by the all-inputs statements `IndexArrayTree.Create` and `StrictStackTree.Create`.
- Object identity and mutation: nodes are values, not references. The public `Root` setter is not modelled, and neither are the settable child links. The runner's overwrite of `Root` with the stack builder's result is not modelled as a mutation; that result is the return value of `StackTree.BuildStackBasedAsWritten`.
- Integer width: array values are unbounded integers. No comparison the code makes can overflow, so nothing depends on the width. Indices are bounded only where it matters: `Trees.CartesianPassesChecks` requires the array length to be at most `int.MaxValue`, because the index check uses that value as an open upper bound.
- Trees.FindLca: the O(height) bound on the descent is not stated. Neither are any of the other complexity claims (linear construction, linear traversals).
- IndexArrayTree.BuildTreeUtil: the source passes the `parent` array along without reading it, so the model omits that parameter. The interval of positions each subtree covers is added as ghost parameters, and is used only to show termination.
- `BuildStackBased`'s fallback `stack.Peek()` when `root` is null: after the loop on a non-empty array, `root` is never null. The model therefore returns the walked node directly.

## Findings

| source | as written | input that shows it | evidently intended | confidence | as-written member | corrected member |
|---|---|---|---|---|---|---|
| CartesianTree.cs:128-131 | after building the tree, `BuildStackBased` moves `root` down the chain of left children and returns the node it ends on, i.e. the node of index 0 with only its right subtree | `[2, 1]`: the tree is `1` with left child `2`; the result is the lone node `2` and the element `1` is lost. The runner's own input `[9, 3, 7, 1, …]` loses everything but `9` | return the stack bottom, the root of the whole tree, as the other builders do | high; not executed | StackTree.BuildStackBasedAsWritten, StackTree.AsWrittenDropsRoot, StackTree.RunnerSecondExample | StackTree.BuildStackBased, StackTree.CompareBuilders |
