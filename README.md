# BestBinarySearchTree in Dafny

This project models `BestBinarySearchTree`, a Java binary search tree with a deliberately
breakable insertion path. The model covers:

- **Ordered insertion** (`insert`). It rejects any element that `contains` already finds.
  Otherwise it walks down, left on a strictly smaller value and right otherwise, and attaches a leaf.
- **Corrupting insertion** (`brokenInsert`). It hangs the new value under the last node of the
  left spine, whatever the value.
- **The validator** (`isBinarySearchTree`). It follows one chain only: the left child when there
  is one, otherwise the right child.
- **The adaptive lookup** (`contains`). It checks the root first. Then it does an ordered descent
  when the validator passes, and a left-spine scan when it does not.
- **The node-counted height** (`getHeight`, both forms).
- **The level enumeration** (`getNodesAtHeight`, both forms). It keeps a null slot for every
  missing node.
- **The two constructors.** They build the tree from an element sequence with one policy and then
  cache the height.

Layout, one module per file:

- `BinaryTrees.dfy`: the linked tree the class extends. A tree is the value
  `Tree = Empty | Node(left, value, right)`. A Java `Position` is the path of left/right steps
  from the root, and null is `None`. The file also holds the library primitives `left`/`right`
  (`ChildOf`), attaching a leaf (`Graft` at a `Vacant` slot), and the height.
- `Validation.dfy`: the validator `ChainValid`, the route it follows, and the true ordering
  `IsBst` that `insert` keeps. That ordering is: left subtree strictly smaller, right subtree not smaller.
- `Search.dfy`: `contains(element, curPos)` as `OrderedSearch`, `badTreeContains` as
  `LeftSpineSearch`, and `contains(element)` as `Lookup`.
- `Insertion.dfy`: where each insertion attaches (`InsertPath`, `LeftmostPath`), the resulting
  trees, and the trees the constructor builds (`BuildOrdered`, `Chain`).
- `Levels.dfy`: the level enumeration as a function. Slot `i` of level `k` is the position whose
  steps are `i` written in binary, or null.
- `BestBinarySearchTree.dfy`: the class. It has the fields `root` and `height`. Its methods run the
  source's loops (`Insert`, `BrokenInsert`, `BadTreeContains`, `GetNodesAtHeight`, the
  constructor loop). Each is proved against the functions above.
- `Scenarios.dfy`: worked examples on concrete inputs.

Integers stand for the `Comparable` elements, and `compareTo` is integer comparison. The Java
exceptions are the `Fail` cases of a `Result`:

- `Duplicate` from `insert`, and from the constructor, which does not catch it;
- `NotEmpty` from `addRoot`;
- `SlotOccupied` from `addLeft` and `addRight`;
- `InvalidPosition` for a position that names no node.

`insert`'s loop has the guard `walk != null`, but that variable never becomes null. In the model
the loop is `while true`, and it ends only by attaching. Its termination proof shows that the
`return null` after the loop is unreachable.

Ties go right in both `insert` (line 80) and the ordered descent (line 178).

## Model

| member | source | states |
|---|---|---|
| BinaryTrees.HeightFrom | src/BestBinarySearchTree.java:50-56 | getHeight(curPos, height) returns the accumulator plus the node-counted height of the subtree at curPos |
| BinaryTrees.ChildOf | src/BestBinarySearchTree.java:127-128 | left/right of a node is the child's position exactly when that child exists, and null otherwise |
| BinaryTrees.AttachLeaf | src/BestBinarySearchTree.java:76 | attaching at an empty child slot adds exactly one node, a childless leaf holding the value; every old position keeps its value; the element multiset gains the value |
| BinaryTrees.DepthBelowHeight | src/BestBinarySearchTree.java:43-56 | every node lies at a depth below the height |
| BinaryTrees.DeepestPosition | src/BestBinarySearchTree.java:43-56 | some node lies at depth height - 1, so the height is the exact maximum |
| Validation.ChainValid | src/BestBinarySearchTree.java:126-141 | isBinarySearchTree(curPos) is true exactly when, at every node of its left-else-right route, a left child is not larger than the node, or a lone right child not smaller |
| Validation.ChainPath | src/BestBinarySearchTree.java:127-139 | the validator's route names a node and ends at a childless node |
| Validation.BstPassesValidator | src/BestBinarySearchTree.java:126-141 | every true search tree passes the validator |
| Validation.ValidatorIgnoresRightChild | src/BestBinarySearchTree.java:129-133 | a node with both children is checked against its left child only: a tree with a too-small right child still passes |
| Search.OrderedSearch | src/BestBinarySearchTree.java:170-184 | a non-null result of the ordered descent is a node holding the element |
| Search.OrderedSearchOnBst | src/BestBinarySearchTree.java:170-184 | on a true search tree the ordered descent is non-null exactly when the element is stored |
| Search.LeftSpineSearch | src/BestBinarySearchTree.java:193-202 | badTreeContains returns the first left-spine node equal to the element, and null exactly when no left-spine node matches |
| Search.LeftSpineAt | src/BestBinarySearchTree.java:194-199 | the i-th left-spine value is at the path of i left steps |
| Search.Lookup | src/BestBinarySearchTree.java:151-159 | contains is null on an empty tree, and any non-null result is a node holding the element |
| Search.LookupOnBst | src/BestBinarySearchTree.java:151-159 | on a true search tree contains is non-null exactly when the element is stored |
| Search.LookupOnInvalid | src/BestBinarySearchTree.java:151-159 | once the validator fails on a non-empty tree, contains is the left-spine scan: it finds the element exactly when the element is on the left spine |
| Search.LookupMissesOffSpine | src/BestBinarySearchTree.java:193-202 | an example on one tree: a value stored right of the root, off the left spine, is missed by contains |
| Insertion.InsertPath | src/BestBinarySearchTree.java:72-86 | insert's walk always ends at an empty child slot under an existing node |
| Insertion.InsertPathSteps | src/BestBinarySearchTree.java:73-86 | each step of insert's walk goes left exactly when the element is smaller than the node it leaves |
| Insertion.InsertWalkStep | src/BestBinarySearchTree.java:74-85 | one iteration of insert's loop moves the walk one step along the path to the attachment slot |
| Insertion.OrderedInsertAddsLeaf | src/BestBinarySearchTree.java:65-89 | insert adds exactly one node, a leaf holding the element at the end of the walk; all existing nodes and values are unchanged; the multiset gains the element |
| Insertion.OrderedInsertKeepsBst | src/BestBinarySearchTree.java:73-86 | insert keeps a true search tree a true search tree |
| Insertion.OrderedInsertDescends | src/BestBinarySearchTree.java:74-85 | at a node, insert puts the element into the left subtree when it is smaller, else into the right subtree |
| Insertion.LeftmostPath | src/BestBinarySearchTree.java:102-106 | brokenInsert attaches at the empty slot after as many left steps as the left spine is long |
| Insertion.LeftmostWalkStep | src/BestBinarySearchTree.java:103-105 | one iteration of brokenInsert's loop moves the walk one left step along the spine |
| Insertion.LeftmostInsertBreaksValidator | src/BestBinarySearchTree.java:91-108 | brokenInsert of a value larger than the last left-spine node makes the validator fail, on any non-empty tree |
| Insertion.LeftmostInsertExtendsSpine | src/BestBinarySearchTree.java:98-108 | brokenInsert adds exactly one leaf holding the element, keeps every old node and value, and the left spine becomes the old spine plus the element |
| Insertion.LeftmostInsertChain | src/BestBinarySearchTree.java:32-39 | building with brokenInsert only extends a left-only chain in input order |
| Insertion.ChainShape | src/BestBinarySearchTree.java:32-39 | the brokenInsert-built chain holds the input along its left spine and nowhere else, with height equal to the input length |
| Insertion.ChainValidIffNonIncreasing | src/BestBinarySearchTree.java:126-141 | a brokenInsert-built chain passes the validator exactly when its input never increases |
| Insertion.BuildOrderedCorrect | src/BestBinarySearchTree.java:32-41 | building with insert succeeds exactly when the elements are pairwise distinct, and then gives a true search tree holding exactly them |
| Insertion.BuildOrderedFailsOnPrefix | src/BestBinarySearchTree.java:33-37 | a duplicate in any prefix makes the whole build fail |
| Levels.ExpandAt | src/BestBinarySearchTree.java:270-283 | one pass doubles the slots: slots 2i and 2i+1 are the left and right child slots of slot i, and a null slot gives two nulls |
| Levels.LevelSlots | src/BestBinarySearchTree.java:249-289 | level k has exactly 2^(k-1) slots; slot i is the node reached by the steps of i in binary, or null when that node is missing |
| Levels.LevelHasEveryNode | src/BestBinarySearchTree.java:249-289 | every node appears on the level below its depth, at the slot its path numbers |
| Levels.LevelEmptyBeyondHeight | src/BestBinarySearchTree.java:249-289 | a level is all nulls exactly when it is deeper than the height |
| BestBinarySearchTrees.BestBinarySearchTree.constructor | src/BestBinarySearchTree.java:12 | a new tree is empty and its height field is 0 |
| BestBinarySearchTrees.BestBinarySearchTree.Build | src/BestBinarySearchTree.java:32-41 | the constructor inserts every element with the chosen policy, fails with Duplicate exactly when the ordered build does, and caches the true height |
| BestBinarySearchTrees.BestBinarySearchTree.FromElements | src/BestBinarySearchTree.java:20-22 | the one-argument constructor succeeds exactly on pairwise distinct elements, and then holds a true search tree of exactly those elements with the true height |
| BestBinarySearchTrees.BestBinarySearchTree.GetHeight | src/BestBinarySearchTree.java:43-48 | getHeight() is the node-counted height: 0 for an empty tree, 1 + the larger child height otherwise |
| BestBinarySearchTrees.BestBinarySearchTree.AddRoot | src/BestBinarySearchTree.java:70 | addRoot makes a lone root in an empty tree and fails with NotEmpty otherwise, leaving the tree unchanged |
| BestBinarySearchTrees.BestBinarySearchTree.AddChild | src/BestBinarySearchTree.java:76 | addLeft/addRight attach a leaf at an empty child slot of a node; they fail on a non-node or an occupied slot, leaving the tree unchanged |
| BestBinarySearchTrees.BestBinarySearchTree.Insert | src/BestBinarySearchTree.java:65-89 | insert fails with Duplicate and changes nothing when contains finds the element; otherwise it attaches a leaf at the end of its walk; the cached height is untouched |
| BestBinarySearchTrees.BestBinarySearchTree.BrokenInsert | src/BestBinarySearchTree.java:98-108 | brokenInsert creates the root of an empty tree, else attaches under the last left-spine node; the cached height is untouched |
| BestBinarySearchTrees.BestBinarySearchTree.IsBinarySearchTree | src/BestBinarySearchTree.java:115-117 | the public validator is the chain check from the root, and it passes on every true search tree |
| BestBinarySearchTrees.BestBinarySearchTree.Contains | src/BestBinarySearchTree.java:151-159 | contains follows the root check and then the validator-selected search; a non-null result holds the element; on a true search tree it is non-null exactly when the element is stored |
| BestBinarySearchTrees.BestBinarySearchTree.BadTreeContains | src/BestBinarySearchTree.java:193-202 | the left-child walk returns the first left-spine node equal to the element, or null |
| BestBinarySearchTrees.BestBinarySearchTree.GetNodesAtHeight | src/BestBinarySearchTree.java:249-266 | getNodesAtHeight(k) for k >= 1 returns the level's 2^(k-1) slots, slot i being the node at the binary path of i or null |
| BestBinarySearchTrees.BestBinarySearchTree.GetNodesAtHeightFrom | src/BestBinarySearchTree.java:268-289 | the recursive helper applies one child-slot pass per level from currentHeight to the target |
| Scenarios.OrderedBuildOfFive | src/BestBinarySearchTree.java:32-41 | ordered insertion of 5, 3, 7, 1, 4 gives root 5, then 3 and 7, then 1 and 4: height 3 |
| Scenarios.CorruptingInsertion | src/BestBinarySearchTree.java:98-108 | after ordered 10, 5, 15 the validator passes and contains finds 5 but not 20; brokenInsert of 20 hangs it left of 5 and the validator then fails. The program itself cannot mix the two policies: both are private and the constructor loop (lines 33-39) uses one policy for every element |
| Scenarios.InsertAfterCorruptionDuplicates | src/BestBinarySearchTree.java:65-68 | after a corrupting insertion, contains misses an off-spine value, so insert stores it a second time. The program itself cannot mix the two policies: both are private and the constructor loop (lines 33-39) uses one policy for every element |

## Left out

- `printTree`, `drawTree` and `drawTrees` (src/BestBinarySearchTree.java:208-246) are left out. They are console output and StdDraw graphics with floating-point layout.
- `CustomTreeArtist` is left out. It reads standard input and parses integers, and `terminalInterface` is empty.
- `Lab10` is left out. It is only the program entry point.
- The internals of `net.datastructures.LinkedBinaryTree` are not part of this model. `addRoot`, `addLeft`/`addRight` and `left`/`right` are modelled by what they do: add operations fail on an occupied slot or an invalid position.
- Parent back-links, node identity and the library's `size` counter are not modelled. A position is its path from the root, which determines its parent.
- `dsaj.trees.TraversalExamples` is not part of this model. Only `printTree` uses it.
- Generics and `Comparable` are replaced by `int`, with `compareTo` as integer comparison.
- BestBinarySearchTrees.BestBinarySearchTree.IsBinarySearchTree requires a non-empty tree. On an empty tree the source hands null to the library's `left`, and that behaviour is not visible.
- Validation.ChainValid requires a non-empty subtree, for the same reason.
- BestBinarySearchTrees.BestBinarySearchTree.GetNodesAtHeight requires a level of at least 1. For any smaller level the source's recursion never reaches its base case.
- BestBinarySearchTrees.BestBinarySearchTree.GetNodesAtHeightFrom requires `currentHeight <= height`, for the same reason. It also requires every slot it is given to name a node of this tree: the library rejects foreign positions, and that check is not visible.
- BestBinarySearchTrees.BestBinarySearchTree.Build stands for the two-argument Java constructor. A Dafny constructor cannot end in an exception, so the exception that `insert` throws comes back as a `Fail` result. The half-built tree is dropped.
- BinaryTrees.HeightFrom does not model 32-bit overflow of the `int` accumulator. Overflow would need a path of more than 2^31 nodes.
