/**
 * The BestBinarySearchTree class: a linked binary tree with a cached height,
 * two insertion policies, a validator, an adaptive contains and a level
 * enumerator. The linked structure is held as the value `root`; a Java
 * `Position` is a path from the root, and null is None.
 */
module BestBinarySearchTrees {
  import opened BinaryTrees
  import opened Validation
  import opened Search
  import opened Insertion
  import opened Levels

  /** The tree the constructor builds: with insert when doItRight, else with brokenInsert. */
  function Built(elements: seq<int>, doItRight: bool): Result<Tree>
  {
    if doItRight then BuildOrdered(elements) else Ok(Chain(elements))
  }

  class BestBinarySearchTree {
    var root: Tree
    var height: int

    /** The empty tree the inherited constructor leaves; the height field starts at 0. */
    constructor ()
      ensures root == Empty && height == 0
    {
      root := Empty;
      height := 0;
    }

    /**
     * BestBinarySearchTree(elements, doItRight): inserts each element in turn
     * with insert or brokenInsert, then caches the height. The exception insert
     * throws on a duplicate leaves the constructor; it is the Fail result here.
     */
    static method Build(elements: seq<int>, doItRight: bool) returns (r: Result<BestBinarySearchTree>)
      ensures r.Ok? <==> Built(elements, doItRight).Ok?
      ensures r.Fail? ==> r.error == Duplicate
      ensures r.Ok? ==> fresh(r.value) && r.value.root == Built(elements, doItRight).value
      ensures r.Ok? ==> r.value.height == Height(r.value.root)
    {
      var tree := new BestBinarySearchTree();
      for i := 0 to |elements|
        invariant fresh(tree)
        invariant doItRight ==> BuildOrdered(elements[..i]) == Ok(tree.root)
        invariant !doItRight ==> tree.root == Chain(elements[..i])
      {
        var x := elements[i];
        assert elements[..i + 1][..i] == elements[..i] && elements[..i + 1] == elements[..i] + [x];
        if doItRight {
          var placed := tree.Insert(x);
          if placed.Fail? {
            BuildOrderedFailsOnPrefix(elements, i + 1);
            return Fail(Duplicate);
          }
        } else {
          var placed := tree.BrokenInsert(x);
          LeftmostInsertChain(elements[..i], x);
        }
      }
      assert elements[..|elements|] == elements;
      tree.height := tree.GetHeight();
      r := Ok(tree);
    }

    /**
     * BestBinarySearchTree(elements): building with insert succeeds exactly
     * when the elements are pairwise distinct, and then holds a true search
     * tree of exactly those elements.
     */
    static method FromElements(elements: seq<int>) returns (r: Result<BestBinarySearchTree>)
      ensures r.Ok? <==> Distinct(elements)
      ensures r.Fail? ==> r.error == Duplicate
      ensures r.Ok? ==> fresh(r.value) && IsBst(r.value.root) && Elements(r.value.root) == multiset(elements)
      ensures r.Ok? ==> r.value.height == Height(r.value.root)
    {
      BuildOrderedCorrect(elements);
      r := Build(elements, true);
    }

    /** getHeight(): 0 for an empty tree, otherwise the accumulator started at 0. */
    function GetHeight(): (h: int)
      reads this
      ensures h == Height(root)
    {
      if root.Empty? then 0 else HeightFrom(root, 0)
    }

    /** addRoot: fails when the tree already has a root. */
    method AddRoot(x: int) returns (r: Result<Path>)
      modifies this
      ensures height == old(height)
      ensures old(root).Node? ==> r == Fail(NotEmpty) && root == old(root)
      ensures old(root).Empty? ==> r == Ok([]) && root == Leaf(x)
    {
      if root.Node? {
        return Fail(NotEmpty);
      }
      root := Leaf(x);
      r := Ok([]);
    }

    /** addLeft (d = L) and addRight (d = R): fail on a non-position or an occupied slot. */
    method AddChild(p: Path, d: Dir, x: int) returns (r: Result<Path>)
      modifies this
      ensures height == old(height)
      ensures !IsPos(old(root), p) ==> r == Fail(InvalidPosition) && root == old(root)
      ensures IsPos(old(root), p) && IsPos(old(root), p + [d]) ==> r == Fail(SlotOccupied) && root == old(root)
      ensures IsPos(old(root), p) && !IsPos(old(root), p + [d]) ==>
        r == Ok(p + [d]) && root == Graft(old(root), p + [d], Leaf(x))
    {
      if !IsPos(root, p) {
        return Fail(InvalidPosition);
      }
      if IsPos(root, p + [d]) {
        return Fail(SlotOccupied);
      }
      root := Graft(root, p + [d], Leaf(x));
      r := Ok(p + [d]);
    }

    /**
     * insert: rejects an element contains finds; otherwise walks down, left
     * on a strictly smaller value and right otherwise, and attaches a leaf at
     * the first missing child. The cached height is not updated.
     */
    method Insert(x: int) returns (r: Result<Path>)
      modifies this
      ensures height == old(height)
      ensures Lookup(old(root), x).Some? ==> r == Fail(Duplicate) && root == old(root)
      ensures Lookup(old(root), x).None? ==>
        r == Ok(InsertPath(old(root), x)) && root == OrderedInsert(old(root), x)
    {
      var found := Contains(x);
      if found.Some? {
        return Fail(Duplicate);
      }
      if root.Empty? {
        r := AddRoot(x);
        return;
      }
      var walk: Path := [];
      while true
        invariant root == old(root) && height == old(height)
        invariant IsPos(root, walk)
        invariant InsertPath(root, x) == walk + InsertPath(Subtree(root, walk), x)
        decreases |InsertPath(root, x)| - |walk|
      {
        var here := Subtree(root, walk);
        var d := if x < here.value then L else R;
        InsertWalkStep(root, x, walk);
        var next := ChildOf(root, walk, d);
        if next.None? {
          assert walk + [d] + [] == walk + [d];
          r := AddChild(walk, d, x);
          return;
        }
        walk := next.value;
      }
    }

    /**
     * brokenInsert: creates the root of an empty tree; otherwise follows left
     * children to the last one and attaches the new value as its left child,
     * whatever the value.
     */
    method BrokenInsert(x: int) returns (r: Result<Path>)
      modifies this
      ensures height == old(height)
      ensures r == Ok(LeftmostPath(old(root))) && root == LeftmostInsert(old(root), x)
    {
      if root.Empty? {
        r := AddRoot(x);
        return;
      }
      var walk: Path := [];
      while ChildOf(root, walk, L).Some?
        invariant root == old(root) && height == old(height)
        invariant IsPos(root, walk)
        invariant LeftmostPath(root) == walk + LeftmostPath(Subtree(root, walk))
        decreases |LeftmostPath(root)| - |walk|
      {
        LeftmostWalkStep(root, walk);
        walk := walk + [L];
      }
      LeftmostWalkStep(root, walk);
      assert walk + [L] + [] == walk + [L];
      r := AddChild(walk, L, x);
    }

    /** isBinarySearchTree(): the validator started at the root. */
    function IsBinarySearchTree(): (b: bool)
      reads this
      requires root.Node?
      ensures b == ChainValid(root)
      ensures IsBst(root) ==> b
    {
      assert IsBst(root) ==> ChainValid(root) by {
        if IsBst(root) {
          BstPassesValidator(root);
        }
      }
      ChainValid(root)
    }

    /**
     * contains(element): null for an empty tree, the root if it holds the
     * element, otherwise the ordered descent when the validator passes and
     * the left-spine scan when it does not.
     */
    method Contains(x: int) returns (r: Option<Path>)
      ensures r == Lookup(root, x)
      ensures r.Some? ==> IsPos(root, r.value) && Label(root, r.value) == x
      ensures IsBst(root) ==> (r.Some? <==> x in Elements(root))
    {
      if IsBst(root) {
        LookupOnBst(root, x);
      }
      if root.Empty? {
        return None;
      }
      if root.value == x {
        return Some([]);
      }
      if IsBinarySearchTree() {
        r := OrderedSearch(root, x);
      } else {
        r := BadTreeContains(x);
      }
    }

    /** badTreeContains: walks the left children from the root, returning the first equal node. */
    method BadTreeContains(x: int) returns (r: Option<Path>)
      ensures r == LeftSpineSearch(root, x)
    {
      var walk := RootSlot(root);
      var found := LeftSpineSearch(root, x);
      if found.Some? {
        assert [] + found.value == found.value;
      }
      while walk.Some?
        invariant walk.Some? ==> IsPos(root, walk.value)
        invariant LeftSpineSearch(root, x) ==
          if walk.None? then None else Within(walk.value, LeftSpineSearch(Subtree(root, walk.value), x))
        decreases if walk.Some? then |LeftSpine(Subtree(root, walk.value))| else 0
      {
        var p := walk.value;
        var here := Subtree(root, p);
        if x == here.value {
          assert p + [] == p;
          return walk;
        }
        SubtreeStep(root, p, L);
        WithinStep(p, LeftSpineSearch(here.left, x));
        walk := ChildOf(root, p, L);
      }
      r := None;
    }

    /**
     * getNodesAtHeight(heightToSearch): the slots of that level, left to
     * right, with null for every missing node. A level below 1 never reaches
     * the end of the recursion in the source, hence the precondition.
     */
    method GetNodesAtHeight(heightToSearch: int) returns (elementList: seq<Slot>)
      requires heightToSearch >= 1
      ensures elementList == Level(root, heightToSearch)
      ensures |elementList| == Pow2(heightToSearch - 1)
      ensures forall i :: 0 <= i < |elementList| ==> elementList[i] == SlotAt(root, heightToSearch - 1, i)
    {
      LevelSlots(root, heightToSearch);
      elementList := [];
      if heightToSearch == 1 {
        elementList := elementList + [RootSlot(root)];
      } else {
        var nodeSet := [RootSlot(root)];
        nodeSet := GetNodesAtHeightFrom(heightToSearch, 2, nodeSet);
        for i := 0 to |nodeSet|
          invariant elementList == nodeSet[..i]
        {
          var p := nodeSet[i];
          if p.None? {
            elementList := elementList + [None];
          } else {
            elementList := elementList + [p];
          }
        }
        assert nodeSet[..|nodeSet|] == nodeSet;
      }
    }

    /**
     * getNodesAtHeight(height, currentHeight, nodeSet): nodeSet is the level
     * above currentHeight; one pass lists every slot's left and right child
     * slots, and the recursion repeats until currentHeight reaches the target.
     */
    method GetNodesAtHeightFrom(targetHeight: int, currentHeight: int, nodeSet: seq<Slot>)
      returns (r: seq<Slot>)
      requires currentHeight <= targetHeight
      requires SlotsOf(root, nodeSet)
      ensures r == Expanded(root, nodeSet, targetHeight - currentHeight + 1)
      decreases targetHeight - currentHeight
    {
      var nodesAtCurrentHeight: seq<Slot> := [];
      for i := 0 to |nodeSet|
        invariant nodesAtCurrentHeight == Expand(root, nodeSet[..i])
      {
        var curPos := nodeSet[i];
        var leftChild := if curPos.None? then None else ChildOf(root, curPos.value, L);
        var rightChild := if curPos.None? then None else ChildOf(root, curPos.value, R);
        assert nodeSet[..i + 1][..i] == nodeSet[..i];
        if leftChild.None? {
          nodesAtCurrentHeight := nodesAtCurrentHeight + [None];
        } else {
          nodesAtCurrentHeight := nodesAtCurrentHeight + [leftChild];
        }
        if rightChild.None? {
          nodesAtCurrentHeight := nodesAtCurrentHeight + [None];
        } else {
          nodesAtCurrentHeight := nodesAtCurrentHeight + [rightChild];
        }
      }
      assert nodeSet[..|nodeSet|] == nodeSet;
      if targetHeight == currentHeight {
        return nodesAtCurrentHeight;
      }
      ExpandSlotsOf(root, nodeSet);
      r := GetNodesAtHeightFrom(targetHeight, currentHeight + 1, nodesAtCurrentHeight);
    }
  }

  /** A result path relative to the subtree at p, made relative to the root. */
  function Within(p: Path, o: Option<Path>): Option<Path>
  {
    match o
    case None => None
    case Some(q) => Some(p + q)
  }

  lemma WithinStep(p: Path, o: Option<Path>)
    ensures Within(p, Prepend(L, o)) == Within(p + [L], o)
  {
    if o.Some? {
      assert p + ([L] + o.value) == p + [L] + o.value;
    }
  }
}
