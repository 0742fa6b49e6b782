/**
 * The linked binary tree the search tree is built on: nodes holding an int,
 * positions (the Java `Position` handles) written as the path of left/right
 * steps from the root, the three attachment primitives, and the node-counted
 * height.
 */
module BinaryTrees {

  datatype Option<T> = None | Some(value: T)

  /** The exceptions the tree operations throw. */
  datatype Error =
    | Duplicate        // insert: the element is already found by contains
    | NotEmpty         // addRoot on a tree that has a root
    | SlotOccupied     // addLeft / addRight on a node whose child slot is taken
    | InvalidPosition  // a position that names no node of the tree

  datatype Result<T> = Ok(value: T) | Fail(error: Error)

  datatype Tree = Empty | Node(left: Tree, value: int, right: Tree)

  datatype Dir = L | R

  /** A position: the left/right steps from the root to a node. */
  type Path = seq<Dir>

  function Leaf(x: int): Tree
  {
    Node(Empty, x, Empty)
  }

  function Child(t: Tree, d: Dir): Tree
    requires t.Node?
  {
    if d == L then t.left else t.right
  }

  /** The subtree a path leads to; Empty once the path leaves the tree. */
  function Subtree(t: Tree, p: Path): Tree
    decreases p
  {
    if p == [] then t
    else if t.Empty? then Empty
    else Subtree(Child(t, p[0]), p[1..])
  }

  /** p names a node of t. */
  predicate IsPos(t: Tree, p: Path)
  {
    Subtree(t, p).Node?
  }

  /** getElement of the node at p. */
  function Label(t: Tree, p: Path): int
    requires IsPos(t, p)
  {
    Subtree(t, p).value
  }

  /** left(p) and right(p): the child position, or null. */
  function ChildOf(t: Tree, p: Path, d: Dir): (c: Option<Path>)
    requires IsPos(t, p)
    ensures c.Some? <==> Child(Subtree(t, p), d).Node?
    ensures c.Some? <==> IsPos(t, p + [d])
    ensures c.Some? ==> c.value == p + [d] && IsPos(t, c.value)
  {
    SubtreeStep(t, p, d);
    if IsPos(t, p + [d]) then Some(p + [d]) else None
  }

  /** Replaces the subtree at p by s; a path that leaves the tree changes nothing. */
  function Graft(t: Tree, p: Path, s: Tree): Tree
    decreases p
  {
    if p == [] then s
    else match t
      case Empty => Empty
      case Node(l, v, r) =>
        if p[0] == L then Node(Graft(l, p[1..], s), v, r) else Node(l, v, Graft(r, p[1..], s))
  }

  /** p is an empty child slot: it runs through existing nodes and ends on an empty child. */
  predicate Vacant(t: Tree, p: Path)
    decreases p
  {
    if p == [] then t.Empty? else t.Node? && Vacant(Child(t, p[0]), p[1..])
  }

  /** The multiset of the values held in the tree. */
  function Elements(t: Tree): multiset<int>
  {
    match t
    case Empty => multiset{}
    case Node(l, v, r) => Elements(l) + multiset{v} + Elements(r)
  }

  function Max(a: int, b: int): int
  {
    if a < b then b else a
  }

  /** Height counted in nodes: 0 for the empty tree, 1 for a lone root. */
  function Height(t: Tree): nat
  {
    match t
    case Empty => 0
    case Node(l, _, r) => 1 + Max(Height(l), Height(r))
  }

  /** getHeight(curPos, height): the depth accumulator form of Height. */
  function HeightFrom(t: Tree, h: int): (r: int)
    ensures r == h + Height(t)
    decreases t
  {
    match t
    case Empty => h
    case Node(l, _, r) => Max(HeightFrom(l, h + 1), HeightFrom(r, h + 1))
  }

  /** The values on the left spine, root first. */
  function LeftSpine(t: Tree): seq<int>
  {
    match t
    case Empty => []
    case Node(l, v, _) => [v] + LeftSpine(l)
  }

  /** The path of n left steps. */
  function Lefts(n: nat): Path
  {
    if n == 0 then [] else [L] + Lefts(n - 1)
  }

  // ---------------------------------------------------------------------------
  // Paths

  lemma {:induction false} SubtreeStep(t: Tree, p: Path, d: Dir)
    ensures Subtree(t, p + [d]) == if Subtree(t, p).Node? then Child(Subtree(t, p), d) else Empty
    decreases p
  {
    if p == [] {
      assert p + [d] == [d];
      assert [d][1..] == [];
    } else if t.Node? {
      assert (p + [d])[1..] == p[1..] + [d];
      SubtreeStep(Child(t, p[0]), p[1..], d);
    }
  }

  lemma {:induction false} SubtreeConcat(t: Tree, p: Path, q: Path)
    ensures Subtree(t, p + q) == Subtree(Subtree(t, p), q)
    decreases p
  {
    if p == [] {
      assert p + q == q;
    } else if t.Empty? {
      EmptySubtree(q);
    } else {
      assert (p + q)[1..] == p[1..] + q;
      SubtreeConcat(Child(t, p[0]), p[1..], q);
    }
  }

  lemma {:induction false} EmptySubtree(q: Path)
    ensures Subtree(Empty, q) == Empty
  {
  }

  /** Every prefix of a position is a position: a tree has no detached nodes. */
  lemma {:induction false} PrefixIsPos(t: Tree, p: Path, i: nat)
    requires IsPos(t, p) && i <= |p|
    ensures IsPos(t, p[..i])
  {
    assert p == p[..i] + p[i..];
    SubtreeConcat(t, p[..i], p[i..]);
    if Subtree(t, p[..i]).Empty? {
      EmptySubtree(p[i..]);
    }
  }

  lemma {:induction false} SubtreeCons(t: Tree, d: Dir, q: Path)
    requires t.Node?
    ensures Subtree(t, [d] + q) == Subtree(Child(t, d), q)
  {
    assert ([d] + q)[1..] == q;
  }

  // ---------------------------------------------------------------------------
  // Attaching a leaf

  /**
   * Attaching a new leaf at an empty slot adds exactly that node: every old
   * position survives with its value, the only new position is the slot, and
   * the new node has no children.
   */
  lemma AttachLeaf(t: Tree, p: Path, x: int)
    requires Vacant(t, p)
    ensures Subtree(Graft(t, p, Leaf(x)), p) == Leaf(x)
    ensures !IsPos(t, p)
    ensures forall q :: IsPos(Graft(t, p, Leaf(x)), q) <==> IsPos(t, q) || q == p
    ensures forall q :: IsPos(t, q) ==> Label(Graft(t, p, Leaf(x)), q) == Label(t, q)
    ensures Elements(Graft(t, p, Leaf(x))) == Elements(t) + multiset{x}
  {
    AttachLeafAt(t, p, x);
    forall q ensures IsPos(Graft(t, p, Leaf(x)), q) <==> IsPos(t, q) || q == p {
      AttachLeafPositions(t, p, x, q);
    }
    forall q | IsPos(t, q) ensures Label(Graft(t, p, Leaf(x)), q) == Label(t, q) {
      AttachLeafLabels(t, p, x, q);
    }
    AttachLeafElements(t, p, x);
  }

  lemma {:induction false} AttachLeafAt(t: Tree, p: Path, x: int)
    requires Vacant(t, p)
    ensures Subtree(Graft(t, p, Leaf(x)), p) == Leaf(x)
    ensures !IsPos(t, p)
    decreases p
  {
    if p != [] {
      AttachLeafAt(Child(t, p[0]), p[1..], x);
    }
  }

  lemma {:induction false} AttachLeafPositions(t: Tree, p: Path, x: int, q: Path)
    requires Vacant(t, p)
    ensures IsPos(Graft(t, p, Leaf(x)), q) <==> IsPos(t, q) || q == p
    decreases p
  {
    var t' := Graft(t, p, Leaf(x));
    if q == [] {
    } else if p == [] {
      assert q == [q[0]] + q[1..];
      SubtreeCons(t', q[0], q[1..]);
      EmptySubtree(q[1..]);
    } else {
      assert q == [q[0]] + q[1..];
      assert p == [p[0]] + p[1..];
      SubtreeCons(t', q[0], q[1..]);
      SubtreeCons(t, q[0], q[1..]);
      if q[0] == p[0] {
        AttachLeafPositions(Child(t, p[0]), p[1..], x, q[1..]);
      } else {
        assert Child(t', q[0]) == Child(t, q[0]);
      }
    }
  }

  lemma {:induction false} AttachLeafLabels(t: Tree, p: Path, x: int, q: Path)
    requires Vacant(t, p) && IsPos(t, q)
    ensures IsPos(Graft(t, p, Leaf(x)), q) && Label(Graft(t, p, Leaf(x)), q) == Label(t, q)
    decreases p
  {
    var t' := Graft(t, p, Leaf(x));
    if q != [] {
      assert p != [];
      assert q == [q[0]] + q[1..];
      SubtreeCons(t', q[0], q[1..]);
      SubtreeCons(t, q[0], q[1..]);
      if q[0] == p[0] {
        AttachLeafLabels(Child(t, p[0]), p[1..], x, q[1..]);
      } else {
        assert Child(t', q[0]) == Child(t, q[0]);
      }
    }
  }

  lemma {:induction false} AttachLeafElements(t: Tree, p: Path, x: int)
    requires Vacant(t, p)
    ensures Elements(Graft(t, p, Leaf(x))) == Elements(t) + multiset{x}
    decreases p
  {
    if p != [] {
      AttachLeafElements(Child(t, p[0]), p[1..], x);
    }
  }

  // ---------------------------------------------------------------------------
  // Height

  /** Every node lies at depth below the height. */
  lemma {:induction false} DepthBelowHeight(t: Tree, p: Path)
    requires IsPos(t, p)
    ensures |p| < Height(t)
    decreases p
  {
    if p != [] {
      DepthBelowHeight(Child(t, p[0]), p[1..]);
    }
  }

  /** Some node lies at depth Height - 1: the height is reached. */
  lemma {:induction false} DeepestPosition(t: Tree) returns (p: Path)
    requires t.Node?
    ensures IsPos(t, p) && |p| == Height(t) - 1
    decreases t
  {
    var d := if Height(t.left) < Height(t.right) then R else L;
    var c := Child(t, d);
    if c.Empty? {
      p := [];
    } else {
      var q := DeepestPosition(c);
      p := [d] + q;
      SubtreeCons(t, d, q);
    }
  }
}
