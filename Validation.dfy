/**
 * The validator isBinarySearchTree and the true search-tree ordering it
 * approximates. The validator follows a single chain from the node it is
 * given: into the left child when there is one, otherwise into the right
 * child, comparing each node with that one child only.
 */
module Validation {
  import opened BinaryTrees

  /**
   * isBinarySearchTree(curPos) on the subtree rooted at curPos: a node that
   * is smaller than its left child, or (having no left child) larger than its
   * right child, makes it false. It answers true exactly when the comparison
   * holds at every node of its left-else-right route.
   */
  predicate ChainValid(t: Tree)
    requires t.Node?
    ensures ChainValid(t) <==> RouteHolds(t)
    decreases t
  {
    if t.left.Node? then
      RouteStep(t);
      if t.value < t.left.value then false else ChainValid(t.left)
    else if t.right.Node? then
      RouteStep(t);
      if t.value > t.right.value then false else ChainValid(t.right)
    else
      assert ChainPath(t) == [] && ChainPath(t)[..0] == [];
      true
  }

  /** The route the validator takes: left when possible, else right, down to a leaf. */
  function ChainPath(t: Tree): (p: Path)
    requires t.Node?
    ensures IsPos(t, p)
    ensures Subtree(t, p).left.Empty? && Subtree(t, p).right.Empty?
    decreases t
  {
    if t.left.Node? then
      SubtreeCons(t, L, ChainPath(t.left));
      [L] + ChainPath(t.left)
    else if t.right.Node? then
      SubtreeCons(t, R, ChainPath(t.right));
      [R] + ChainPath(t.right)
    else []
  }

  /** The comparison made at one node of the route. */
  predicate StepHolds(t: Tree)
    requires t.Node?
  {
    if t.left.Node? then t.left.value <= t.value
    else if t.right.Node? then t.value <= t.right.value
    else true
  }

  predicate StepHoldsAt(t: Tree, p: Path)
  {
    IsPos(t, p) && StepHolds(Subtree(t, p))
  }

  /** The comparison holds at every node of the validator's route. */
  predicate RouteHolds(t: Tree)
    requires t.Node?
  {
    forall i :: 0 <= i <= |ChainPath(t)| ==> StepHoldsAt(t, ChainPath(t)[..i])
  }

  /** The route holds from a node exactly when it holds there and along the rest of the route. */
  lemma RouteStep(t: Tree)
    requires t.Node? && (t.left.Node? || t.right.Node?)
    ensures Child(t, if t.left.Node? then L else R).Node?
    ensures RouteHolds(t) <==> StepHolds(t) && RouteHolds(Child(t, if t.left.Node? then L else R))
  {
    var d := if t.left.Node? then L else R;
    var c := Child(t, d);
    var cp, cp' := ChainPath(t), ChainPath(c);
    assert cp == [d] + cp';
    assert cp[..0] == [];
    forall i | 1 <= i <= |cp|
      ensures StepHoldsAt(t, cp[..i]) <==> StepHoldsAt(c, cp'[..i - 1])
    {
      assert cp[..i] == [d] + cp'[..i - 1];
      SubtreeCons(t, d, cp'[..i - 1]);
    }
    if RouteHolds(t) {
      forall j | 0 <= j <= |cp'| ensures StepHoldsAt(c, cp'[..j]) {
        assert StepHoldsAt(t, cp[..j + 1]);
      }
    }
    if StepHolds(t) && RouteHolds(c) {
      forall i | 0 <= i <= |cp| ensures StepHoldsAt(t, cp[..i]) {
        if i > 0 {
          assert StepHoldsAt(c, cp'[..i - 1]);
        }
      }
    }
  }

  /**
   * The ordering insert maintains: everything in the left subtree is
   * strictly smaller than the node, everything in the right subtree is not
   * smaller.
   */
  ghost predicate IsBst(t: Tree)
  {
    match t
    case Empty => true
    case Node(l, v, r) =>
      IsBst(l) && IsBst(r) &&
      (forall y | y in Elements(l) :: y < v) &&
      (forall y | y in Elements(r) :: v <= y)
  }

  /** Every true search tree passes the validator. */
  lemma {:induction false} BstPassesValidator(t: Tree)
    requires t.Node? && IsBst(t)
    ensures ChainValid(t)
    decreases t
  {
    if t.left.Node? {
      assert t.left.value in Elements(t.left);
      BstPassesValidator(t.left);
    } else if t.right.Node? {
      assert t.right.value in Elements(t.right);
      BstPassesValidator(t.right);
    }
  }

  /** The validator never looks at a right child when a left child exists. */
  lemma ValidatorIgnoresRightChild()
    ensures ChainValid(Node(Leaf(1), 5, Leaf(0)))
    ensures !IsBst(Node(Leaf(1), 5, Leaf(0)))
  {
    assert 0 in Elements(Leaf(0));
  }
}
